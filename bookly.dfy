/** The module-level `books` list of bookly.py and the five request
    handlers that read and change it in place. */
module Bookly {
  import opened BookTable

  class BookStore {
    /** The process-global list of book records, in list order. */
    var books: seq<Book>

    /** The table as seeded at start-up. */
    constructor (seed: seq<Book>)
      ensures books == seed
    {
      books := seed;
    }

    /** get_all_books: the whole list as held, unchanged. */
    method GetAllBooks() returns (r: seq<Book>)
      ensures r == books
    {
      r := books;
    }

    /** get_book: for each element, subscript `books[bookId]` positionally
        and return the element when the two are equal. */
    method GetBook(bookId: int) returns (r: Outcome<Book>)
      ensures r == GetByPosition(books, bookId)
      ensures r.Ok? ==> r.value in books
    {
      var i := 0;
      while i < |books|
        invariant 0 <= i <= |books|
        invariant i > 0 ==> PyIndex(|books|, bookId).Some?
        invariant i > 0 ==> forall j :: 0 <= j < i ==> books[j] != books[PyIndex(|books|, bookId).value]
      {
        var target := PyIndex(|books|, bookId);
        if target.None? {
          return IndexOutOfRange;
        }
        if books[target.value] == books[i] {
          return Ok(books[i]);
        }
        i := i + 1;
      }
      return NotFound;
    }

    /** create_a_book: append the validated record and return it. */
    method CreateABook(newBook: Book) returns (r: Book)
      modifies this
      ensures books == old(books) + [newBook]
      ensures r == newBook && r == books[|books| - 1]
    {
      books := books + [newBook];
      r := newBook;
    }

    /** update_book: scan for the first record with a matching id and
        assign its fields one at a time. */
    method UpdateBook(bookId: int, update: BookUpdate) returns (r: Outcome<Book>)
      modifies this
      ensures (books, r) == UpdateSpec(old(books), bookId, update)
    {
      var i := 0;
      while i < |books|
        invariant 0 <= i <= |books|
        invariant books == old(books)
        invariant forall j :: 0 <= j < i ==> books[j].id != bookId
      {
        if books[i].id == bookId {
          FirstWithIdUnique(books, bookId, i);
          var book := books[i];
          book := book.(title := update.title);
          book := book.(author := update.author);
          // the publisher is compared with the request's, not assigned
          book := book.(pageCount := update.pageCount);
          book := book.(language := update.language);
          books := books[i := book];
          return Ok(book);
        }
        i := i + 1;
      }
      return NotFound;
    }

    /** delete_book: scan for the first record with a matching id and
        `books.remove` it. */
    method DeleteBook(bookId: int) returns (r: Outcome<()>)
      modifies this
      ensures (books, r) == DeleteSpec(old(books), bookId)
    {
      var i := 0;
      while i < |books|
        invariant 0 <= i <= |books|
        invariant books == old(books)
        invariant forall j :: 0 <= j < i ==> books[j].id != bookId
      {
        if books[i].id == bookId {
          FirstWithIdUnique(books, bookId, i);
          books := PyRemove(books, books[i]);
          return Ok(());
        }
        i := i + 1;
      }
      return NotFound;
    }
  }
}
