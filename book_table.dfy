/** The book table of the service: the record types, Python's list
    semantics that the handlers rely on, and the effect of each handler on
    the table written as functions on values, with the properties the
    handlers promise proved about them. */
module BookTable {

  /** One book record, the dict the handlers read and write. */
  datatype Book = Book(
    id: int,
    title: string,
    author: string,
    publisher: string,
    publishDate: string,
    pageCount: int,
    language: string)

  /** An already-validated body of a PATCH request. */
  datatype BookUpdate = BookUpdate(
    title: string,
    author: string,
    publisher: string,
    pageCount: int,
    language: string)

  /** What a handler hands back: the value, the 404 raised by the handler,
      or the IndexError that Python raises for an out-of-range subscript. */
  datatype Outcome<T> = Ok(value: T) | NotFound | IndexOutOfRange

  datatype Option<T> = None | Some(value: T)

  // ---------------------------------------------------------------------
  // Python list semantics

  /** The position that the Python subscript `xs[i]` reads in a list of
      length `n`, or None when the subscript raises IndexError. */
  function PyIndex(n: nat, i: int): (r: Option<nat>)
    ensures r.Some? <==> -(n as int) <= i < n
    ensures r.Some? ==> r.value < n && (r.value - i) % n == 0
  {
    if 0 <= i < n then var k: nat := i; Some(k)
    else if -(n as int) <= i < 0 then var k: nat := i + n; Some(k)
    else None
  }

  /** Python's `xs.remove(x)`: drop the first element equal to `x`. */
  function PyRemove(s: seq<Book>, x: Book): (r: seq<Book>)
    requires x in s
    ensures |r| == |s| - 1
    ensures multiset(r) == multiset(s) - multiset{x}
  {
    assert s == [s[0]] + s[1..];
    if s[0] == x then s[1..]
    else [s[0]] + PyRemove(s[1..], x)
  }

  /** `s` with the element at position `k` taken out, the rest in order. */
  function RemoveAt(s: seq<Book>, k: nat): (r: seq<Book>)
    requires k < |s|
  {
    s[..k] + s[k + 1..]
  }

  /** Taking out position k > 0 keeps the head in front. */
  lemma ConsRemoveAt(s: seq<Book>, k: nat)
    requires 0 < k < |s|
    ensures RemoveAt(s, k) == [s[0]] + RemoveAt(s[1..], k - 1)
  {
    assert s[1..][..k - 1] == s[1..k];
    assert s[1..][k..] == s[k + 1..];
    assert s[..k] == [s[0]] + s[1..k];
  }

  /** The position of the first occurrence of `x` in `s`. */
  ghost function FirstOccurrence(s: seq<Book>, x: Book): (k: nat)
    requires x in s
    ensures k < |s| && s[k] == x && x !in s[..k]
  {
    if s[0] == x then 0
    else
      assert s == [s[0]] + s[1..];
      var k := FirstOccurrence(s[1..], x) + 1;
      assert s[..k] == [s[0]] + s[1..][..k - 1];
      k
  }

  /** `list.remove` takes out the first occurrence of `x` and keeps every
      other element in its order. */
  lemma {:induction false} PyRemoveFirst(s: seq<Book>, x: Book)
    requires x in s
    ensures PyRemove(s, x) == RemoveAt(s, FirstOccurrence(s, x))
  {
    if s[0] == x {
      assert s[..0] == [];
    } else {
      var t := s[1..];
      assert x in t by { assert s == [s[0]] + t; }
      PyRemoveFirst(t, x);
      ConsRemoveAt(s, FirstOccurrence(s, x));
    }
  }

  // ---------------------------------------------------------------------
  // Lookup by id

  ghost predicate HasId(s: seq<Book>, id: int) {
    exists j :: 0 <= j < |s| && s[j].id == id
  }

  /** `k` is the position of the first record whose id is `id`. */
  ghost predicate IsFirstWithId(s: seq<Book>, id: int, k: nat) {
    k < |s| && s[k].id == id && forall j :: 0 <= j < k ==> s[j].id != id
  }

  /** The first position a `for book in books: if book['id'] == id` scan stops at. */
  function FirstWithId(s: seq<Book>, id: int): (r: Option<nat>)
    ensures r.None? <==> !HasId(s, id)
    ensures r.Some? ==> IsFirstWithId(s, id, r.value)
  {
    if |s| == 0 then None
    else if s[0].id == id then Some(0)
    else
      match FirstWithId(s[1..], id)
      case None => None
      case Some(k) => Some(k + 1)
  }

  /** There is only one first position. */
  lemma FirstWithIdUnique(s: seq<Book>, id: int, k: nat)
    requires IsFirstWithId(s, id, k)
    ensures FirstWithId(s, id) == Some(k)
  {
  }

  // ---------------------------------------------------------------------
  // get_book

  /** get_book as written: the loop subscripts `books[book_id]` positionally
      on each iteration and returns the first element equal to it. */
  function GetByPosition(s: seq<Book>, bookId: int): (r: Outcome<Book>)
    ensures r == NotFound <==> |s| == 0
    ensures r == IndexOutOfRange <==> |s| > 0 && !(-|s| <= bookId < |s|)
    ensures r.Ok? ==> PyIndex(|s|, bookId).Some? && r.value == s[PyIndex(|s|, bookId).value]
  {
    if |s| == 0 then NotFound
    else
      match PyIndex(|s|, bookId)
      case None => IndexOutOfRange
      case Some(k) => Ok(s[k])
  }

  /** get_book as evidently intended: the first record whose id is `bookId`. */
  function GetById(s: seq<Book>, bookId: int): (r: Outcome<Book>)
    ensures r.Ok? <==> HasId(s, bookId)
    ensures r.Ok? ==> exists k: nat :: IsFirstWithId(s, bookId, k) && r.value == s[k]
    ensures !r.Ok? ==> r == NotFound
  {
    match FirstWithId(s, bookId)
    case None => NotFound
    case Some(k) => Ok(s[k])
  }

  /** Counterexample for the positional lookup: with records whose ids are 1
      and 2, asking for book 1 returns the record whose id is 2. */
  lemma GetByPositionIgnoresId()
    ensures var b1 := Book(1, "T1", "A1", "P1", "D1", 10, "L1");
            var b2 := Book(2, "T2", "A2", "P2", "D2", 20, "L2");
            GetByPosition([b1, b2], 1) == Ok(b2) && b2.id != 1 &&
            GetById([b1, b2], 1) == Ok(b1)
  {
    var b1 := Book(1, "T1", "A1", "P1", "D1", 10, "L1");
    var b2 := Book(2, "T2", "A2", "P2", "D2", 20, "L2");
    assert IsFirstWithId([b1, b2], 1, 0);
    FirstWithIdUnique([b1, b2], 1, 0);
  }

  // ---------------------------------------------------------------------
  // create_a_book

  /** A created book can be found by its id, provided no earlier record has
      that id. */
  lemma {:induction false} CreateThenGetById(s: seq<Book>, b: Book)
    requires !HasId(s, b.id)
    ensures GetById(s + [b], b.id) == Ok(b)
  {
    var t := s + [b];
    assert t[|s|] == b;
    assert forall j :: 0 <= j < |s| ==> t[j] == s[j];
    assert IsFirstWithId(t, b.id, |s|);
    FirstWithIdUnique(t, b.id, |s|);
  }

  /** Appending leaves the lookup of any other id as it was, and of the
      new book's id too when an earlier record already has it. */
  lemma {:induction false} CreateKeepsOtherLookups(s: seq<Book>, b: Book, id: int)
    requires id != b.id || HasId(s, id)
    ensures GetById(s + [b], id) == GetById(s, id)
  {
    var t := s + [b];
    assert forall j :: 0 <= j < |s| ==> t[j] == s[j];
    match FirstWithId(s, id)
    case None =>
      assert forall j :: 0 <= j < |t| ==> t[j].id != id by {
        assert forall j :: 0 <= j < |s| ==> s[j].id != id;
        assert t[|s|] == b;
      }
    case Some(k) =>
      assert IsFirstWithId(t, id, k);
      FirstWithIdUnique(t, id, k);
  }

  // ---------------------------------------------------------------------
  // update_book

  /** The fields update_book writes, as written: line 83 compares the
      publisher instead of assigning it, so the publisher stays. */
  function ApplyUpdate(b: Book, u: BookUpdate): (r: Book)
  {
    b.(title := u.title, author := u.author, pageCount := u.pageCount, language := u.language)
  }

  /** The fields update_book evidently means to write, publisher included. */
  function ApplyUpdateIntended(b: Book, u: BookUpdate): (r: Book)
  {
    b.(title := u.title, author := u.author, publisher := u.publisher,
       pageCount := u.pageCount, language := u.language)
  }

  /** As written, a PATCH that supplies a new publisher does not store it,
      and apart from that field the record is the intended one. */
  lemma PublisherNotUpdated(b: Book, u: BookUpdate)
    requires u.publisher != b.publisher
    ensures ApplyUpdate(b, u).publisher == b.publisher != u.publisher
    ensures ApplyUpdate(b, u) != ApplyUpdateIntended(b, u)
    ensures ApplyUpdate(b, u) == ApplyUpdateIntended(b, u).(publisher := b.publisher)
  {
  }

  /** The intended update stores every field of the request and keeps the
      record's identity and publish date; applying it twice is applying it once. */
  lemma UpdateIntendedStoresRequest(b: Book, u: BookUpdate)
    ensures var r := ApplyUpdateIntended(b, u);
            r.id == b.id && r.publishDate == b.publishDate &&
            BookUpdate(r.title, r.author, r.publisher, r.pageCount, r.language) == u &&
            ApplyUpdateIntended(r, u) == r
  {
  }

  /** The table and the response after update_book(bookId, u). */
  function UpdateSpec(s: seq<Book>, bookId: int, u: BookUpdate): (r: (seq<Book>, Outcome<Book>))
    ensures |r.0| == |s|
    ensures !HasId(s, bookId) ==> r.0 == s && r.1 == NotFound
    ensures forall k: nat :: IsFirstWithId(s, bookId, k) ==>
              && r.1 == Ok(r.0[k])
              && r.0[k].id == s[k].id
              && r.0[k].publisher == s[k].publisher
              && r.0[k].publishDate == s[k].publishDate
              && r.0[k].title == u.title
              && r.0[k].author == u.author
              && r.0[k].pageCount == u.pageCount
              && r.0[k].language == u.language
              && (forall j :: 0 <= j < |s| && j != k ==> r.0[j] == s[j])
  {
    match FirstWithId(s, bookId)
    case None => (s, NotFound)
    case Some(k) =>
      var nb := ApplyUpdate(s[k], u);
      (s[k := nb], Ok(nb))
  }

  // ---------------------------------------------------------------------
  // delete_book

  /** `books.remove(book)` with `book` the record the id scan stopped at
      removes that very position: an earlier equal record would have had
      the same id and stopped the scan first. */
  lemma {:induction false} RemoveFirstWithId(s: seq<Book>, id: int, k: nat)
    requires IsFirstWithId(s, id, k)
    ensures s[k] in s
    ensures PyRemove(s, s[k]) == RemoveAt(s, k)
  {
    if k > 0 {
      var t := s[1..];
      assert s[0] != s[k] by { assert s[0].id != id; }
      assert t[k - 1] == s[k];
      assert IsFirstWithId(t, id, k - 1);
      RemoveFirstWithId(t, id, k - 1);
      assert PyRemove(s, s[k]) == [s[0]] + PyRemove(t, s[k]);
      ConsRemoveAt(s, k);
    }
  }

  /** The table and the response after delete_book(bookId). */
  function DeleteSpec(s: seq<Book>, bookId: int): (r: (seq<Book>, Outcome<()>))
    ensures !HasId(s, bookId) ==> r.0 == s && r.1 == NotFound
    ensures HasId(s, bookId) ==> |r.0| == |s| - 1 && r.1 == Ok(())
    ensures forall k: nat :: IsFirstWithId(s, bookId, k) ==> r.0 == RemoveAt(s, k)
  {
    match FirstWithId(s, bookId)
    case None => (s, NotFound)
    case Some(k) =>
      RemoveFirstWithId(s, bookId, k);
      FirstWithIdUnique(s, bookId, k);
      (PyRemove(s, s[k]), Ok(()))
  }

  // ---------------------------------------------------------------------
  // Identity of records across operations

  /** No two records share an id; the source intends but never enforces it. */
  ghost predicate UniqueIds(s: seq<Book>) {
    forall i, j :: 0 <= i < j < |s| ==> s[i].id != s[j].id
  }

  /** create_a_book keeps ids unique exactly when the new id is fresh. */
  lemma CreateUniqueIds(s: seq<Book>, b: Book)
    requires UniqueIds(s)
    ensures UniqueIds(s + [b]) <==> !HasId(s, b.id)
  {
    var t := s + [b];
    if !HasId(s, b.id) {
      forall i, j | 0 <= i < j < |t| ensures t[i].id != t[j].id {
        if j == |s| { assert t[i] == s[i]; }
      }
    } else {
      var j :| 0 <= j < |s| && s[j].id == b.id;
      assert t[j].id == t[|s|].id;
    }
  }

  /** update_book never changes an id, so it keeps ids unique. */
  lemma UpdateUniqueIds(s: seq<Book>, bookId: int, u: BookUpdate)
    requires UniqueIds(s)
    ensures UniqueIds(UpdateSpec(s, bookId, u).0)
  {
  }

  /** Position j of `RemoveAt(s, k)` holds what position j or j + 1 of `s` held. */
  lemma RemoveAtIndex(s: seq<Book>, k: nat, j: nat)
    requires k < |s| && j < |s| - 1
    ensures RemoveAt(s, k)[j] == s[if j < k then j else j + 1]
  {
  }

  /** Taking a record out of a table with unique ids keeps them unique. */
  lemma RemoveAtUniqueIds(s: seq<Book>, k: nat)
    requires k < |s| && UniqueIds(s)
    ensures UniqueIds(RemoveAt(s, k))
  {
    var t := RemoveAt(s, k);
    forall i, j | 0 <= i < j < |t| ensures t[i].id != t[j].id {
      RemoveAtIndex(s, k, i);
      RemoveAtIndex(s, k, j);
    }
  }

  /** With unique ids, a deleted book can no longer be found, and the table
      keeps unique ids. */
  lemma DeleteThenNotFound(s: seq<Book>, bookId: int)
    requires UniqueIds(s)
    ensures GetById(DeleteSpec(s, bookId).0, bookId) == NotFound
    ensures UniqueIds(DeleteSpec(s, bookId).0)
  {
    match FirstWithId(s, bookId)
    case None =>
    case Some(k) =>
      var t := DeleteSpec(s, bookId).0;
      assert t == RemoveAt(s, k);
      RemoveAtUniqueIds(s, k);
      forall j | 0 <= j < |t| ensures t[j].id != bookId {
        RemoveAtIndex(s, k, j);
      }
  }
}
