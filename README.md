# Bookly book table

A model of the book service in `bookly.py`: a process-global list `books`
of book records and the five request handlers that read and change it in
place — list all books, get a book, create a book, update a book, delete
a book.

- `book_table.dfy`, module `BookTable`: the `Book` record and the
  validated PATCH body `BookUpdate`; the handler outcome `Outcome` (`Ok`,
  `NotFound` for the handler's own 404, `IndexOutOfRange` for the
  `IndexError` that Python raises on a bad subscript); Python's list
  subscript (`PyIndex`, negative indices counted from the end) and
  `list.remove` (`PyRemove`, drops the first equal element); the effect of
  each handler on the table as functions on values (`GetByPosition`,
  `UpdateSpec`, `DeleteSpec`) and the lemmas about them.
- `bookly.dfy`, module `Bookly`: class `BookStore` whose field `books` is
  the global list, with one method per handler. `GetAllBooks` and
  `CreateABook` state the returned list and the new list outright. `GetBook`,
  `UpdateBook` and `DeleteBook` run the handler's `for book in books` scan as
  a `while` loop with early return. They are proved against `GetByPosition`,
  `UpdateSpec` and `DeleteSpec` of `BookTable`.

Behaviour kept as the code has it:
- `get_book` subscripts the list with the requested id as a *position* on
  every iteration. On a non-empty list an out-of-range id therefore raises
  `IndexError` on the first iteration (`IndexOutOfRange`), an in-range id
  (negative ones counted from the end) returns the element at that position,
  and the 404 is reached only when the list is empty: for a bad id on a
  non-empty list the subscript raises `IndexError` before the handler's
  own 404 is reached.
- `update_book` assigns title, author, page count and language, but line 83
  compares the publisher instead of assigning it, so the publisher and the
  id stay as they were.
- `delete_book` calls `books.remove(book)`, which removes the first element
  *equal* to the matched record; `RemoveFirstWithId` proves that this is the
  position the id scan found.

Ids are never checked for uniqueness by the source. The model allows
duplicates. `UniqueIds` states the intended invariant, and lemmas say which
operations keep it.

## Model

| member | source | states |
|---|---|---|
| `BookTable.PyIndex` | bookly.py:25 | the subscript `books[book_id]` succeeds exactly when `-n <= book_id < n`, and then reads the one position below `n` congruent to `book_id` modulo `n` |
| `BookTable.PyRemove` | bookly.py:95 | `list.remove` of a present element shortens the list by one and takes out exactly one copy of that element |
| `BookTable.FirstOccurrence` | bookly.py:95 | the position `list.remove` searches for: an occurrence of the element with none before it |
| `BookTable.PyRemoveFirst` | bookly.py:95 | `list.remove` takes out exactly the first occurrence of the element and keeps every other element in order |
| `BookTable.FirstWithId` | bookly.py:79-80 | the `book['id'] == book_id` scan finds nothing exactly when no record has that id, and otherwise stops at the first record that has it |
| `BookTable.GetByPosition` | bookly.py:22-30 | get_book gives not found exactly when the list is empty, `IndexError` exactly when the list is non-empty and the id is out of range, and otherwise the element at the Python-normalised position |
| `BookTable.GetById` | bookly.py:22-30 | the intended lookup succeeds exactly when some record has the id, and returns the first such record; otherwise not found |
| `BookTable.GetByPositionIgnoresId` | bookly.py:25 | on records with ids 1 and 2, get_book(1) returns the record with id 2, whereas the lookup by id returns the one with id 1 |
| `BookTable.CreateThenGetById` | bookly.py:44-48 | after appending a book whose id is not yet present, looking up that id returns the appended book |
| `BookTable.CreateKeepsOtherLookups` | bookly.py:44-48 | appending a book does not change the lookup of any other id, nor of its own id when an earlier record already has it |
| `BookTable.CreateUniqueIds` | bookly.py:44-48 | on a table with unique ids, appending keeps ids unique exactly when the new id is absent |
| `BookTable.PublisherNotUpdated` | bookly.py:83 | when the request's publisher differs from the stored one, the update as written keeps the stored publisher and differs from the intended update only in that field |
| `BookTable.UpdateIntendedStoresRequest` | bookly.py:81-85 | the intended update stores all five requested fields, keeps the id and publish date, and is idempotent |
| `BookTable.UpdateSpec` | bookly.py:77-87 | update_book keeps the length; with no matching id it returns not found and leaves the table as it was; otherwise only the first matching record changes, getting the requested title, author, page count and language while keeping its id, publisher and publish date, and that record is returned |
| `BookTable.UpdateUniqueIds` | bookly.py:77-86 | update_book keeps ids unique |
| `BookTable.RemoveFirstWithId` | bookly.py:93-95 | `books.remove(book)` on the first record with the id removes exactly that position and keeps the others in order |
| `BookTable.DeleteSpec` | bookly.py:91-97 | delete_book with no matching id returns not found and leaves the table as it was; otherwise it returns the empty result, the length drops by one, and exactly the first matching record is removed with the rest in their order |
| `BookTable.DeleteThenNotFound` | bookly.py:91-97 | on a table with unique ids, the deleted id can no longer be found and ids stay unique |
| `Bookly.BookStore.constructor` | bookly.py:6 | the store starts with the seed records |
| `Bookly.BookStore.GetAllBooks` | bookly.py:17-19 | get_all_books returns the list exactly as held and changes nothing |
| `Bookly.BookStore.GetBook` | bookly.py:22-30 | the scan returns what `GetByPosition` describes, the result is an element of the list, and nothing changes |
| `Bookly.BookStore.CreateABook` | bookly.py:44-48 | create_a_book appends the record at the end, leaves every earlier record as it was, and returns the appended record |
| `Bookly.BookStore.UpdateBook` | bookly.py:77-87 | the new list and the response are those of `UpdateSpec` on the old list |
| `Bookly.BookStore.DeleteBook` | bookly.py:91-97 | the new list and the response are those of `DeleteSpec` on the old list |

## Findings

| source | as written | input that shows it | evidently intended | confidence | as-written member | corrected member |
|---|---|---|---|---|---|---|
| bookly.py:83 | `book['publisher'] == book_update_data.publisher` compares and discards the result | any PATCH whose publisher differs from the stored one | assign the publisher like the other four fields | high; not executed | `BookTable.PublisherNotUpdated` | `BookTable.UpdateIntendedStoresRequest` |
| bookly.py:25 | `books[book_id]` treats the id as a list position | records with ids 1 and 2, `GET /book/1` | return the first record whose `id` equals `book_id` | high; not executed | `BookTable.GetByPositionIgnoresId` | `BookTable.GetById` |

The store class keeps the as-written behaviour of both handlers, because it
models the program as it runs. The corrected definitions are
`ApplyUpdateIntended` and `GetById`. The lemmas about create and delete
(`CreateThenGetById`, `CreateKeepsOtherLookups`, `DeleteThenNotFound`) state
their properties through `GetById`.

## Left out

- FastAPI routing, `response_model` filtering, status codes and
  `HTTPException`: a 404 is the `NotFound` outcome, an uncaught `IndexError`
  is `IndexOutOfRange`.
- `async`: the handlers never await, so they are sequential methods.
- Pydantic validation and `model_dump()`: the handlers take an
  already-validated `Book` or `BookUpdate`. The schema module
  (`src/books/schema`) is not part of this model, so every field of
  `BookUpdate` is taken as present.
- The seed data (`src/books/book_data`) is not part of this model; the store
  starts from an arbitrary list of records.
- Object identity: `get_book`, `create_a_book` and `update_book` return the
  same dict object that sits in the list, and `get_all_books` returns the
  list object itself, so a later change to the table shows in a value
  already handed out. The model returns record and list values.
- Concurrency: the global list is unlocked; the model has one owner calling
  the handlers one at a time.
- `main.py` (echo endpoints with no state) and `src/books/__init__.py`
  (application set-up and router mounting) hold no table logic.
