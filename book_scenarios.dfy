/**
 Sequences of controller actions, and what a client can conclude about them
 from the actions' contracts alone.
 */
module BookScenarios {
  import opened Books
  import opened BookTable
  import opened Controllers

  /** A created book is listed last and shown, unchanged, by its details page. */
  method CreateThenDetails(c: BookController, book: Book) returns (r: ActionResult)
    requires c.Valid() && c.present
    requires !HasId(c.rows, book.idBook) && book.idBook != 0
    modifies c
    ensures r == RedirectToIndex
    ensures c.Index() == ViewList(old(c.rows) + [book])
    ensures c.Details(book.idBook) == View(book)
  {
    r := c.Create(book, true);
    FindStored(c.rows, book);
  }

  /** A second create with the same key is refused and changes nothing. */
  method CreateTwice(c: BookController, book: Book) returns (r1: ActionResult, r2: ActionResult)
    requires c.Valid() && c.present
    requires !HasId(c.rows, book.idBook)
    modifies c
    ensures r1 == RedirectToIndex
    ensures r2 == FieldError("IdBook", DuplicateIdMessage, book)
    ensures c.rows == old(c.rows) + [book]
  {
    r1 := c.Create(book, true);
    assert book in c.rows;
    r2 := c.Create(book, true);
  }

  /** A second delete of the same key is a no-op, and the key is then not found. */
  method DeleteTwice(c: BookController, id: int) returns (r1: ActionResult, r2: ActionResult)
    requires c.Valid() && c.present
    modifies c
    ensures r1 == RedirectToIndex && r2 == RedirectToIndex
    ensures c.rows == Removed(old(c.rows), id)
    ensures c.Details(id) == NotFound
  {
    r1 := c.DeleteConfirmed(id);
    ghost var once := c.rows;
    r2 := c.DeleteConfirmed(id);
    RemoveIdempotent(old(c.rows), id);
    RemovedSpec(old(c.rows), id);
    assert c.rows == once;
  }

  /** After a successful edit the details page shows the submitted record. */
  method EditThenDetails(c: BookController, book: Book) returns (r: ActionResult)
    requires c.Valid() && c.present
    requires HasId(c.rows, book.idBook) && book.idBook != 0
    modifies c
    ensures r == RedirectToIndex
    ensures c.Details(book.idBook) == View(book)
  {
    r := c.EditPost(book.idBook, book, true, false);
    ReplacedSpec(old(c.rows), book);
    FindStored(c.rows, book);
  }

  /**
   A book with key `0` can be created, but the details, delete and edit pages
   never show it, since they read `0` as "no id given".
   */
  method ZeroKeyIsHidden(c: BookController, book: Book) returns (r: ActionResult)
    requires c.Valid() && c.present
    requires !HasId(c.rows, 0) && book.idBook == 0
    modifies c
    ensures r == RedirectToIndex && book in c.rows
    ensures c.Details(0) == NotFound && c.Delete(0) == NotFound && c.Edit(0) == NotFound
  {
    r := c.Create(book, true);
  }
}
