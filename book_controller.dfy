/**
 The book controller of the library application: the actions over the `Book`
 table, each returning the result the web pipeline renders. The table is the
 controller's `rows`; `present` says whether the context exposes the `Book`
 table at all (the actions test `_context.Book == null`).

 Validation of the bound form (`ModelState.IsValid`) and a concurrency conflict
 raised by the store while saving are inputs of the actions. An exception that
 the controller does not catch is the result `Unhandled`.
 */
module Controllers {
  import opened Books
  import opened BookTable
  import opened BookExport

  /** The field error Create attaches to `IdBook` when the key is taken. */
  const DuplicateIdMessage: string := "Mã sách đã tồn tại, vui lòng chọn mã sách khác"

  /** The problem detail DeleteConfirmed reports when the table is absent. */
  const MissingTableProblem: string := "Không tìm thấy nhân viên"

  /** What an action returns to the pipeline. */
  datatype ActionResult =
    | ViewList(books: seq<Book>)                      // the listing view over the table
    | ViewEmpty                                       // a view with no model
    | View(book: Book)                                // a view of one record (or of the submitted form)
    | FieldError(key: string, message: string, book: Book)  // the form again, with an error on field `key`
    | NotFound
    | RedirectToIndex
    | Problem(detail: string)
    | Sheet(cells: map<Address, Cell>)                // the export worksheet, before serialisation
    | Unhandled                                       // an exception escapes the action

  class BookController {
    /** `_context.Book != null` */
    var present: bool
    /** The `Book` table, in storage order. */
    var rows: seq<Book>

    /** The primary key `IdBook` is unique in the table. */
    ghost predicate Valid()
      reads this
    {
      UniqueIds(rows)
    }

    constructor (bookTable: bool, books: seq<Book>)
      requires UniqueIds(books)
      ensures Valid()
      ensures present == bookTable && rows == books
    {
      present := bookTable;
      rows := books;
    }

    /** The listing: every record, in storage order; a view without a model when the table is absent. */
    function Index(): (r: ActionResult)
      reads this
      ensures present ==> r.ViewList? && r.books == rows
      ensures !present ==> r == ViewEmpty
    {
      if present then ViewList(rows) else ViewEmpty
    }

    /** Whether some record has key `id` (`Any` over the table, which needs the table). */
    function BookExists(id: int): (r: bool)
      reads this
      requires present
      ensures r <==> exists b :: b in rows && b.idBook == id
    {
      FindIndex(rows, id) < |rows|
    }

    /**
     The lookup shared by Details, Delete (GET) and Edit (GET): key `0` is the
     "no id given" sentinel and, like an absent table or a key with no record,
     gives NotFound; otherwise the view of the first record with that key.
     */
    function Lookup(id: int): (r: ActionResult)
      reads this
      ensures r.NotFound? <==> id == 0 || !present || !HasId(rows, id)
      ensures !r.NotFound? ==> r.View? && r.book in rows && r.book.idBook == id
      ensures Valid() && r.View? ==> forall b :: b in rows && b.idBook == id ==> b == r.book
    {
      if id == 0 || !present then NotFound
      else match Find(rows, id)
        case None => NotFound
        case Some(b) => View(b)
    }

    /** The record details page. */
    function Details(id: int): (r: ActionResult)
      reads this
      ensures r.NotFound? <==> id == 0 || !present || !HasId(rows, id)
      ensures !r.NotFound? ==> r.View? && r.book in rows && r.book.idBook == id
      ensures Valid() && r.View? ==> forall b :: b in rows && b.idBook == id ==> b == r.book
    {
      Lookup(id)
    }

    /** The delete confirmation page (GET); it changes nothing. */
    function Delete(id: int): (r: ActionResult)
      reads this
      ensures r.NotFound? <==> id == 0 || !present || !HasId(rows, id)
      ensures !r.NotFound? ==> r.View? && r.book in rows && r.book.idBook == id
      ensures Valid() && r.View? ==> forall b :: b in rows && b.idBook == id ==> b == r.book
    {
      Lookup(id)
    }

    /** The edit form (GET), loaded with the stored record. */
    function Edit(id: int): (r: ActionResult)
      reads this
      ensures r.NotFound? <==> id == 0 || !present || !HasId(rows, id)
      ensures !r.NotFound? ==> r.View? && r.book in rows && r.book.idBook == id
      ensures Valid() && r.View? ==> forall b :: b in rows && b.idBook == id ==> b == r.book
    {
      Lookup(id)
    }

    /**
     Create (POST). The key check comes first: a taken key redisplays the form
     with an error on `IdBook`. Then an invalid form is redisplayed. Otherwise
     the book is inserted at the end of the table and the listing is shown.
     The key check reads the table, so an absent table throws.
     */
    method Create(book: Book, modelValid: bool) returns (r: ActionResult)
      requires Valid()
      modifies this
      ensures Valid() && present == old(present)
      ensures !present ==> r == Unhandled && rows == old(rows)
      ensures present && HasId(old(rows), book.idBook) ==>
        r == FieldError("IdBook", DuplicateIdMessage, book) && rows == old(rows)
      ensures present && !HasId(old(rows), book.idBook) && !modelValid ==>
        r == View(book) && rows == old(rows)
      ensures present && !HasId(old(rows), book.idBook) && modelValid ==>
        r == RedirectToIndex && rows == old(rows) + [book]
    {
      if !present {
        return Unhandled;
      }
      if BookExists(book.idBook) {
        return FieldError("IdBook", DuplicateIdMessage, book);
      }
      if modelValid {
        AppendFresh(rows, book);
        rows := rows + [book];
        return RedirectToIndex;
      }
      return View(book);
    }

    /**
     Delete (POST): remove the record with key `id` if there is one, save, and
     show the listing; a missing key is not an error. An absent table is a
     Problem.
     */
    method DeleteConfirmed(id: int) returns (r: ActionResult)
      requires Valid()
      modifies this
      ensures Valid() && present == old(present)
      ensures !present ==> r == Problem(MissingTableProblem) && rows == old(rows)
      ensures present ==> r == RedirectToIndex && rows == Removed(old(rows), id)
    {
      if !present {
        return Problem(MissingTableProblem);
      }
      RemovedSpec(rows, id);
      rows := Removed(rows, id);
      return RedirectToIndex;
    }

    /**
     Edit (POST). A route id that differs from the submitted key is NotFound;
     an invalid form is redisplayed. Otherwise the stored record with that key
     is overwritten and the listing is shown. Saving raises a concurrency
     conflict when no record has the key (the update affects no row) or when
     `conflict` says another writer interfered; the controller swallows it,
     leaves the table as it was and still shows the listing.
     */
    method EditPost(id: int, book: Book, modelValid: bool, conflict: bool) returns (r: ActionResult)
      requires Valid()
      modifies this
      ensures Valid() && present == old(present)
      ensures id != book.idBook ==> r == NotFound && rows == old(rows)
      ensures id == book.idBook && !modelValid ==> r == View(book) && rows == old(rows)
      ensures id == book.idBook && modelValid ==> r == RedirectToIndex
      ensures id == book.idBook && modelValid && !conflict ==> rows == Replaced(old(rows), book)
      ensures id == book.idBook && modelValid && (conflict || !HasId(old(rows), id)) ==> rows == old(rows)
    {
      if id != book.idBook {
        return NotFound;
      }
      if modelValid {
        ReplacedSpec(rows, book);
        var updated := FindIndex(rows, book.idBook) < |rows|;
        if updated && !conflict {
          rows := Replaced(rows, book);
        }
        return RedirectToIndex;
      }
      return View(book);
    }

    /**
     The export: the header row, then one row per record in listing order from
     row 2 on, columns `A` to `E`. Reading the table throws when it is absent.
     */
    method ExportBooksToExcel() returns (r: ActionResult)
      ensures !present ==> r == Unhandled
      ensures present ==> r.Sheet? && SheetHolds(r.cells, ExportGrid(rows))
    {
      if !present {
        return Unhandled;
      }
      var result := rows;
      var sheet := PutRow(map[], 1, HeaderRow());
      var row := 2;
      var k := 0;
      while k < |result|
        invariant 0 <= k <= |result|
        invariant row == 2 + k
        invariant SheetPrefix(sheet, result, k)
      {
        var book := result[k];
        BookWritten(sheet, result, k);
        sheet := PutRow(sheet, row, BookRow(book));
        row := row + 1;
        k := k + 1;
      }
      SheetOfBooks(sheet, result);
      return Sheet(sheet);
    }
  }
}
