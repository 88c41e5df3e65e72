# Book controller of the PTPMQLTV library application, in Dafny

The application manages a catalogue of books. A single MVC controller,
`BookController`, lists the `Book` table, creates records, shows one record,
deletes records in two steps (confirmation page, then confirmed delete), edits
records in two steps (form, then submit), and exports the table to a
spreadsheet. This project models that controller as a small state machine
over an in-memory table, and proves what each action does to the table and
what it returns.

- `book.dfy`, module `Books`: the `Book` record with exactly the five bound
  fields (`IdBook`, `NameBook`, `Number`, `NhaXuatBan`, `Year`), and `Option`.
- `book_table.dfy`, module `BookTable`: the table as a `seq<Book>` in storage
  order; the primary-key invariant `UniqueIds` (no two records share an
  `IdBook`); lookup by key (`FindIndex`, `Find`); the table after removing
  (`Removed`) and after overwriting (`Replaced`) the record with a key; lemmas
  proving that these operations keep the key invariant, touch only the record
  with that key and keep the order of the others, and that deleting twice
  equals deleting once.
- `book_export.dfy`, module `BookExport`: the worksheet as a map from cell
  addresses (column letter, row number) to cells; the reference layout
  `ExportGrid` (the five fixed headers, then one row per book); the step lemmas
  for the export loop.
- `book_controller.dfy`, module `Controllers`: the result of an action
  (`ActionResult`) and the class `BookController`, whose fields are the table
  `rows` and the flag `present` (`_context.Book != null`). Read-only actions are
  functions; `Create`, `DeleteConfirmed` and `EditPost` are methods that update
  `rows`; `ExportBooksToExcel` is a method whose loop writes one worksheet row
  per book, with the invariant `row == 2 + k`.
- `book_scenarios.dfy`, module `BookScenarios`: sequences of actions (create
  then view, create twice, delete twice, edit then view, the `0` key) proved
  from the actions' contracts alone.

Modelling choices:

- `IdBook` is an `int`, as the controller uses it (`BookExists(int id)`, and
  comparisons with `int id` route parameters). The migration declares the
  column as text; the model follows the code.
- `ModelState.IsValid` is the parameter `modelValid`.
- `present == false` stands for a null `_context.Book`. Details, Delete (GET)
  and Edit (GET) then return NotFound, Index returns a view without a model,
  and DeleteConfirmed returns a Problem. Create and the export do not test for
  null. They call `Any` and `ToListAsync` on the table, which throw, so they
  return `Unhandled`. Edit (POST) goes through `_context.Update`, which does not
  use the table property, so it ignores `present`.
- Edit (POST) saving an update for a key with no stored record affects no row.
  The store then reports a concurrency conflict. This holds for every key,
  including `0`, because the model takes `IdBook` as a key the application
  assigns and the store never generates (see "Left out"). A conflict can also come
  from another writer, which the parameter `conflict` stands for. The
  controller catches and ignores the conflict in both cases: the table stays as
  it was and the result is still the redirect to the listing.
- `FirstOrDefault` returns the first record with the key in storage order; the
  model's `Find` does the same. `FindAsync` looks the record up by primary key.
  Under the key invariant `UniqueIds`, that is the one record `Find` returns
  (`FindStored`).
- Delete (GET), Details and Edit (GET) are functions, so by construction they
  change nothing. All three share the guard `Lookup`.

## Model

| member | source | states |
|---|---|---|
| `BookTable.FindIndex` | PTPMQLTV/MVC/Controllers/BookController.cs:79-80 | the position of the first record whose key is `id`: no earlier record has that key, and the position is past the end exactly when no record has it |
| `BookTable.Find` | PTPMQLTV/MVC/Controllers/BookController.cs:79-80 | `FirstOrDefault` by key: a record is returned exactly when some record has the key, and it is a stored record with that key |
| `BookTable.Removed` | PTPMQLTV/MVC/Controllers/BookController.cs:125-128 | the table after `FindAsync` and `Remove`: unchanged when no record has the key; otherwise one record with that key is taken out and the others keep their order (see also `RemovedSpec`) |
| `BookTable.Replaced` | PTPMQLTV/MVC/Controllers/BookController.cs:165 | the table after `Update(book)`: same length; each record either stays or, if it has the submitted key, becomes the submitted book; the book is stored when its key was; unchanged when no record has the key (see also `ReplacedSpec`) |
| `BookTable.FindStored` | PTPMQLTV/MVC/Migrations/20231127163156_Create_table_Book.cs:26 | with `IdBook` as primary key, looking up a stored record's key returns that very record |
| `BookTable.AppendFresh` | PTPMQLTV/MVC/Controllers/BookController.cs:48-56 | inserting a book whose key is not taken keeps keys unique, makes the book findable by its key and leaves lookups of every other key unchanged |
| `BookTable.RemovedSpec` | PTPMQLTV/MVC/Controllers/BookController.cs:125-131 | removing by key keeps keys unique and leaves no record with that key; the remaining records are exactly the other records, in their order, with one record taken out when the key existed; nothing changes when it did not |
| `BookTable.RemoveIdempotent` | PTPMQLTV/MVC/Controllers/BookController.cs:119-132 | deleting a key twice leaves the same table as deleting it once |
| `BookTable.ReplacedSpec` | PTPMQLTV/MVC/Controllers/BookController.cs:165-166 | an update by key keeps length and order, replaces exactly the records with the submitted key by the submitted book, keeps keys unique, and changes nothing when the key is absent |
| `BookExport.BookRows` | PTPMQLTV/MVC/Controllers/BookController.cs:197-206 | one row per book |
| `BookExport.ExportGrid` | PTPMQLTV/MVC/Controllers/BookController.cs:189-206 | the reference layout: one row more than there are books, the header row first, then the row of book `k` at position `k + 1`, five cells in every row (see also `ExportGridLayout`) |
| `BookExport.BookRowsAt` | PTPMQLTV/MVC/Controllers/BookController.cs:196-206 | there is one book row per book, and row `k` holds the cells of the `k`-th book |
| `BookExport.ExportGridLayout` | PTPMQLTV/MVC/Controllers/BookController.cs:189-206 | the grid has one row more than there are books; the first is exactly `Mã Sách, Tên Sách, Số Lượng, Nhà Xuất Bản, Năm Xuất Bản`; the row after it for book `k` is `(IdBook, NameBook, Number, NhaXuatBan, Year)` of that book; every row has five cells |
| `BookExport.PutRow` | PTPMQLTV/MVC/Controllers/BookController.cs:199-203 | writing a row sets columns `A` to `E` of that row to the given values, adds exactly those addresses and leaves every cell of other rows unchanged |
| `BookExport.BookWritten` | PTPMQLTV/MVC/Controllers/BookController.cs:197-205 | writing book `k` into row `k + 2` of a sheet that holds the header and the first `k` books gives a sheet that holds the header and the first `k + 1` books |
| `BookExport.SheetOfBooks` | PTPMQLTV/MVC/Controllers/BookController.cs:189-206 | a sheet holding the header and every book, row by row, holds exactly the export grid: every address in it is in columns `A` to `E` and rows 1 to one more than the number of books, and each holds the grid's cell |
| `Controllers.BookController.constructor` | PTPMQLTV/MVC/Controllers/BookController.cs:18-21 | the controller starts over the injected table, whose keys are unique |
| `Controllers.BookController.Index` | PTPMQLTV/MVC/Controllers/BookController.cs:27-32 | the listing holds every record in storage order; without a table, a view without a model |
| `Controllers.BookController.BookExists` | PTPMQLTV/MVC/Controllers/BookController.cs:62-66 | true exactly when some stored record has the key |
| `Controllers.BookController.Lookup` | PTPMQLTV/MVC/Controllers/BookController.cs:74-86 | NotFound exactly when the id is `0`, the table is absent or no record has the id; otherwise the view of a stored record with that id, which under the key invariant is the only record with that id |
| `Controllers.BookController.Details` | PTPMQLTV/MVC/Controllers/BookController.cs:72-87 | NotFound exactly when the id is `0`, the table is absent or no record has the id; otherwise the view of a stored record with that id, which under the key invariant is the only record with that id |
| `Controllers.BookController.Delete` | PTPMQLTV/MVC/Controllers/BookController.cs:94-110 | the delete confirmation page: NotFound exactly when the id is `0`, the table is absent or no record has the id; otherwise the view of a stored record with that id, which under the key invariant is the only record with that id |
| `Controllers.BookController.Edit` | PTPMQLTV/MVC/Controllers/BookController.cs:135-150 | the edit form: NotFound exactly when the id is `0`, the table is absent or no record has the id; otherwise the view of a stored record with that id, which under the key invariant is the only record with that id |
| `Controllers.BookController.Create` | PTPMQLTV/MVC/Controllers/BookController.cs:43-60 | a taken key gives the form with the duplicate-key error on `IdBook`, checked before validation; an invalid form gives the form back; otherwise the book is appended and the result is the redirect to the listing. The table is unchanged in every failure case and keys stay unique |
| `Controllers.BookController.DeleteConfirmed` | PTPMQLTV/MVC/Controllers/BookController.cs:117-133 | without a table, the Problem "Không tìm thấy nhân viên" and no change; otherwise the table loses the record with the id (if any) and the result is always the redirect to the listing |
| `Controllers.BookController.EditPost` | PTPMQLTV/MVC/Controllers/BookController.cs:152-175 | a route id different from the record's key gives NotFound and no change; an invalid form gives the form back with no change; otherwise the result is the redirect to the listing, the record with that key is replaced when there is no conflict, and a conflict or a missing key leaves the table unchanged |
| `Controllers.BookController.ExportBooksToExcel` | PTPMQLTV/MVC/Controllers/BookController.cs:177-206 | the worksheet holds exactly the export grid of the table: the header in row 1, then the `k`-th record in row `k + 2`, columns `A` to `E`; without a table the action throws |
| `BookScenarios.CreateThenDetails` | PTPMQLTV/MVC/Controllers/BookController.cs:45-87 | after creating a book with a fresh, non-zero key, the listing ends with it and its details page shows exactly it |
| `BookScenarios.CreateTwice` | PTPMQLTV/MVC/Controllers/BookController.cs:48-52 | creating the same book again is refused with the duplicate-key error, and the book is stored once |
| `BookScenarios.DeleteTwice` | PTPMQLTV/MVC/Controllers/BookController.cs:119-133 | two confirmed deletes of one key both redirect, leave the table as one delete does, and the key is then not found |
| `BookScenarios.EditThenDetails` | PTPMQLTV/MVC/Controllers/BookController.cs:156-172 | after a valid edit of a stored, non-zero key without a conflict, the details page shows the submitted record |
| `BookScenarios.ZeroKeyIsHidden` | PTPMQLTV/MVC/Controllers/BookController.cs:48-57 | a book with key `0` can be created, but Details, Delete (GET) and Edit (GET) return NotFound for it; this assumes the store keeps the key `0` as given (see "Left out") |

## Left out

- Persistence through Entity Framework Core: `SaveChangesAsync`, `ToListAsync`, `FindAsync`, `FirstOrDefaultAsync`, asynchrony, transactions and change tracking. Each action's effect is applied directly to `rows`; a save is the assignment to `rows`.
- Failures of the store other than the concurrency conflict in Edit (POST), such as a failed insert in Create or a failed delete in DeleteConfirmed. The source does not catch them; the model assumes these saves succeed.
- Data-annotation validation of `Book`: the `Book` model class is not part of this model, so `ModelState.IsValid` is the boolean parameter `modelValid`.
- `Create` (GET), which only returns the empty form view.
- Views, redirects, routing, `[ValidateAntiForgeryToken]` and `[Bind]`. `[Bind]` is reflected only in `Book` having exactly the five bound fields.
- Export serialisation: `AutoFitColumns`, `GetAsByteArray`, the MIME type and the file name `Books.xlsx` are work of the spreadsheet library. The model stops at the worksheet's cells.
- The `SinhVien` table and its columns. No controller logic reads or writes them.
- The schema's text type for `IdBook`. The controller treats `IdBook` as an integer, and the model does the same.
- Store-generated keys. The model assumes `IdBook` is not generated by the store, so a submitted key is stored and updated exactly as given, `0` included. The `Book` class and any key configuration are not part of this model, and the migration declares the column as text without value generation. If the store did generate `IdBook`, Create with key `0` would store the book under a generated key. Edit (POST) with key `0` would then insert a new record instead of raising the conflict. `BookScenarios.ZeroKeyIsHidden` and the zero-key cases of `Create` and `EditPost` depend on this assumption.
- Integer width. `IdBook`, `Number`, `Year` and the export's row counter are 32-bit `int` in the source and unbounded `int` here. The controller does no arithmetic on the record fields. The row counter would wrap only after about two billion books, which the model does not bound.
