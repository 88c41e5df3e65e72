/**
 The layout of the "Books" worksheet that the export action fills: a fixed
 header row in row 1, then one row per book, in listing order, from row 2 on.
 Columns `A` to `E` hold the book's id, name, number of copies, publisher and
 year. `ExportGrid` is the reference layout as a list of rows; a worksheet is a
 map from cell addresses to cell values, and `SheetHolds` says that a worksheet
 holds exactly a given grid.
 */
module BookExport {
  import opened Books

  /** A scalar value written into a worksheet cell. */
  datatype Cell = Text(text: string) | Int(value: int)

  /** A cell address such as `C7`: column letter and 1-based row number. */
  datatype Address = Address(column: char, row: int)

  /** The five columns the export writes, left to right. */
  const Columns: seq<char> := ['A', 'B', 'C', 'D', 'E']

  /** The header row: book id, book name, quantity, publisher, publication year. */
  const Headers: seq<string> := ["Mã Sách", "Tên Sách", "Số Lượng", "Nhà Xuất Bản", "Năm Xuất Bản"]

  function HeaderRow(): (r: seq<Cell>) {
    seq(|Headers|, c requires 0 <= c < |Headers| => Text(Headers[c]))
  }

  /** The cells of one book's row, in column order `A` to `E`. */
  function BookRow(b: Book): (r: seq<Cell>) {
    [Int(b.idBook), Text(b.nameBook), Int(b.number), Text(b.nhaXuatBan), Int(b.year)]
  }

  /** One row per book; the last book gives the last row. */
  function BookRows(books: seq<Book>): (r: seq<seq<Cell>>)
    ensures |r| == |books|
  {
    if |books| == 0 then [] else BookRows(books[..|books| - 1]) + [BookRow(books[|books| - 1])]
  }

  /**
   The whole sheet as a list of rows: the header, then the books. It has one
   row more than there are books, the header first, and five cells in each row.
   */
  function ExportGrid(books: seq<Book>): (r: seq<seq<Cell>>)
    ensures |r| == 1 + |books|
    ensures r[0] == HeaderRow()
    ensures forall k :: 1 <= k < |r| ==> r[k] == BookRow(books[k - 1])
    ensures forall k :: 0 <= k < |r| ==> |r[k]| == |Columns|
  {
    BookRowsAt(books);
    [HeaderRow()] + BookRows(books)
  }

  /** Row `k` of the book rows is the row of the `k`-th book. */
  lemma {:induction false} BookRowsAt(books: seq<Book>)
    ensures |BookRows(books)| == |books|
    ensures forall k :: 0 <= k < |books| ==> BookRows(books)[k] == BookRow(books[k])
  {
    if |books| > 0 {
      var init := books[..|books| - 1];
      BookRowsAt(init);
      assert forall k :: 0 <= k < |init| ==> init[k] == books[k];
    }
  }

  /**
   The grid has one header row and one row per book; the header row is the five
   fixed titles; sheet row `k + 2` (grid index `k + 1`) holds the `k`-th book.
   */
  lemma ExportGridLayout(books: seq<Book>)
    ensures |ExportGrid(books)| == 1 + |books|
    ensures ExportGrid(books)[0] == [Text("Mã Sách"), Text("Tên Sách"), Text("Số Lượng"), Text("Nhà Xuất Bản"), Text("Năm Xuất Bản")]
    ensures forall k :: 0 <= k < |books| ==>
      ExportGrid(books)[k + 1] == [Int(books[k].idBook), Text(books[k].nameBook), Int(books[k].number),
                                   Text(books[k].nhaXuatBan), Int(books[k].year)]
    ensures forall r :: 0 <= r < |ExportGrid(books)| ==> |ExportGrid(books)[r]| == |Columns|
  {
    BookRowsAt(books);
  }

  /** `cells` with columns `A` to `E` of sheet row `row` set to `values`, left to right. */
  function PutRow(cells: map<Address, Cell>, row: int, values: seq<Cell>): (r: map<Address, Cell>)
    requires |values| == |Columns|
    ensures forall a :: a in r <==> a in cells || (a.column in Columns && a.row == row)
    ensures forall c :: 0 <= c < |Columns| ==> r[Address(Columns[c], row)] == values[c]
    ensures forall a :: a in cells && a.row != row ==> r[a] == cells[a]
  {
    cells[Address('A', row) := values[0]]
         [Address('B', row) := values[1]]
         [Address('C', row) := values[2]]
         [Address('D', row) := values[3]]
         [Address('E', row) := values[4]]
  }

  /** The worksheet `cells` holds exactly `grid`: grid row `r` is sheet row `r + 1`. */
  ghost predicate SheetHolds(cells: map<Address, Cell>, grid: seq<seq<Cell>>) {
    (forall r :: 0 <= r < |grid| ==> |grid[r]| == |Columns|) &&
    (forall a :: a in cells <==> a.column in Columns && 1 <= a.row <= |grid|) &&
    (forall r, c :: 0 <= r < |grid| && 0 <= c < |Columns| ==>
      cells[Address(Columns[c], r + 1)] == grid[r][c])
  }

  /**
   The worksheet after the header and the first `k` books have been written:
   exactly columns `A` to `E` of rows 1 to `k + 1`, the header in row 1 and
   book `j` in row `j + 2`.
   */
  ghost predicate SheetPrefix(cells: map<Address, Cell>, books: seq<Book>, k: nat)
    requires k <= |books|
  {
    (forall a :: a in cells <==> a.column in Columns && 1 <= a.row < 2 + k) &&
    (forall c :: 0 <= c < |Columns| ==> cells[Address(Columns[c], 1)] == Text(Headers[c])) &&
    (forall j, c :: 0 <= j < k && 0 <= c < |Columns| ==>
      cells[Address(Columns[c], j + 2)] == BookRow(books[j])[c])
  }

  /** Writing book `k` into row `k + 2` extends the prefix by one book. */
  lemma BookWritten(cells: map<Address, Cell>, books: seq<Book>, k: nat)
    requires k < |books|
    requires SheetPrefix(cells, books, k)
    ensures SheetPrefix(PutRow(cells, k + 2, BookRow(books[k])), books, k + 1)
  {
    var next := PutRow(cells, k + 2, BookRow(books[k]));
    forall j, c | 0 <= j < k + 1 && 0 <= c < |Columns|
      ensures next[Address(Columns[c], j + 2)] == BookRow(books[j])[c]
    {
      if j < k {
        assert Address(Columns[c], j + 2) in cells;
      }
    }
  }

  /** Once every book is written, the worksheet holds the export grid. */
  lemma SheetOfBooks(cells: map<Address, Cell>, books: seq<Book>)
    requires SheetPrefix(cells, books, |books|)
    ensures SheetHolds(cells, ExportGrid(books))
  {
    var grid := ExportGrid(books);
    BookRowsAt(books);
    forall r, c | 0 <= r < |grid| && 0 <= c < |Columns|
      ensures cells[Address(Columns[c], r + 1)] == grid[r][c]
    {
      if r > 0 {
        assert grid[r] == BookRow(books[r - 1]);
      }
    }
  }
}
