/**
 The in-memory `Book` table: a sequence of records in storage (listing) order,
 the primary-key invariant on `idBook`, and the three primitive operations the
 controller performs on it through the ORM: look a record up by key, remove the
 record with a key, and overwrite the record with a key.
 */
module BookTable {
  import opened Books

  /** Some record of the table has key `id`. */
  ghost predicate HasId(rows: seq<Book>, id: int) {
    exists b :: b in rows && b.idBook == id
  }

  /** The primary-key constraint: no two records share an `idBook`. */
  ghost predicate UniqueIds(rows: seq<Book>) {
    forall i, j :: 0 <= i < j < |rows| ==> rows[i].idBook != rows[j].idBook
  }

  /** Position of the first record with key `id`, or `|rows|` when there is none. */
  function FindIndex(rows: seq<Book>, id: int): (i: nat)
    ensures i <= |rows|
    ensures i < |rows| ==> rows[i].idBook == id
    ensures forall j :: 0 <= j < i ==> rows[j].idBook != id
    ensures i == |rows| <==> !HasId(rows, id)
  {
    if |rows| == 0 then 0
    else if rows[0].idBook == id then 0
    else 1 + FindIndex(rows[1..], id)
  }

  /** The first record with key `id` (`FirstOrDefault`, `FindAsync`). */
  function Find(rows: seq<Book>, id: int): (r: Option<Book>)
    ensures r.Some? <==> HasId(rows, id)
    ensures r.Some? ==> r.value in rows && r.value.idBook == id
  {
    var i := FindIndex(rows, id);
    if i < |rows| then Some(rows[i]) else None
  }

  /**
   The table after `Remove` of the record found by key `id`, if any: with one
   record of that key taken out, the others in their order; unchanged when no
   record has the key.
   */
  function Removed(rows: seq<Book>, id: int): (r: seq<Book>)
    ensures !HasId(rows, id) ==> r == rows
    ensures HasId(rows, id) ==> |r| == |rows| - 1
    ensures HasId(rows, id) ==>
      exists i :: 0 <= i < |rows| && rows[i].idBook == id && r == rows[..i] + rows[i + 1..]
  {
    var i := FindIndex(rows, id);
    if i < |rows| then rows[..i] + rows[i + 1..] else rows
  }

  /**
   The table after `Update(book)`: same length; each record either stays or,
   having `book`'s key, becomes `book`; `book` is stored when its key was;
   unchanged when no record has the key.
   */
  function Replaced(rows: seq<Book>, book: Book): (r: seq<Book>)
    ensures |r| == |rows|
    ensures forall k :: 0 <= k < |rows| ==> r[k] == rows[k] || (rows[k].idBook == book.idBook && r[k] == book)
    ensures HasId(rows, book.idBook) ==> book in r
    ensures !HasId(rows, book.idBook) ==> r == rows
  {
    var i := FindIndex(rows, book.idBook);
    if i < |rows| then rows[i := book] else rows
  }

  /** Under the key invariant, looking up a stored record's key yields exactly that record. */
  lemma FindStored(rows: seq<Book>, b: Book)
    requires UniqueIds(rows)
    requires b in rows
    ensures Find(rows, b.idBook) == Some(b)
  {

  }

  /** Appending a record with a fresh key keeps the key invariant and makes it findable. */
  lemma AppendFresh(rows: seq<Book>, b: Book)
    requires UniqueIds(rows)
    requires !HasId(rows, b.idBook)
    ensures UniqueIds(rows + [b])
    ensures Find(rows + [b], b.idBook) == Some(b)
    ensures forall id :: id != b.idBook ==> Find(rows + [b], id) == Find(rows, id)
  {

  }

  /**
   Removing by key takes out exactly the record with that key, when there is
   one, keeps every other record and their order, and keeps the key invariant.
   */
  lemma RemovedSpec(rows: seq<Book>, id: int)
    requires UniqueIds(rows)
    ensures UniqueIds(Removed(rows, id))
    ensures !HasId(Removed(rows, id), id)
    ensures forall b :: b in Removed(rows, id) <==> b in rows && b.idBook != id
    ensures !HasId(rows, id) ==> Removed(rows, id) == rows
    ensures HasId(rows, id) ==>
      exists i :: 0 <= i < |rows| && rows[i].idBook == id && Removed(rows, id) == rows[..i] + rows[i + 1..]
  {

  }

  /** Deleting the same key twice is the same as deleting it once. */
  lemma RemoveIdempotent(rows: seq<Book>, id: int)
    requires UniqueIds(rows)
    ensures Removed(Removed(rows, id), id) == Removed(rows, id)
  {

  }

  /**
   Overwriting by key replaces only the record with `book`'s key, keeps the
   length and the order, and keeps the key invariant.
   */
  lemma ReplacedSpec(rows: seq<Book>, book: Book)
    requires UniqueIds(rows)
    ensures |Replaced(rows, book)| == |rows|
    ensures forall k :: 0 <= k < |rows| ==>
      Replaced(rows, book)[k] == if rows[k].idBook == book.idBook then book else rows[k]
    ensures UniqueIds(Replaced(rows, book))
    ensures HasId(rows, book.idBook) ==> Find(Replaced(rows, book), book.idBook) == Some(book)
    ensures !HasId(rows, book.idBook) ==> Replaced(rows, book) == rows
  {

  }
}
