/** Tables read by columns and rows: which element each cell of a row and each row of a table comes from. */
module OdfTables {
  import opened Wrappers
  import opened OdfStyles
  import opened OdfModel

  // ---------------------------------------------------------------- places that elements cover

  /** The number of places before element `k`, when each element covers `size` of them. */
  function Before<T>(xs: seq<T>, size: T -> nat, k: nat): nat
    requires k <= |xs|
  {
    if k == 0 then 0 else Before(xs, size, k - 1) + size(xs[k - 1])
  }

  predicate Covers<T>(xs: seq<T>, size: T -> nat, k: nat, place: nat)
    requires k < |xs|
  {
    Before(xs, size, k) <= place < Before(xs, size, k) + size(xs[k])
  }

  lemma {:induction false} SameBefore<T>(xs: seq<T>, size: T -> nat, n: nat, k: nat)
    requires k <= n <= |xs|
    ensures Before(xs[..n], size, k) == Before(xs, size, k)
  {
    if k > 0 { SameBefore(xs, size, n, k - 1); }
  }

  lemma {:induction false} BeforeGrows<T>(xs: seq<T>, size: T -> nat, j: nat, k: nat)
    requires j <= k <= |xs|
    ensures Before(xs, size, j) <= Before(xs, size, k)
  {
    if j < k { BeforeGrows(xs, size, j, k - 1); }
  }

  lemma OnlyOneCovers<T>(xs: seq<T>, size: T -> nat, j: nat, k: nat, place: nat)
    requires j < |xs| && k < |xs| && Covers(xs, size, j, place) && Covers(xs, size, k, place)
    ensures j == k
  {
    if j < k { BeforeGrows(xs, size, j + 1, k); }
    if k < j { BeforeGrows(xs, size, k + 1, j); }
  }

  lemma {:induction false} SomeCovers<T>(xs: seq<T>, size: T -> nat, n: nat, place: nat) returns (k: nat)
    requires n <= |xs| && place < Before(xs, size, n)
    ensures k < n && Covers(xs, size, k, place)
  {
    k := n - 1;
    if place < Before(xs, size, n - 1) { k := SomeCovers(xs, size, n - 1, place); }
  }

  /** Exactly one element covers a place. */
  lemma OneCovers<T>(xs: seq<T>, size: T -> nat, place: nat) returns (k: nat)
    requires place < Before(xs, size, |xs|)
    ensures k < |xs| && Covers(xs, size, k, place)
    ensures forall j :: 0 <= j < |xs| && Covers(xs, size, j, place) ==> j == k
  {
    hide Covers;
    k := SomeCovers(xs, size, |xs|, place);
    forall j | 0 <= j < |xs| && Covers(xs, size, j, place) ensures j == k { OnlyOneCovers(xs, size, j, k, place); }
  }

  /** There are as many as the elements cover places, and every place holds what stands for the element that covers it. */
  ghost predicate AreInPlace<T, U(!new)>(xs: seq<T>, size: T -> nat, values: seq<U>, out: seq<U>)
    requires |values| == |xs|
  {
    && |out| == Before(xs, size, |xs|)
    && forall k, place :: 0 <= k < |xs| && 0 <= place && Covers(xs, size, k, place) ==> place < |out| && out[place] == values[k]
  }

  lemma OneMoreInPlace<T, U(!new)>(xs: seq<T>, size: T -> nat, values: seq<U>, out: seq<U>, x: T, value: U, more: seq<U>)
    requires |values| == |xs| && AreInPlace(xs, size, values, out)
    requires |more| == size(x) && forall r :: 0 <= r < |more| ==> more[r] == value
    ensures AreInPlace(xs + [x], size, values + [value], out + more)
  {
    var all, n := xs + [x], |xs|;
    assert all[..n] == xs;
    forall k | 0 <= k <= n ensures Before(xs, size, k) == Before(all, size, k) { SameBefore(all, size, n, k); }
    forall k, place | 0 <= k < |all| && 0 <= place && Covers(all, size, k, place)
      ensures place < |out + more| && (out + more)[place] == (values + [value])[k]
    {
      if k < n {
        assert Covers(xs, size, k, place);
      } else {
        assert (out + more)[place] == more[place - |out|];
      }
    }
  }

  /** A number of repetitions, one where none is given. */
  function Repetitions(c: Count): nat { if c.Given? then c.n else 1 }

  // ---------------------------------------------------------------- the columns of a row

  /** How many columns an element of a row covers. */
  function Width(child: RowChild): nat {
    match child
    case TableCell(repeated, _) => Repetitions(repeated)
    case CoveredCell(repeated) => Repetitions(repeated)
    case OtherRowChild => 0
  }

  /** What a column that element `k` covers holds: the content of the cell, or an empty paragraph if it is covered. */
  function ColumnOf(styles: StyleMap, children: seq<RowChild>, s: ListState, k: nat): Cell
    requires k < |children|
  {
    match children[k]
    case TableCell(_, content) => ReadCell(styles, content, ReadRow(styles, children[..k], s).1).0
    case _ => Cell([EMPTY_PARAGRAPH])
  }

  lemma {:induction false} OneMoreCell(styles: StyleMap, a: seq<RowChild>, x: RowChild, s: ListState)
    ensures var (cells, between) := ReadRow(styles, a, s);
            var (read, after) := ReadRowChild(styles, x, between);
            ReadRow(styles, a + [x], s) == (cells + read, after)
  {
    hide ReadRowChild;
    if a == [] {
      assert ([] + [x])[0] == x && ([] + [x])[1..] == [];
      NothingAround(ReadRowChild(styles, x, s).0);
    } else {
      assert (a + [x])[0] == a[0] && (a + [x])[1..] == a[1..] + [x];
      var (first, between) := ReadRowChild(styles, a[0], s);
      OneMoreCell(styles, a[1..], x, between);
      var (rest, after) := ReadRow(styles, a[1..], between);
      Regrouped(first, rest, ReadRowChild(styles, x, after).0);
    }
  }

  lemma ColumnsRead(styles: StyleMap, children: seq<RowChild>, k: nat, s: ListState)
    requires k < |children|
    ensures var read := ReadRowChild(styles, children[k], ReadRow(styles, children[..k], s).1).0;
            |read| == Width(children[k]) && forall r :: 0 <= r < |read| ==> read[r] == ColumnOf(styles, children, s, k)
  {
    hide ReadCell, ReadRow;
  }

  /** What each element of a row stands for. */
  function Columns(styles: StyleMap, children: seq<RowChild>, s: ListState): (cells: seq<Cell>)
    ensures |cells| == |children| && forall k :: 0 <= k < |cells| ==> cells[k] == ColumnOf(styles, children, s, k)
  {
    seq(|children|, k requires 0 <= k < |children| => ColumnOf(styles, children, s, k))
  }

  lemma OneMoreColumn(styles: StyleMap, children: seq<RowChild>, s: ListState)
    requires children != []
    ensures var n := |children| - 1;
            Columns(styles, children, s) == Columns(styles, children[..n], s) + [ColumnOf(styles, children, s, n)]
  {
    hide ReadCell, ReadRow;
    var n := |children| - 1;
    forall k | 0 <= k < n ensures ColumnOf(styles, children[..n], s, k) == ColumnOf(styles, children, s, k) {
      assert children[..n][..k] == children[..k];
    }
  }

  /** A row has as many cells as its elements cover columns, and every column comes from the element that covers it. */
  lemma {:induction false} RowIsItsColumns(styles: StyleMap, children: seq<RowChild>, s: ListState)
    ensures AreInPlace(children, Width, Columns(styles, children, s), ReadRow(styles, children, s).0)
  {
    if children != [] {
      hide AreInPlace, ReadRow, ReadRowChild, ColumnOf, Width, Columns;
      var n := |children| - 1;
      var front, last := children[..n], children[n];
      assert children == front + [last];
      RowIsItsColumns(styles, front, s);
      OneMoreColumn(styles, children, s);
      OneMoreCell(styles, front, last, s);
      ColumnsRead(styles, children, n, s);
      OneMoreInPlace(front, Width, Columns(styles, front, s), ReadRow(styles, front, s).0, last, ColumnOf(styles, children, s, n),
                     ReadRowChild(styles, last, ReadRow(styles, front, s).1).0);
    }
  }

  // ---------------------------------------------------------------- the rows of a table

  /** How many rows an element of a table stands for. */
  function Height(child: TableChild): nat {
    match child case TableRow(repeated, _) => Repetitions(repeated) case OtherTableChild => 0
  }

  /** The row that element `k` stands for: its cells, with the lists counted from those of the rows before. */
  function RowOf(styles: StyleMap, children: seq<TableChild>, s: ListState, k: nat): Row
    requires k < |children|
  {
    match children[k]
    case TableRow(_, cells) => Row(ReadRow(styles, cells, ReadTable(styles, children[..k], s).1).0)
    case OtherTableChild => Row([])
  }

  function Rows(styles: StyleMap, children: seq<TableChild>, s: ListState): (rows: seq<Row>)
    ensures |rows| == |children| && forall k :: 0 <= k < |rows| ==> rows[k] == RowOf(styles, children, s, k)
  {
    seq(|children|, k requires 0 <= k < |children| => RowOf(styles, children, s, k))
  }

  lemma {:induction false} OneMoreRow(styles: StyleMap, a: seq<TableChild>, x: TableChild, s: ListState)
    ensures var (rows, between) := ReadTable(styles, a, s);
            var (read, after) := ReadTableChild(styles, x, between);
            ReadTable(styles, a + [x], s) == (rows + read, after)
  {
    hide ReadTableChild;
    if a == [] {
      assert ([] + [x])[0] == x && ([] + [x])[1..] == [];
      NothingAround(ReadTableChild(styles, x, s).0);
    } else {
      assert (a + [x])[0] == a[0] && (a + [x])[1..] == a[1..] + [x];
      var (first, between) := ReadTableChild(styles, a[0], s);
      OneMoreRow(styles, a[1..], x, between);
      var (rest, after) := ReadTable(styles, a[1..], between);
      Regrouped(first, rest, ReadTableChild(styles, x, after).0);
    }
  }

  lemma RowsRead(styles: StyleMap, children: seq<TableChild>, k: nat, s: ListState)
    requires k < |children|
    ensures var read := ReadTableChild(styles, children[k], ReadTable(styles, children[..k], s).1).0;
            |read| == Height(children[k]) && forall r :: 0 <= r < |read| ==> read[r] == RowOf(styles, children, s, k)
  {
    hide ReadRow, ReadTable;
  }

  lemma OneMoreRowOf(styles: StyleMap, children: seq<TableChild>, s: ListState)
    requires children != []
    ensures var n := |children| - 1;
            Rows(styles, children, s) == Rows(styles, children[..n], s) + [RowOf(styles, children, s, n)]
  {
    hide ReadRow, ReadTable;
    var n := |children| - 1;
    forall k | 0 <= k < n ensures RowOf(styles, children[..n], s, k) == RowOf(styles, children, s, k) {
      assert children[..n][..k] == children[..k];
    }
  }

  /** A table has as many rows as its elements stand for, and every row comes from its element. */
  lemma {:induction false} TableIsItsRows(styles: StyleMap, children: seq<TableChild>, s: ListState)
    ensures AreInPlace(children, Height, Rows(styles, children, s), ReadTable(styles, children, s).0)
  {
    if children != [] {
      hide AreInPlace, ReadTable, ReadTableChild, RowOf, Height, Rows;
      var n := |children| - 1;
      var front, last := children[..n], children[n];
      assert children == front + [last];
      TableIsItsRows(styles, front, s);
      OneMoreRowOf(styles, children, s);
      OneMoreRow(styles, front, last, s);
      RowsRead(styles, children, n, s);
      OneMoreInPlace(front, Height, Rows(styles, front, s), ReadTable(styles, front, s).0, last, RowOf(styles, children, s, n),
                     ReadTableChild(styles, last, ReadTable(styles, front, s).1).0);
    }
  }
}
