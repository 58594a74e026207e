/**
 * The two selector grids (hours, and minutes): the label list is laid out
 * two cells per row in list order, a missing second cell of the last row is
 * left blank, and a cell is highlighted when its label is the selected one.
 */
module SelectorGrid {
  import opened Wrappers

  /** One grid row: the item at an even index and, if the list has one, the item after it. */
  datatype Row<T> = Row(first: T, second: Option<T>)

  /** A rendered cell: a selectable button with its highlight, or the blank spacer. */
  datatype Cell<T> = Button(text: T, isSelected: bool) | Spacer

  /** The row layout as a reference definition: peel two items at a time. */
  function Paired<T>(items: seq<T>): seq<Row<T>>
    decreases |items|
  {
    if |items| == 0 then []
    else if |items| == 1 then [Row(items[0], None)]
    else [Row(items[0], Some(items[1]))] + Paired(items[2..])
  }

  /** What is left of `items` from index `i` on, empty once `i` runs past the end. */
  ghost function Rest<T>(items: seq<T>, i: nat): seq<T> {
    if i <= |items| then items[i..] else []
  }

  /**
   * The row loop of `HourSelector` and `MinuteAndActionColumn`: for every
   * even index `i`, a row of `items[i]` and `items.getOrNull(i + 1)`.
   */
  method PairRows<T>(items: seq<T>) returns (rows: seq<Row<T>>)
    ensures rows == Paired(items)
  {
    rows := [];
    var i := 0;
    while i < |items|
      invariant i % 2 == 0 && i <= |items| + 1
      invariant i == |items| + 1 ==> |items| % 2 == 1
      invariant rows + Paired(Rest(items, i)) == Paired(items)
      decreases |items| + 1 - i
    {
      var second := if i + 1 < |items| then Some(items[i + 1]) else None;
      if i + 1 < |items| {
        assert items[i..][2..] == Rest(items, i + 2);
      }
      rows := rows + [Row(items[i], second)];
      i := i + 2;
    }
  }

  /** The labels on the buttons of a grid, read row by row, left to right. */
  function Cells<T>(rows: seq<Row<T>>): seq<T> {
    if rows == [] then []
    else
      [rows[0].first] + (if rows[0].second.Some? then [rows[0].second.value] else []) + Cells(rows[1..])
  }

  /** The item shown in column `c` (0 or 1) of row `k`, or `None` for the blank cell. */
  function CellItem<T>(rows: seq<Row<T>>, k: nat, c: nat): Option<T>
    requires k < |rows| && c < 2
  {
    if c == 0 then Some(rows[k].first) else rows[k].second
  }

  /** A grid of `n` items has `ceil(n / 2)` rows, and row `k` holds items `2k` and `2k + 1`. */
  lemma {:induction false} PairedShape<T>(items: seq<T>)
    ensures |Paired(items)| == (|items| + 1) / 2
    ensures forall k :: 0 <= k < |Paired(items)| ==>
      Paired(items)[k].first == items[2 * k] &&
      Paired(items)[k].second == (if 2 * k + 1 < |items| then Some(items[2 * k + 1]) else None)
    decreases |items|
  {
    if |items| >= 2 {
      var rest := items[2..];
      PairedShape(rest);
      var p := Paired(items);
      forall k | 0 < k < |p|
        ensures p[k].first == items[2 * k]
        ensures p[k].second == (if 2 * k + 1 < |items| then Some(items[2 * k + 1]) else None)
      {
        assert p[k] == Paired(rest)[k - 1];
        assert rest[2 * (k - 1)] == items[2 * k];
        if 2 * k + 1 < |items| {
          assert rest[2 * (k - 1) + 1] == items[2 * k + 1];
        }
      }
    }
  }

  /** Only the last row of an odd-length list has a blank second cell. */
  lemma OnlyLastRowBlank<T>(items: seq<T>)
    ensures forall k :: 0 <= k < |Paired(items)| ==>
      (Paired(items)[k].second.None? <==> |items| % 2 == 1 && k == |Paired(items)| - 1)
  {
    PairedShape(items);
  }

  /** Reading the buttons row by row gives back the list, in order. */
  lemma {:induction false} PairedCellsInOrder<T>(items: seq<T>)
    ensures Cells(Paired(items)) == items
    decreases |items|
  {
    if |items| == 1 {
      assert Cells(Paired(items)) == [items[0]] + [] + Cells([]);
    } else if |items| >= 2 {
      PairedCellsInOrder(items[2..]);
      var p := Paired(items);
      assert p[1..] == Paired(items[2..]);
      assert items == [items[0], items[1]] + items[2..];
    }
  }

  /** Cell `(k, c)` of the grid shows item `2k + c`, and is blank exactly past the end of the list. */
  lemma PairedCellItem<T>(items: seq<T>, k: nat, c: nat)
    requires k < |Paired(items)| && c < 2
    ensures CellItem(Paired(items), k, c) ==
      if 2 * k + c < |items| then Some(items[2 * k + c]) else None
  {
    PairedShape(items);
  }

  /** The buttons and spacers of one row, each button highlighted when its label is the selected one. */
  function RenderRow<T(==)>(row: Row<T>, selected: T): seq<Cell<T>> {
    [Button(row.first, row.first == selected),
     match row.second
     case Some(item) => Button(item, item == selected)
     case None => Spacer]
  }

  /** Every row of the grid rendered against the same selection. */
  function RenderGrid<T(==)>(rows: seq<Row<T>>, selected: T): seq<seq<Cell<T>>> {
    seq(|rows|, k requires 0 <= k < |rows| => RenderRow(rows[k], selected))
  }

  /**
   * Rendering the paired list: cell `(k, c)` is the button for item `2k + c`,
   * highlighted exactly when that item is the selected one, or the spacer
   * when the list has no such item.
   */
  lemma RenderedCell<T>(items: seq<T>, selected: T, k: nat, c: nat)
    requires k < |Paired(items)| && c < 2
    ensures var cell := RenderGrid(Paired(items), selected)[k][c];
      if 2 * k + c < |items| then cell == Button(items[2 * k + c], items[2 * k + c] == selected)
      else cell == Spacer
  {
    PairedShape(items);
  }

  predicate Distinct<T(==)>(items: seq<T>) {
    forall i, j :: 0 <= i < j < |items| ==> items[i] != items[j]
  }

  predicate IsHighlighted<T>(grid: seq<seq<Cell<T>>>, k: int, c: int) {
    0 <= k < |grid| && 0 <= c < |grid[k]| && grid[k][c].Button? && grid[k][c].isSelected
  }

  /** With distinct labels, at most one cell of the grid is highlighted. */
  lemma AtMostOneHighlighted<T>(items: seq<T>, selected: T, k: nat, c: nat, k': nat, c': nat)
    requires Distinct(items)
    requires var g := RenderGrid(Paired(items), selected); IsHighlighted(g, k, c) && IsHighlighted(g, k', c')
    ensures k == k' && c == c'
  {
    var g := RenderGrid(Paired(items), selected);
    assert |g[k]| == 2 && |g[k']| == 2;
    RenderedCell(items, selected, k, c);
    RenderedCell(items, selected, k', c');
    var i, j := 2 * k + c, 2 * k' + c';
    assert items[i] == selected == items[j];
    assert i == j;
  }

  /** A selected value that is in the list is highlighted in exactly the cell of its index. */
  lemma SelectedIsHighlighted<T>(items: seq<T>, selected: T, i: nat)
    requires i < |items| && items[i] == selected
    ensures IsHighlighted(RenderGrid(Paired(items), selected), i / 2, i % 2)
  {
    PairedShape(items);
    RenderedCell(items, selected, i / 2, i % 2);
  }

  /** A value not in the list highlights nothing. */
  lemma UnlistedHighlightsNothing<T>(items: seq<T>, selected: T, k: nat, c: nat)
    requires selected !in items
    ensures !IsHighlighted(RenderGrid(Paired(items), selected), k, c)
  {
    var g := RenderGrid(Paired(items), selected);
    if IsHighlighted(g, k, c) {
      assert |g[k]| == 2;
      RenderedCell(items, selected, k, c);
    }
  }
}
