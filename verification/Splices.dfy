/** What shifts, splices and rectangles mean for a set of 32-bit values. */
module Splices {
  import opened IntSets
  import opened Ranks
  import opened BitsetOps
  import opened ContainerCursors

  // ---------- shifts ----------

  predicate CameFrom(s: set<int>, y: int, d: int) { y - d in s }

  /** Every value moved by `d`; what leaves the 32-bit range is discarded. */
  function Moved(s: set<int>, d: int): set<int> {
    set y: int | 0 <= y < 0x1_0000_0000 && CameFrom(s, y, d)
  }

  /** Moved to the left and to the right, value by value. */
  lemma MovedLeft(s: set<int>, amount: u32, d: int)
    requires s <= Range(0, 0x1_0000_0000) && d == -(amount as int)
    ensures forall y: int {:trigger y in Moved(s, d)} :: y in Moved(s, d) <==> 0 <= y && y + amount in s
  {
    forall y: int ensures y in Moved(s, d) <==> 0 <= y && y + amount in s {
      if y + amount in s { assert y + amount in Range(0, 0x1_0000_0000); }
      assert CameFrom(s, y, d) <==> y + amount in s;
    }
  }

  lemma MovedRight(s: set<int>, amount: u32)
    requires s <= Range(0, 0x1_0000_0000)
    ensures forall y: int {:trigger y in Moved(s, amount)} ::
      y in Moved(s, amount) <==> y < 0x1_0000_0000 && y - amount in s
  {
    forall y: int ensures y in Moved(s, amount) <==> y < 0x1_0000_0000 && y - amount in s {
      if y - amount in s { assert y - amount in Range(0, 0x1_0000_0000); }
      assert CameFrom(s, y, amount) <==> y - amount in s;
    }
  }

  lemma MovedNowhere(s: set<int>)
    requires s <= Range(0, 0x1_0000_0000)
    ensures Moved(s, 0) == s
  {
  }

  /** The values before the one that an iterator points at; all of them when it points at none. */
  function Passed(s: set<int>, hasValue: bool, value: int): set<int> {
    if hasValue then Below(s, value) else s
  }

  lemma PassOne(s: set<int>, d: int, value: int, hasNext: bool, next: int)
    requires value in s && 0 <= value + d < 0x1_0000_0000
    requires if hasNext then Least(s, value + 1, next) else NoneFrom(s, value + 1)
    ensures Moved(Passed(s, hasNext, next), d) == Moved(Below(s, value), d) + {value + d}
  {
  }

  /** Before the first value that moves into range, nothing does. */
  lemma NothingMoved(s: set<int>, d: int, lo: int, hasValue: bool, value: int)
    requires if hasValue then Least(s, lo, value) else NoneFrom(s, lo)
    requires lo + d <= 0
    ensures Moved(Passed(s, hasValue, value), d) == {}
    ensures hasValue ==> value in s && lo <= value
  {
  }

  /** Nothing has been passed when an iterator stands at the smallest value. */
  lemma NothingBefore(s: set<int>, d: int, hasValue: bool, value: int)
    requires if hasValue then Smallest(s, value) else s == {}
    ensures Moved(Passed(s, hasValue, value), d) == {}
  {
  }

  lemma MovedAbove(s: set<int>, d: int, value: int)
    requires 0x1_0000_0000 <= value + d
    ensures Moved(Below(s, value), d) == Moved(s, d)
  {
  }

  // ---------- splices ----------

  ghost predicate SplicedFrom(s: set<int>, position: int, removed: int, added: int, y: int) {
    if y < position then y in s else position + added <= y && y - added + removed in s
  }

  /** Values before `position` stay; the next `removed` go; the rest moves behind `added` new places. */
  ghost function Spliced(s: set<int>, position: int, removed: int, added: int): set<int> {
    set y: int | 0 <= y < 0x1_0000_0000 && SplicedFrom(s, position, removed, added, y)
  }

  /** Value by value. */
  lemma SplicedMeans(s: set<int>, position: u32, removed: nat, added: nat)
    ensures forall y: int {:trigger y in Spliced(s, position, removed, added)} ::
      y in Spliced(s, position, removed, added) <==>
        && 0 <= y < 0x1_0000_0000
        && if y < position then y in s else position + added <= y && y - added + removed in s
  {
  }

  /** The part before the splice, and the part behind it after it has moved. */
  lemma Assembled(s: set<int>, position: u32, removed: u32, added: u32)
    requires s <= Range(0, 0x1_0000_0000)
    ensures var cut := s - Range(position, position + removed);
      (cut - Range(position, 0x1_0000_0000)) + Moved(cut - Range(0, position), added - removed)
        == Spliced(s, position, removed, added)
  {
  }

  lemma SamePlaces(s: set<int>, position: u32, n: u32)
    requires s <= Range(0, 0x1_0000_0000)
    ensures s - Range(position, position + n) == Spliced(s, position, n, n)
  {
  }

  /** Splicing `n` places in and out again is the identity exactly when no value overflows. */
  lemma SpliceInAndOut(s: set<int>, position: u32, n: nat)
    requires s <= Range(0, 0x1_0000_0000)
    ensures Spliced(Spliced(s, position, 0, n), position, n, 0) == s
      <==> forall x :: x in s && position <= x ==> x + n < 0x1_0000_0000
  {
  }

  /** Splicing places out and in again loses what stood there, and nothing else. */
  lemma SpliceOutAndIn(s: set<int>, position: u32, n: nat)
    requires s <= Range(0, 0x1_0000_0000)
    ensures Spliced(Spliced(s, position, n, 0), position, 0, n) == s - Range(position, position + n)
  {
  }

  /** One splice is a removal of places followed by an insertion of places. */
  lemma SpliceInTwoSteps(s: set<int>, position: u32, removed: nat, added: nat)
    requires s <= Range(0, 0x1_0000_0000)
    ensures Spliced(Spliced(s, position, removed, 0), position, 0, added) == Spliced(s, position, removed, added)
  {
  }

  /** The positions of a list that are marked. */
  ghost function Marked(marks: seq<bool>): set<int> {
    set i: int | 0 <= i < |marks| && marks[i]
  }

  /**
   A splice of the marked positions mirrors a change of the list: `removed` items go and `added` unmarked ones come.
   */
  lemma SpliceMirrorsList(marks: seq<bool>, position: nat, removed: nat, added: nat)
    requires position + removed <= |marks| && |marks| - removed + added <= 0x1_0000_0000
    ensures Marked(marks[..position] + seq(added, _ => false) + marks[position + removed..])
         == Spliced(Marked(marks), position, removed, added)
  {
  }

  // ---------- rectangles ----------

  /** What the documentation of the rectangles asks of its callers. */
  predicate InGrid(start: int, width: int, height: int, stride: int) {
    stride > 0 && start % stride + width <= stride && start + height * stride <= 0xFFFF_FFFF
  }

  predicate InRow(start: int, width: int, stride: int, i: int, x: int) {
    start + i * stride <= x < start + i * stride + width
  }

  predicate InRows(start: int, width: int, height: int, stride: int, x: int) {
    exists i :: 0 <= i < height && InRow(start, width, stride, i, x)
  }

  /** `height` rows of `width` values, `stride` apart. */
  function Rows(start: int, width: int, height: int, stride: int): set<int> {
    set x: int | 0 <= x < 0x1_0000_0000 && InRows(start, width, height, stride, x)
  }

  /**
   What a range guard lets pass: a range that ends at the largest value at the latest, and nothing of a longer one.
   */
  function Stretch(start: int, n: int): set<int> {
    if start + n <= 0x1_0000_0000 then Range(start, start + n) else {}
  }

  /** Value by value. */
  lemma StretchMeans(start: int, n: int)
    ensures forall x: int :: x in Stretch(start, n) <==> start <= x < start + n <= 0x1_0000_0000
  {
  }

  lemma NoStretch(s: set<int>, start: int, n: int)
    requires n == 0 || start + n > 0x1_0000_0000
    ensures s + Stretch(start, n) == s && s - Stretch(start, n) == s
  {
  }

  /** The guards of the rectangles, in 32 bits. */
  predicate AddGuard(start: u32, width: u32, height: u32, stride: u32)
    requires stride > 0
  {
    && (start % stride + width) % 0x1_0000_0000 <= stride
    && 0xFFFF_FFFF - start >= height * stride % 0x1_0000_0000
  }

  predicate RemoveGuard(start: u32, width: u32, height: u32, stride: u32) {
    width <= stride && 0xFFFF_FFFF - start >= height * stride % 0x1_0000_0000
  }

  predicate InWrappedRow(start: int, width: int, stride: int, i: int, x: int) {
    x in Stretch((i * stride + start) % 0x1_0000_0000, width)
  }

  predicate InWrappedRows(start: int, width: int, height: int, stride: int, x: int) {
    exists i :: 0 <= i < height && InWrappedRow(start, width, stride, i, x)
  }

  /** Value by value: a row that would end beyond 32 bits is left out, and no other. */
  lemma WrappedRowIs(start: int, width: int, stride: int, i: int, x: int)
    ensures var first := (i * stride + start) % 0x1_0000_0000;
      InWrappedRow(start, width, stride, i, x) <==> first <= x < first + width <= 0x1_0000_0000
  {
  }

  /** The rows that the loops go through: each starts at a 32-bit sum. */
  function WrappedRows(start: int, width: int, height: int, stride: int): set<int> {
    set x: int | 0 <= x < 0x1_0000_0000 && InWrappedRows(start, width, height, stride, x)
  }

  lemma NoWrappedRows(s: set<int>, start: int, width: int, height: int, stride: int)
    ensures s + WrappedRows(start, width, 0, stride) == s && s - WrappedRows(start, width, 0, stride) == s
    ensures width == 0 || height == 0 ==>
      s + WrappedRows(start, width, height, stride) == s && s - WrappedRows(start, width, height, stride) == s
    ensures s + {} == s && s - {} == s
  {
  }

  lemma NextWrappedRow(s: set<int>, start: u32, width: u32, i: u32, stride: u32)
    ensures var row := Stretch((i * stride + start) % 0x1_0000_0000, width);
      s + WrappedRows(start, width, i, stride) + row == s + WrappedRows(start, width, i + 1, stride) &&
      s - WrappedRows(start, width, i, stride) - row == s - WrappedRows(start, width, i + 1, stride)
  {
    var row := Stretch((i * stride + start) % 0x1_0000_0000, width);
    hide Stretch;
    StretchBounds((i * stride + start) % 0x1_0000_0000, width);
    forall x ensures x in WrappedRows(start, width, i + 1, stride) <==>
      x in WrappedRows(start, width, i, stride) || x in row {
      if x in row { assert InWrappedRow(start, width, stride, i, x); }
    }
  }

  lemma StretchBounds(start: u32, n: u32)
    ensures Stretch(start, n) <= Range(0, 0x1_0000_0000)
    ensures forall x :: x in Stretch(start, n) ==> 0 <= x < 0x1_0000_0000
  {
  }

  /**
   The loops go through the rows that are meant, values beyond 32 bits included, exactly when the last row ends at the
   largest value at the latest.
   */
  lemma RowsDoNotWrap(start: u32, width: u32, height: u32, stride: u32)
    requires width > 0 && height > 0
    ensures (forall x :: x in WrappedRows(start, width, height, stride) <==> InRows(start, width, height, stride, x))
      <==> start + (height - 1) * stride + width <= 0x1_0000_0000
  {
    hide InRow, InWrappedRow;
    if start + (height - 1) * stride + width <= 0x1_0000_0000 {
      forall i, x | 0 <= i < height
        ensures InWrappedRow(start, width, stride, i, x) <==> InRow(start, width, stride, i, x)
        ensures InRow(start, width, stride, i, x) ==> 0 <= x < 0x1_0000_0000
      {
        EarlierRow(start, width, stride, i, height - 1);
        RowAsMeant(start, width, stride, i, x);
      }
    } else {
      var x := start + (height - 1) * stride + width - 1;
      assert InRow(start, width, stride, height - 1, x) by { LastOfRow(start, width, stride, height - 1, x); }
      assert x !in WrappedRows(start, width, height, stride);
    }
  }

  lemma EarlierRow(start: u32, width: u32, stride: u32, i: int, j: int)
    requires 0 <= i <= j
    ensures 0 <= i * stride && start + i * stride + width <= start + j * stride + width
  {
    assert i * stride <= j * stride;
  }

  lemma RowAsMeant(start: u32, width: u32, stride: u32, i: int, x: int)
    requires width > 0 && 0 <= i * stride && start + i * stride + width <= 0x1_0000_0000
    ensures InWrappedRow(start, width, stride, i, x) <==> InRow(start, width, stride, i, x)
    ensures InRow(start, width, stride, i, x) ==> 0 <= x < 0x1_0000_0000
  {
    assert (i * stride + start) % 0x1_0000_0000 == i * stride + start;
  }

  lemma LastOfRow(start: u32, width: u32, stride: u32, i: int, x: int)
    requires width > 0 && x == start + i * stride + width - 1
    ensures InRow(start, width, stride, i, x)
  {
  }

  /** A rectangle inside the grid passes the guards, and the loops go through its rows. */
  lemma GridRectangle(start: u32, width: u32, height: u32, stride: u32)
    requires InGrid(start, width, height, stride)
    ensures AddGuard(start, width, height, stride) && RemoveGuard(start, width, height, stride)
    ensures WrappedRows(start, width, height, stride) == Rows(start, width, height, stride)
  {
    hide InRow, InWrappedRow;
    assert 0 <= height * stride <= 0xFFFF_FFFF;
    if width > 0 {
      forall i, x | 0 <= i < height
        ensures InWrappedRow(start, width, stride, i, x) <==> InRow(start, width, stride, i, x)
      {
        RowInside(start, width, height, stride, i);
        RowAsMeant(start, width, stride, i, x);
      }
    } else {
      NoWrappedRows({}, start, width, height, stride);
      forall i, x ensures !InRow(start, width, stride, i, x) { EmptyRow(start, stride, i, x); }
    }
  }

  lemma EmptyRow(start: int, stride: int, i: int, x: int)
    ensures !InRow(start, 0, stride, i, x)
  {
  }

  /** Row `i` ends before the largest value. */
  lemma RowInside(start: u32, width: u32, height: u32, stride: u32, i: int)
    requires width <= stride && start + height * stride <= 0xFFFF_FFFF && 0 <= i < height
    ensures 0 <= i * stride && start + i * stride + width <= 0xFFFF_FFFF
  {
    assert (i + 1) * stride <= height * stride;
    assert (i + 1) * stride == i * stride + stride;
  }

  /**
   A rectangle that both guards accept because `height * stride` wraps around: one column, 65537 rows of the grid. The
   last row wraps to a value in the last column.
   */
  lemma WrongRectangle()
    ensures AddGuard(0, 1, 65537, 65537) && RemoveGuard(0, 1, 65537, 65537) && !InGrid(0, 1, 65537, 65537)
    ensures 65536 in WrappedRows(0, 1, 65537, 65537) && !InRows(0, 1, 65537, 65537, 65536)
    ensures !InRectangle(0, 1, 65537, 65537, 65536) && !DrawsRectangle(0, 1, 65537, 65537)
  {
    assert InWrappedRow(0, 1, 65537, 65536, 65536);
    forall i | 0 <= i < 65537 ensures !InRow(0, 1, 65537, i, 65536) {}
  }

  /** A cell of the rectangle: its row and its column in the grid, counted from the corner at `start`. */
  predicate InRectangle(start: int, width: int, height: int, stride: int, x: int)
    requires stride > 0
  {
    start / stride <= x / stride < start / stride + height && start % stride <= x % stride < start % stride + width
  }

  /** The rows are the cells of a rectangle. */
  lemma RowsAreARectangle(start: u32, width: u32, height: u32, stride: u32, x: u32)
    requires InGrid(start, width, height, stride)
    ensures x in Rows(start, width, height, stride) <==> InRectangle(start, width, height, stride, x)
  {
    hide InRow;
    var c, r := start % stride, start / stride;
    if x in Rows(start, width, height, stride) {
      var i :| 0 <= i < height && InRow(start, width, stride, i, x);
      RowIs(start, width, stride, i, x);
    }
    var i := x / stride - r;
    RowIs(start, width, stride, i, x);
  }

  /** Row `i` is the stretch of row `r + i` of the grid that starts in the column of `start`. */
  lemma RowIs(start: u32, width: u32, stride: u32, i: int, x: int)
    requires stride > 0 && start % stride + width <= stride
    ensures InRow(start, width, stride, i, x) <==>
      x / stride == start / stride + i && start % stride <= x % stride < start % stride + width
  {
    var c, r := start % stride, start / stride;
    RowStart(r, i, stride, start);
    var first := (r + i) * stride;
    assert start + i * stride == first + c;
    if InRow(start, width, stride, i, x) { Cell(r + i, stride, x - first, x); }
    if x / stride == r + i { assert x == first + x % stride; }
  }

  // ---------- which accepted rectangles are rectangles ----------

  /** The loops go through the cells of the rectangle, and nothing else. */
  ghost predicate DrawsRectangle(start: u32, width: u32, height: u32, stride: u32)
    requires stride > 0
  {
    forall x :: x in WrappedRows(start, width, height, stride) <==> InRectangle(start, width, height, stride, x)
  }

  /** No row runs over the edge of the grid, and the last one ends at the largest value at the latest. */
  predicate StaysInside(start: u32, width: u32, height: u32, stride: u32)
    requires stride > 0
  {
    start % stride + width <= stride && start + (height - 1) * stride + width <= 0x1_0000_0000
  }

  /**
   A rectangle that one of the guards accepts is drawn as the rectangle that it is meant to be exactly when it stays
   inside the grid and inside 32 bits, or is empty. The guards ensure neither.
   */
  lemma AcceptedRectangle(start: u32, width: u32, height: u32, stride: u32)
    requires stride > 0 && (AddGuard(start, width, height, stride) || RemoveGuard(start, width, height, stride))
    ensures DrawsRectangle(start, width, height, stride) <==>
      width == 0 || height == 0 || StaysInside(start, width, height, stride)
  {
    hide InRectangle, WrappedRows;
    if width == 0 || height == 0 {
      forall x ensures x !in WrappedRows(start, width, height, stride) &&
        !InRectangle(start, width, height, stride, x) {
        NothingDrawn(start, width, height, stride, x);
      }
    } else if start % stride + width > stride {
      OverTheEdge(start, width, height, stride);
    } else if start + (height - 1) * stride + width > 0x1_0000_0000 {
      var x := start + (height - 1) * stride + width - 1;
      LastCell(start, width, height, stride, x);
      DrawnIsSmall(start, width, height, stride, x);
    } else {
      RowsDoNotWrap(start, width, height, stride);
      forall x ensures x in WrappedRows(start, width, height, stride) <==>
        InRectangle(start, width, height, stride, x) {
        RowsAreCells(start, width, height, stride, x);
      }
    }
  }

  lemma NothingDrawn(start: u32, width: u32, height: u32, stride: u32, x: int)
    requires stride > 0 && (width == 0 || height == 0)
    ensures x !in WrappedRows(start, width, height, stride) && !InRectangle(start, width, height, stride, x)
  {
  }

  lemma DrawnIsSmall(start: u32, width: u32, height: u32, stride: u32, x: int)
    ensures x in WrappedRows(start, width, height, stride) ==> 0 <= x < 0x1_0000_0000
  {
  }

  /** The rows of the unbounded grid are the cells, when none runs over the edge. */
  lemma RowsAreCells(start: u32, width: u32, height: u32, stride: u32, x: int)
    requires stride > 0 && start % stride + width <= stride
    ensures InRows(start, width, height, stride, x) <==> InRectangle(start, width, height, stride, x)
  {
    hide InRow;
    if InRows(start, width, height, stride, x) {
      var i :| 0 <= i < height && InRow(start, width, stride, i, x);
      RowIs(start, width, stride, i, x);
    }
    RowIs(start, width, stride, x / stride - start / stride, x);
  }

  /** The last cell of the last row. */
  lemma LastCell(start: u32, width: u32, height: u32, stride: u32, x: int)
    requires stride > 0 && width > 0 && height > 0 && start % stride + width <= stride
    requires x == start + (height - 1) * stride + width - 1
    ensures InRectangle(start, width, height, stride, x)
  {
    LastOfRow(start, width, stride, height - 1, x);
    RowsAreCells(start, width, height, stride, x);
  }

  /**
   A row that is wider than the columns left in its grid row. When the first row is drawn, it goes on into the next
   grid row, left of the rectangle. Otherwise no row is, or the rectangle has a cell beyond 32 bits.
   */
  lemma OverTheEdge(start: u32, width: u32, height: u32, stride: u32)
    requires stride > 0 && width > 0 && height > 0 && start % stride + width > stride
    requires AddGuard(start, width, height, stride) || RemoveGuard(start, width, height, stride)
    ensures !DrawsRectangle(start, width, height, stride)
  {
    hide InRectangle, WrappedRows;
    var c, r := start % stride, start / stride;
    assert start == r * stride + c;
    if start + width <= 0x1_0000_0000 {
      var x := (r + 1) * stride;
      assert x == start + (stride - c);
      FirstRowDrawn(start, width, height, stride, x);
      LeftColumn(start, width, height, stride, r + 1);
    } else if (r + height) * stride > 0x1_0000_0000 {
      var x := (r + height) * stride - 1;
      RightColumn(start, width, height, stride, x);
      DrawnIsSmall(start, width, height, stride, x);
    } else {
      CornerCell(start, width, height, stride);
      NoRowFits(start, width, height, stride, start);
    }
  }

  lemma FirstRowDrawn(start: u32, width: u32, height: u32, stride: u32, x: int)
    requires height > 0 && start <= x < start + width <= 0x1_0000_0000
    ensures x in WrappedRows(start, width, height, stride)
  {
    assert InWrappedRow(start, width, stride, 0, x);
  }

  /** Column 0 is no column of a rectangle that starts further right. */
  lemma LeftColumn(start: u32, width: u32, height: u32, stride: u32, k: int)
    requires stride > 0 && start % stride > 0
    ensures !InRectangle(start, width, height, stride, k * stride)
  {
    Cell(k, stride, 0, k * stride);
  }

  lemma RightColumn(start: u32, width: u32, height: u32, stride: u32, x: int)
    requires stride > 0 && height > 0 && start % stride + width > stride && x == (start / stride + height) * stride - 1
    ensures InRectangle(start, width, height, stride, x)
  {
    var k := start / stride + height - 1;
    assert x == k * stride + (stride - 1);
    Cell(k, stride, stride - 1, x);
  }

  lemma CornerCell(start: u32, width: u32, height: u32, stride: u32)
    requires stride > 0 && width > 0 && height > 0
    ensures InRectangle(start, width, height, stride, start)
  {
  }

  /** When the first row does not fit into 32 bits and no row starts beyond them, none fits. */
  lemma NoRowFits(start: u32, width: u32, height: u32, stride: u32, x: int)
    requires stride > 0 && start + width > 0x1_0000_0000 && (start / stride + height) * stride <= 0x1_0000_0000
    ensures x !in WrappedRows(start, width, height, stride)
  {
    forall i | 0 <= i < height ensures !InWrappedRow(start, width, stride, i, x) {
      RowStartsInside(start, height, stride, i);
      RowDoesNotFit(start, width, stride, i, x);
    }
  }

  lemma RowStartsInside(start: u32, height: u32, stride: u32, i: int)
    requires stride > 0 && (start / stride + height) * stride <= 0x1_0000_0000 && 0 <= i < height
    ensures 0 <= i * stride && i * stride + start < 0x1_0000_0000
  {
    var r := start / stride;
    RowStart(r, i, stride, start);
    Multiple(height - i - 1, stride);
    assert (r + height) * stride == (r + i) * stride + stride + (height - i - 1) * stride;
  }

  lemma RowDoesNotFit(start: u32, width: u32, stride: u32, i: int, x: int)
    requires 0 <= i * stride && i * stride + start < 0x1_0000_0000 && start + width > 0x1_0000_0000
    ensures !InWrappedRow(start, width, stride, i, x)
  {
    assert (i * stride + start) % 0x1_0000_0000 == i * stride + start;
  }

  /** Accepted because `start % stride + width` wraps to 0: the row goes on through the rest of the 32 bits. */
  lemma WideRectangle()
    ensures AddGuard(5, 0xFFFF_FFFB, 1, 10) && 5 + 0xFFFF_FFFB == 0x1_0000_0000
    ensures 10 in WrappedRows(5, 0xFFFF_FFFB, 1, 10) && !InRectangle(5, 0xFFFF_FFFB, 1, 10, 10)
    ensures !DrawsRectangle(5, 0xFFFF_FFFB, 1, 10)
  {
    FirstRowDrawn(5, 0xFFFF_FFFB, 1, 10, 10);
  }

  /** Accepted for removal without any wrap: half of the row lies in the next row of the grid. */
  lemma BrokenRow()
    ensures RemoveGuard(5, 10, 1, 10) && !AddGuard(5, 10, 1, 10)
    ensures forall x :: 10 <= x < 15 ==> x in WrappedRows(5, 10, 1, 10) && !InRectangle(5, 10, 1, 10, x)
    ensures !DrawsRectangle(5, 10, 1, 10)
  {
    forall x | 10 <= x < 15 ensures x in WrappedRows(5, 10, 1, 10) { FirstRowDrawn(5, 10, 1, 10, x); }
    assert 10 in WrappedRows(5, 10, 1, 10);
  }

  lemma RowStart(r: int, i: int, stride: int, start: int)
    requires stride > 0 && start / stride == r
    ensures start + i * stride == (r + i) * stride + start % stride
  {
  }

  lemma Cell(row: int, stride: int, column: int, x: int)
    requires stride > 0 && 0 <= column < stride && x == row * stride + column
    ensures x / stride == row && x % stride == column
  {
    var q := x / stride;
    assert x == q * stride + x % stride;
    Multiple(q - row, stride);
    assert (q - row) * stride == q * stride - row * stride;
  }

  lemma Multiple(k: int, stride: int)
    requires stride > 0
    ensures k > 0 ==> k * stride >= stride
    ensures k < 0 ==> k * stride <= -stride
  {
  }

  /** A set operation of a bitset with itself. */
  lemma WithItself(op: Op, s: set<int>)
    ensures SetOp(op, s, s) == if op == XorOp || op == AndNotOp then {} else s
  {
  }
}
