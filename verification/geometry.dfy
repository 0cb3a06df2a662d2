/** Grid geometry: the vertical time axis, the day columns and the class
    cells.  Pixel arithmetic is exact (`real`), `Math.round` is floor of
    x + 1/2, and `Math.floor`/`Math.ceil` are the real floor and ceiling. */
module Geometry {
  import opened TimeStrings
  import opened Days
  import opened Classes
  import opened Hours

  /** Height of the day-label header, in pixels. */
  const HeaderHeight: int := 40
  /** Width of the hour-label column left of the day columns, in pixels. */
  const AxisWidth: int := 40
  /** Smallest height a class cell is drawn with. */
  const MinCellHeight: real := 12.0

  function Floor(x: real): (n: int)
    ensures n as real <= x < n as real + 1.0
  {
    x.Floor
  }

  function Ceil(x: real): (n: int)
    ensures x <= n as real < x + 1.0
  {
    -((-x).Floor)
  }

  /** `Math.round`: to the nearest integer, halves upwards. */
  function Round(x: real): (n: int)
    ensures x - 0.5 < n as real <= x + 0.5
  {
    (x + 0.5).Floor
  }

  /** The ends of the time axis: the first and last shown hour. */
  datatype Axis = Axis(firstHour: int, lastHour: int, gridHeight: int)

  /** `firstHour`/`lastHour` of `sortedHours`, which the app only reads when
      at least one hour is shown. */
  function AxisOf(visibleHours: seq<int>, gridHeight: int): (ax: Axis)
    requires |visibleHours| > 0
    ensures ax.gridHeight == gridHeight
    ensures ax.firstHour in visibleHours && ax.lastHour in visibleHours
    ensures forall h :: h in visibleHours ==> ax.firstHour <= h <= ax.lastHour
  {
    var sorted := SortedHours(visibleHours);
    SortedEnds(visibleHours);
    Axis(sorted[0], sorted[|sorted| - 1], gridHeight)
  }

  lemma SortedEnds(visibleHours: seq<int>)
    requires |visibleHours| > 0
    ensures var s := SortedHours(visibleHours);
      && s[0] in visibleHours && s[|s| - 1] in visibleHours
      && forall h :: h in visibleHours ==> s[0] <= h <= s[|s| - 1]
  {
    var s := SortedHours(visibleHours);
    assert s[0] in multiset(s) && s[|s| - 1] in multiset(s);
    forall h | h in visibleHours ensures s[0] <= h <= s[|s| - 1] {
      assert h in multiset(visibleHours);
      var m :| 0 <= m < |s| && s[m] == h;
    }
  }

  /** Pixels per minute of the axis. */
  function Slope(ax: Axis): real
    requires ax.firstHour <= ax.lastHour
  {
    (ax.gridHeight - HeaderHeight) as real / ((ax.lastHour + 1 - ax.firstHour) * 60) as real
  }

  /** `timeToY`: the y coordinate of a minute of the day, linear between the
      top of the first shown hour and the end of the last. */
  function TimeToY(ax: Axis, mins: int): (y: real)
    requires ax.firstHour <= ax.lastHour
    ensures mins == ax.firstHour * 60 ==> y == HeaderHeight as real
    ensures mins == (ax.lastHour + 1) * 60 ==> y == ax.gridHeight as real
    ensures ax.gridHeight >= HeaderHeight && ax.firstHour * 60 <= mins <= (ax.lastHour + 1) * 60 ==>
      HeaderHeight as real <= y <= ax.gridHeight as real
  {
    var minutesSinceStart := mins - ax.firstHour * 60;
    var totalMinutes := (ax.lastHour + 1 - ax.firstHour) * 60;
    TimeToYBounds(minutesSinceStart as real, totalMinutes as real, (ax.gridHeight - HeaderHeight) as real);
    HeaderHeight as real + (minutesSinceStart as real / totalMinutes as real) * (ax.gridHeight - HeaderHeight) as real
  }

  /** The fraction of the axis covered, scaled to the drawing height. */
  lemma TimeToYBounds(a: real, t: real, g: real)
    requires t > 0.0
    ensures a == 0.0 ==> (a / t) * g == 0.0
    ensures a == t ==> (a / t) * g == g
    ensures g >= 0.0 && 0.0 <= a <= t ==> 0.0 <= (a / t) * g <= g
  {
    var f := a / t;
    assert f * t == a;
    if a == t {
      assert (f - 1.0) * t == 0.0;
      assert f == 1.0;
    }
    if 0.0 <= a <= t {
      ProductSign(f, t);
      ProductSign(f - 1.0, t);
      assert 0.0 <= f <= 1.0;
      if g >= 0.0 {
        assert f * g <= 1.0 * g;
      }
    }
  }

  /** Multiplying by a positive number keeps the sign. */
  lemma ProductSign(x: real, t: real)
    requires t > 0.0
    ensures x < 0.0 ==> x * t < 0.0
    ensures x > 0.0 ==> x * t > 0.0
  {
  }

  /** The axis is affine in minutes: moving `d` minutes moves `d` slopes. */
  lemma TimeToYAffine(ax: Axis, m: int, d: int)
    requires ax.firstHour <= ax.lastHour
    ensures TimeToY(ax, m + d) == TimeToY(ax, m) + d as real * Slope(ax)
  {
    var t := ((ax.lastHour + 1 - ax.firstHour) * 60) as real;
    var g := (ax.gridHeight - HeaderHeight) as real;
    var a := (m - ax.firstHour * 60) as real;
    assert ((m + d) - ax.firstHour * 60) as real == a + d as real;
    assert (a + d as real) / t * g == a / t * g + d as real * (g / t);
  }

  lemma TimeToYMonotone(ax: Axis, m1: int, m2: int)
    requires ax.firstHour <= ax.lastHour
    requires ax.gridHeight >= HeaderHeight
    requires m1 <= m2
    ensures TimeToY(ax, m1) <= TimeToY(ax, m2)
  {
    TimeToYAffine(ax, m1, m2 - m1);
    assert Slope(ax) >= 0.0;
    assert (m2 - m1) as real * Slope(ax) >= 0.0;
  }

  /** Every hour label sits inside the drawing area below the header. */
  lemma HourLabelsInside(visibleHours: seq<int>, gridHeight: int, h: int)
    requires |visibleHours| > 0 && h in visibleHours
    requires gridHeight >= HeaderHeight
    ensures var ax := AxisOf(visibleHours, gridHeight);
      0.0 <= TimeToY(ax, h * 60) - HeaderHeight as real <= (gridHeight - HeaderHeight) as real
  {
    var ax := AxisOf(visibleHours, gridHeight);
    TimeToYMonotone(ax, ax.firstHour * 60, h * 60);
    TimeToYMonotone(ax, h * 60, (ax.lastHour + 1) * 60);
  }

  /** Example: hours 9 and 10 on a 700-pixel grid put a 09:00-10:00 class
      from the header bottom (40) to halfway down the drawing area (370). */
  lemma TimeToYExample()
    ensures TimeToY(AxisOf([9, 10], 700), 540) == 40.0
    ensures TimeToY(AxisOf([9, 10], 700), 600) == 370.0
  {
    var ax := AxisOf([9, 10], 700);
    assert ax.firstHour == 9 && ax.lastHour == 10;
  }

  /** `(gridWidth - 40) / numDays`. */
  function ColWidth(gridWidth: int, numDays: int): (c: real)
    requires numDays > 0
    ensures c * numDays as real == (gridWidth - AxisWidth) as real
  {
    (gridWidth - AxisWidth) as real / numDays as real
  }

  /** `Math.round(colWidth * dayIdx)`. */
  function ColumnLeft(gridWidth: int, numDays: int, dayIdx: int): (left: int)
    requires numDays > 0
    ensures ColWidth(gridWidth, numDays) * dayIdx as real - 0.5 < left as real <= ColWidth(gridWidth, numDays) * dayIdx as real + 0.5
  {
    Round(ColWidth(gridWidth, numDays) * dayIdx as real)
  }

  /** `Math.ceil(colWidth)` for the last column, `Math.floor(colWidth)` for
      the others. */
  function ColumnWidth(gridWidth: int, numDays: int, dayIdx: int): (width: int)
    requires numDays > 0
    ensures dayIdx == numDays - 1 ==>
      ColWidth(gridWidth, numDays) <= width as real < ColWidth(gridWidth, numDays) + 1.0
    ensures dayIdx != numDays - 1 ==>
      width as real <= ColWidth(gridWidth, numDays) < width as real + 1.0
  {
    if dayIdx == numDays - 1 then Ceil(ColWidth(gridWidth, numDays))
    else Floor(ColWidth(gridWidth, numDays))
  }

  lemma FloorAdd(a: real, b: real)
    ensures Floor(a) + Floor(b) <= Floor(a + b) <= Floor(a) + Floor(b) + 1
  {
  }

  /** Neighbouring columns never overlap, and leave at most one pixel between
      them. */
  lemma ColumnsDoNotOverlap(gridWidth: int, numDays: int, i: int)
    requires 0 <= i && i + 1 < numDays
    ensures ColumnLeft(gridWidth, numDays, i) + ColumnWidth(gridWidth, numDays, i)
      <= ColumnLeft(gridWidth, numDays, i + 1)
      <= ColumnLeft(gridWidth, numDays, i) + ColumnWidth(gridWidth, numDays, i) + 1
  {
    var c := ColWidth(gridWidth, numDays);
    assert c * (i + 1) as real == c * i as real + c;
    FloorAdd(c * i as real + 0.5, c);
  }

  lemma FirstColumnAtZero(gridWidth: int, numDays: int)
    requires numDays > 0
    ensures ColumnLeft(gridWidth, numDays, 0) == 0
  {
  }

  /** The right edge of the last column reaches the right edge of the grid,
      overshooting by at most one pixel. */
  lemma LastColumnReachesEdge(gridWidth: int, numDays: int)
    requires numDays > 0
    ensures var right := ColumnLeft(gridWidth, numDays, numDays - 1) + ColumnWidth(gridWidth, numDays, numDays - 1);
      gridWidth - AxisWidth <= right <= gridWidth - AxisWidth + 1
  {
    var c := ColWidth(gridWidth, numDays);
    var w := (gridWidth - AxisWidth) as real;
    assert c * numDays as real == w;
    assert c * (numDays - 1) as real + c == w;
  }

  /** Example: seven columns on a 400-pixel grid are 51 pixels wide except
      the last (52), the last starts at 309, and so ends one pixel past the
      360 available: the widths add up to 358, not 360. */
  lemma ColumnExample()
    ensures ColumnWidth(400, 7, 0) == 51 && ColumnWidth(400, 7, 6) == 52
    ensures ColumnLeft(400, 7, 6) == 309
    ensures 6 * ColumnWidth(400, 7, 0) + ColumnWidth(400, 7, 6) == 358
  {
    var c := ColWidth(400, 7);
    assert c == 360.0 / 7.0;
    assert 51.0 <= c < 52.0;
    assert 309.0 <= c * 6.0 + 0.5 < 310.0;
  }

  /** `classes.filter(c => c.days.includes(day))`. */
  function OnDay(classes: seq<ClassEntry>, day: DayId): (r: seq<ClassEntry>)
    requires AllWellFormed(classes)
    ensures AllWellFormed(r)
    ensures forall c :: c in r <==> c in classes && day in c.days
  {
    if |classes| == 0 then []
    else if day in classes[0].days then [classes[0]] + OnDay(classes[1..], day)
    else OnDay(classes[1..], day)
  }

  predicate SortedByStart(cs: seq<ClassEntry>)
    requires AllWellFormed(cs)
  {
    forall i, j :: 0 <= i < j < |cs| ==> StartMins(cs[i]) <= StartMins(cs[j])
  }

  /** The classes of `cs` that start at minute `k`, in their order in `cs`. */
  function StartingAt(cs: seq<ClassEntry>, k: int): (r: seq<ClassEntry>)
    requires AllWellFormed(cs)
  {
    if |cs| == 0 then []
    else (if StartMins(cs[0]) == k then [cs[0]] else []) + StartingAt(cs[1..], k)
  }

  /** Puts `c` before the first class that does not start earlier. */
  function InsertByStart(c: ClassEntry, s: seq<ClassEntry>): (r: seq<ClassEntry>)
    requires WellFormed(c) && AllWellFormed(s) && SortedByStart(s)
    ensures |r| == |s| + 1
    ensures forall x :: x in r <==> x == c || x in s
    ensures AllWellFormed(r) && SortedByStart(r)
    ensures multiset(r) == multiset(s) + multiset{c}
  {
    if |s| == 0 || StartMins(c) <= StartMins(s[0]) then
      ConsSortedByStart(c, s);
      [c] + s
    else
      var tail := s[1..];
      assert s == [s[0]] + tail;
      var t := InsertByStart(c, tail);
      HeadStartsFirst(s, c, t);
      ConsSortedByStart(s[0], t);
      [s[0]] + t
  }

  /** A class no later than every class of a sorted list can go in front. */
  lemma ConsSortedByStart(h: ClassEntry, t: seq<ClassEntry>)
    requires WellFormed(h) && AllWellFormed(t) && SortedByStart(t)
    requires |t| == 0 || StartMins(h) <= StartMins(t[0])
    ensures AllWellFormed([h] + t) && SortedByStart([h] + t)
  {
    var r := [h] + t;
    assert forall k :: 0 < k < |r| ==> r[k] == t[k - 1];
  }

  /** The head of a sorted list is no later than anything `c` (which starts
      after it) and the rest of the list hold. */
  lemma HeadStartsFirst(s: seq<ClassEntry>, c: ClassEntry, t: seq<ClassEntry>)
    requires WellFormed(c) && AllWellFormed(s) && SortedByStart(s) && |s| > 0
    requires StartMins(s[0]) < StartMins(c)
    requires AllWellFormed(t)
    requires forall x :: x in t <==> x == c || x in s[1..]
    ensures |t| == 0 || StartMins(s[0]) <= StartMins(t[0])
  {
    if |t| > 0 {
      assert t[0] in t;
      if t[0] != c {
        var m :| 0 <= m < |s[1..]| && s[1..][m] == t[0];
        assert s[m + 1] == t[0];
      }
    }
  }

  /** Stable ascending sort by start minute (an insertion sort). */
  function SortByStart(s: seq<ClassEntry>): (r: seq<ClassEntry>)
    requires AllWellFormed(s)
    ensures AllWellFormed(r) && SortedByStart(r)
    ensures multiset(r) == multiset(s)
  {
    if |s| == 0 then []
    else
      assert s == [s[0]] + s[1..];
      InsertByStart(s[0], SortByStart(s[1..]))
  }

  /** Inserting `c` puts it ahead of every class starting at the same minute. */
  lemma {:induction false} InsertByStartStable(c: ClassEntry, s: seq<ClassEntry>, k: int)
    requires WellFormed(c) && AllWellFormed(s) && SortedByStart(s)
    ensures StartingAt(InsertByStart(c, s), k) == (if StartMins(c) == k then [c] else []) + StartingAt(s, k)
    decreases |s|
  {
    if |s| == 0 || StartMins(c) <= StartMins(s[0]) {
      StartingAtCons(c, s, k);
    } else {
      var t := InsertByStart(c, s[1..]);
      assert InsertByStart(c, s) == [s[0]] + t;
      InsertByStartStable(c, s[1..], k);
      StableStep(s[0], c, t, s[1..], k);
      assert s == [s[0]] + s[1..];
    }
  }

  /** Putting a class that starts before `c` in front of both sides keeps
      `c` ahead of the classes starting at its minute. */
  lemma StableStep(h: ClassEntry, c: ClassEntry, t: seq<ClassEntry>, u: seq<ClassEntry>, k: int)
    requires WellFormed(h) && WellFormed(c) && AllWellFormed(t) && AllWellFormed(u)
    requires StartMins(h) < StartMins(c)
    requires StartingAt(t, k) == (if StartMins(c) == k then [c] else []) + StartingAt(u, k)
    ensures AllWellFormed([h] + t) && AllWellFormed([h] + u)
    ensures StartingAt([h] + t, k) == (if StartMins(c) == k then [c] else []) + StartingAt([h] + u, k)
  {
    StartingAtCons(h, t, k);
    StartingAtCons(h, u, k);
    var cPart := if StartMins(c) == k then [c] else [];
    var head := if StartMins(h) == k then [h] else [];
    var rest := StartingAt(u, k);
    if StartMins(h) == k {
      assert cPart == [];
      assert cPart + rest == rest && cPart + (head + rest) == head + rest;
    } else {
      assert head == [];
      assert head + (cPart + rest) == cPart + rest && head + rest == rest;
    }
  }

  lemma StartingAtCons(x: ClassEntry, t: seq<ClassEntry>, k: int)
    requires WellFormed(x) && AllWellFormed(t)
    ensures AllWellFormed([x] + t)
    ensures StartingAt([x] + t, k) == (if StartMins(x) == k then [x] else []) + StartingAt(t, k)
  {
    var r := [x] + t;
    assert forall i :: 0 < i < |r| ==> r[i] == t[i - 1];
    assert r[1..] == t;
  }

  /** The sort is stable: for each start minute, the classes starting then
      appear in the order they had. */
  lemma {:induction false} SortByStartStable(s: seq<ClassEntry>, k: int)
    requires AllWellFormed(s)
    ensures StartingAt(SortByStart(s), k) == StartingAt(s, k)
    decreases |s|
  {
    if |s| > 0 {
      SortByStartStable(s[1..], k);
      InsertByStartStable(s[0], SortByStart(s[1..]), k);
    }
  }

  /** `cellsForDay`: the classes on `day`, sorted by start. */
  function CellsForDay(classes: seq<ClassEntry>, day: DayId): (r: seq<ClassEntry>)
    requires AllWellFormed(classes)
    ensures AllWellFormed(r) && SortedByStart(r)
    ensures forall c :: c in r <==> c in classes && day in c.days
    ensures multiset(r) == multiset(OnDay(classes, day))
  {
    var r := SortByStart(OnDay(classes, day));
    assert forall c :: c in r <==> c in multiset(r);
    assert forall c :: c in OnDay(classes, day) <==> c in multiset(OnDay(classes, day));
    r
  }

  /** Classes of a day that start at the same minute are drawn in the order
      they were added. */
  lemma {:induction false} CellsForDayStable(classes: seq<ClassEntry>, day: DayId, k: int)
    requires AllWellFormed(classes)
    ensures StartingAt(CellsForDay(classes, day), k) == StartingAt(OnDay(classes, day), k)
  {
    SortByStartStable(OnDay(classes, day), k);
  }

  /** One drawn class cell; `top` is relative to the drawing area below the
      header. */
  datatype Cell = Cell(left: int, width: int, top: real, height: real, entry: ClassEntry)

  function StartY(ax: Axis, c: ClassEntry): real
    requires ax.firstHour <= ax.lastHour && WellFormed(c)
  {
    TimeToY(ax, StartMins(c)) - HeaderHeight as real
  }

  function EndY(ax: Axis, c: ClassEntry): real
    requires ax.firstHour <= ax.lastHour && WellFormed(c)
  {
    TimeToY(ax, EndMins(c)) - HeaderHeight as real
  }

  /** The cell at position `i` of a day's sorted list starts exactly where the
      previous one ends. */
  predicate BackToBack(cells: seq<ClassEntry>, i: int)
    requires AllWellFormed(cells) && 0 <= i < |cells|
  {
    i > 0 && EndMins(cells[i - 1]) == StartMins(cells[i])
  }

  /** What the drawn cell at position `i` of a day's sorted list satisfies:
      it shows that class in the given column; its top is the start line,
      pushed down one pixel exactly when the previous cell ends where this one
      starts; it is at least 12 pixels tall and reaches the end line, ending
      exactly there unless the minimum height applies. */
  predicate PlacedCell(r: Cell, cells: seq<ClassEntry>, i: int, ax: Axis, left: int, width: int)
    requires AllWellFormed(cells) && 0 <= i < |cells|
    requires ax.firstHour <= ax.lastHour
  {
    && r.entry == cells[i]
    && r.left == left && r.width == width
    && (r.top == StartY(ax, cells[i]) + 1.0 <==> BackToBack(cells, i))
    && (r.top == StartY(ax, cells[i]) <==> !BackToBack(cells, i))
    && r.height >= MinCellHeight
    && r.top + r.height >= EndY(ax, cells[i])
    && (r.height > MinCellHeight ==> r.top + r.height == EndY(ax, cells[i]))
  }

  /** One cell of the day column at position `idx`. */
  function PlaceCell(cells: seq<ClassEntry>, idx: int, ax: Axis, left: int, width: int): (r: Cell)
    requires AllWellFormed(cells) && 0 <= idx < |cells|
    requires ax.firstHour <= ax.lastHour
    ensures PlacedCell(r, cells, idx, ax, left, width)
  {
    var c := cells[idx];
    var startY := TimeToY(ax, StartMins(c)) - HeaderHeight as real;
    var endY := TimeToY(ax, EndMins(c)) - HeaderHeight as real;
    var adjustTop := if idx > 0 && EndMins(cells[idx - 1]) == StartMins(c) then 1.0 else 0.0;
    var realStartY := startY + adjustTop;
    var realHeight := if endY - realStartY > MinCellHeight then endY - realStartY else MinCellHeight;
    Cell(left, width, realStartY, realHeight, c)
  }

  /** The cells of one day column, in the day's sorted order. */
  method LayoutDay(classes: seq<ClassEntry>, day: DayId, ax: Axis,
                   gridWidth: int, numDays: int, dayIdx: int) returns (rects: seq<Cell>)
    requires AllWellFormed(classes)
    requires ax.firstHour <= ax.lastHour
    requires 0 <= dayIdx < numDays
    ensures |rects| == |CellsForDay(classes, day)|
    ensures forall i :: 0 <= i < |rects| ==>
      PlacedCell(rects[i], CellsForDay(classes, day), i, ax,
                 ColumnLeft(gridWidth, numDays, dayIdx), ColumnWidth(gridWidth, numDays, dayIdx))
  {
    var cells := CellsForDay(classes, day);
    var left := ColumnLeft(gridWidth, numDays, dayIdx);
    var width := ColumnWidth(gridWidth, numDays, dayIdx);
    rects := [];
    var idx := 0;
    while idx < |cells|
      invariant 0 <= idx <= |cells|
      invariant |rects| == idx
      invariant forall i :: 0 <= i < idx ==> PlacedCell(rects[i], cells, i, ax, left, width)
    {
      var r := PlaceCell(cells, idx, ax, left, width);
      AppendPlaced(rects, r, cells, ax, left, width);
      rects := rects + [r];
      idx := idx + 1;
    }
  }

  /** Appending the cell placed at the next position keeps every cell placed. */
  lemma AppendPlaced(rects: seq<Cell>, r: Cell, cells: seq<ClassEntry>, ax: Axis, left: int, width: int)
    requires AllWellFormed(cells) && ax.firstHour <= ax.lastHour && |rects| < |cells|
    requires forall i :: 0 <= i < |rects| ==> PlacedCell(rects[i], cells, i, ax, left, width)
    requires PlacedCell(r, cells, |rects|, ax, left, width)
    ensures forall i :: 0 <= i < |rects| + 1 ==> PlacedCell((rects + [r])[i], cells, i, ax, left, width)
  {
    forall i | 0 <= i < |rects| + 1
      ensures PlacedCell((rects + [r])[i], cells, i, ax, left, width)
    {
      if i < |rects| {
        assert (rects + [r])[i] == rects[i];
      } else {
        assert (rects + [r])[i] == r;
      }
    }
  }

  /** A laid-out column holds exactly the day's sorted classes, each placed
      in column `d` on the axis `ax` as `PlacedCell` states. */
  predicate ColumnOk(column: seq<Cell>, classes: seq<ClassEntry>, day: DayId, ax: Axis,
                     gridWidth: int, numDays: int, d: int)
    requires AllWellFormed(classes) && numDays > 0
    requires ax.firstHour <= ax.lastHour
  {
    var cells := CellsForDay(classes, day);
    && |column| == |cells|
    && forall i :: 0 <= i < |column| ==>
      && day in column[i].entry.days
      && PlacedCell(column[i], cells, i, ax, ColumnLeft(gridWidth, numDays, d), ColumnWidth(gridWidth, numDays, d))
  }

  lemma ColumnFromLayout(column: seq<Cell>, classes: seq<ClassEntry>, day: DayId, ax: Axis,
                         gridWidth: int, numDays: int, d: int)
    requires AllWellFormed(classes) && ax.firstHour <= ax.lastHour && 0 <= d < numDays
    requires |column| == |CellsForDay(classes, day)|
    requires forall i :: 0 <= i < |column| ==>
      PlacedCell(column[i], CellsForDay(classes, day), i, ax,
                 ColumnLeft(gridWidth, numDays, d), ColumnWidth(gridWidth, numDays, d))
    ensures ColumnOk(column, classes, day, ax, gridWidth, numDays, d)
  {
    var cells := CellsForDay(classes, day);
    forall i | 0 <= i < |column| ensures day in column[i].entry.days {
      assert PlacedCell(column[i], cells, i, ax, ColumnLeft(gridWidth, numDays, d), ColumnWidth(gridWidth, numDays, d));
      assert cells[i] in cells;
    }
  }

  /** The whole grid: one column of cells per selected day, in order. */
  method LayoutGrid(classes: seq<ClassEntry>, selectedDays: seq<DayId>, visibleHours: seq<int>,
                    gridWidth: int, gridHeight: int) returns (grid: seq<seq<Cell>>)
    requires AllWellFormed(classes)
    requires |visibleHours| > 0
    ensures |grid| == |selectedDays|
    ensures forall d :: 0 <= d < |grid| ==>
      ColumnOk(grid[d], classes, selectedDays[d], AxisOf(visibleHours, gridHeight), gridWidth, |selectedDays|, d)
  {
    var ax := AxisOf(visibleHours, gridHeight);
    grid := [];
    var d := 0;
    while d < |selectedDays|
      invariant 0 <= d <= |selectedDays|
      invariant |grid| == d
      invariant forall e :: 0 <= e < d ==>
        ColumnOk(grid[e], classes, selectedDays[e], ax, gridWidth, |selectedDays|, e)
    {
      var column := LayoutDay(classes, selectedDays[d], ax, gridWidth, |selectedDays|, d);
      ColumnFromLayout(column, classes, selectedDays[d], ax, gridWidth, |selectedDays|, d);
      AppendColumn(grid, column, classes, selectedDays, ax, gridWidth);
      grid := grid + [column];
      d := d + 1;
    }
  }

  /** Appending the next day's correct column keeps every column correct. */
  lemma AppendColumn(grid: seq<seq<Cell>>, column: seq<Cell>, classes: seq<ClassEntry>,
                     selectedDays: seq<DayId>, ax: Axis, gridWidth: int)
    requires AllWellFormed(classes) && ax.firstHour <= ax.lastHour && |grid| < |selectedDays|
    requires forall e :: 0 <= e < |grid| ==>
      ColumnOk(grid[e], classes, selectedDays[e], ax, gridWidth, |selectedDays|, e)
    requires ColumnOk(column, classes, selectedDays[|grid|], ax, gridWidth, |selectedDays|, |grid|)
    ensures forall e :: 0 <= e < |grid| + 1 ==>
      ColumnOk((grid + [column])[e], classes, selectedDays[e], ax, gridWidth, |selectedDays|, e)
  {
    var next := grid + [column];
    forall e | 0 <= e < |grid| + 1
      ensures ColumnOk(next[e], classes, selectedDays[e], ax, gridWidth, |selectedDays|, e)
    {
      if e < |grid| { assert next[e] == grid[e]; } else { assert next[e] == column; }
    }
  }
}
