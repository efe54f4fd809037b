/** The geometry of the terminal interface (tui.go): scroll positions, rectangles, clipped
    viewports, the vertical split and the scroll area. Drawing itself goes to the
    terminal, which is outside the model: a write is modelled as the absolute screen cell
    it reaches, or `None` when a viewport clips it. */
module Tui {
  import opened Wrappers

  /** A screen cell, column then row. */
  datatype Point = Point(x: int, y: int)

  /** A rectangle: its corner relative to the surface it is drawn on, and its size. */
  datatype Rect = Rect(x: int, y: int, width: int, height: int)

  /** A scrollable list: the first visible row and the number of rows of content. */
  datatype ScrollArea = ScrollArea(position: int, scrollHeight: int)

  /** `ScrollUp`: one row up, but never above the first row. */
  function ScrollUp(a: ScrollArea): (r: ScrollArea)
    ensures r.scrollHeight == a.scrollHeight
    ensures r.position >= 0
    ensures a.position >= 1 ==> r.position == a.position - 1
    ensures a.position <= 1 ==> r.position == 0
  {
    var p := a.position - 1;
    a.(position := if p < 0 then 0 else p)
  }

  /** `ScrollDown`: one row down, but never past the last row of content. With no content
      at all the position drops to -1. */
  function ScrollDown(a: ScrollArea): (r: ScrollArea)
    ensures r.scrollHeight == a.scrollHeight
    ensures r.position <= a.scrollHeight - 1
    ensures a.position < a.scrollHeight - 1 ==> r.position == a.position + 1
    ensures a.position >= a.scrollHeight - 1 ==> r.position == a.scrollHeight - 1
  {
    var p := a.position + 1;
    a.(position := if p > a.scrollHeight - 1 then a.scrollHeight - 1 else p)
  }

  /** Scrolling down then up returns to the same row, away from the bottom. */
  lemma ScrollDownThenUp(a: ScrollArea)
    requires 0 <= a.position < a.scrollHeight - 1
    ensures ScrollUp(ScrollDown(a)) == a
  {
  }

  /** Scrolling up then down returns to the same row, away from the top. */
  lemma ScrollUpThenDown(a: ScrollArea)
    requires 1 <= a.position <= a.scrollHeight - 1
    ensures ScrollDown(ScrollUp(a)) == a
  {
  }

  /** A position on a row of content stays on a row of content. */
  lemma ScrollStaysInRange(a: ScrollArea)
    requires 0 <= a.position < a.scrollHeight
    ensures 0 <= ScrollUp(a).position < a.scrollHeight
    ensures 0 <= ScrollDown(a).position < a.scrollHeight
  {
  }

  /** With no content, scrolling down leaves the position at -1; scrolling up brings it
      back to 0. */
  lemma EmptyAreaScrollsToMinusOne(a: ScrollArea)
    requires a.scrollHeight == 0 && a.position >= -1
    ensures ScrollDown(a).position == -1
    ensures ScrollUp(ScrollDown(a)).position == 0
  {
  }

  /** `RectContains`: the rectangle includes its top and left edges and excludes its bottom
      and right ones. */
  function RectContains(rect: Rect, p: Point): (r: bool)
    ensures r ==> rect.width > 0 && rect.height > 0
    ensures r <==> 0 <= p.x - rect.x < rect.width && 0 <= p.y - rect.y < rect.height
  {
    rect.x <= p.x < rect.x + rect.width && rect.y <= p.y < rect.y + rect.height
  }

  /** Moving a rectangle and a point by the same offset does not change containment. */
  lemma RectContainsShift(rect: Rect, p: Point, dx: int, dy: int)
    ensures RectContains(rect.(x := rect.x + dx, y := rect.y + dy), Point(p.x + dx, p.y + dy))
            == RectContains(rect, p)
  {
  }

  /** A viewport: a rectangle drawn on a surface. The surface is the terminal itself when
      `parents` is empty; otherwise it is the viewport whose own rectangle is the last of
      `parents`, drawn on the surface the earlier ones describe. */
  datatype ViewPort = ViewPort(parents: seq<Rect>, rect: Rect)

  /** `AsViewPort`: the whole terminal of the given size. */
  function AsViewPort(width: int, height: int): (v: ViewPort)
    ensures v.parents == [] && v.rect.x == 0 && v.rect.y == 0
    ensures v.rect.width == width && v.rect.height == height
  {
    ViewPort([], Rect(0, 0, width, height))
  }

  /** On the whole terminal a write lands at its own coordinates, exactly when it lies
      within the terminal's size. */
  lemma TerminalWrites(width: int, height: int, x: int, y: int)
    ensures SetContent(AsViewPort(width, height), x, y)
            == if 0 <= x < width && 0 <= y < height then Some(Point(x, y)) else None
  {
  }

  /** `MakeViewPort` on a viewport: a rectangle drawn through `v`. A write through it is
      clipped to `rect`, shifted by its corner and written through `v`. */
  function Within(v: ViewPort, rect: Rect): (c: ViewPort)
    ensures c.rect == rect
    ensures forall x, y :: SetContent(c, x, y)
              == if 0 <= x < rect.width && 0 <= y < rect.height
                 then SetContent(v, x + rect.x, y + rect.y) else None
  {
    var c := ViewPort(v.parents + [v.rect], rect);
    forall x, y ensures SetContent(c, x, y)
              == if 0 <= x < rect.width && 0 <= y < rect.height
                 then SetContent(v, x + rect.x, y + rect.y) else None
    {
      NestedWrite(v, rect, x, y);
    }
    c
  }

  /** The cell a write through the surface described by `frames` reaches: each frame clips
      the write to its own size and shifts it by its own corner; the terminal takes what
      is left. */
  function Write(frames: seq<Rect>, x: int, y: int): Option<Point>
    decreases |frames|
  {
    if |frames| == 0 then Some(Point(x, y))
    else
      var r := frames[|frames| - 1];
      if x < 0 || x >= r.width || y < 0 || y >= r.height then None
      else Write(frames[..|frames| - 1], x + r.x, y + r.y)
  }

  /** `ViewPort.SetContent`: a write at (x, y) is dropped unless 0 <= x < width and
      0 <= y < height, and is otherwise passed to the surface at (x + X, y + Y). */
  function SetContent(v: ViewPort, x: int, y: int): (r: Option<Point>)
    ensures r.Some? ==> 0 <= x < v.rect.width && 0 <= y < v.rect.height
    ensures v.parents == [] ==>
              (r.Some? <==> (0 <= x < v.rect.width && 0 <= y < v.rect.height))
    ensures v.parents == [] && r.Some? ==> r.value == Point(x + v.rect.x, y + v.rect.y)
  {
    var frames := v.parents + [v.rect];
    assert frames[..|frames| - 1] == v.parents;
    WriteOnTerminal(v.rect, x, y);
    Write(frames, x, y)
  }

  /** A single frame drawn on the terminal clips and shifts once. */
  lemma WriteOnTerminal(r: Rect, x: int, y: int)
    ensures Write([r], x, y) == if 0 <= x < r.width && 0 <= y < r.height
                                then Some(Point(x + r.x, y + r.y)) else None
  {
    assert [r][..0] == [];
  }

  /** A write through a viewport drawn on the terminal lands exactly when the cell it
      reaches lies in the viewport's rectangle. */
  lemma SetContentLandsInRect(v: ViewPort, x: int, y: int)
    requires v.parents == []
    ensures SetContent(v, x, y).Some? <==> RectContains(v.rect, Point(x + v.rect.x, y + v.rect.y))
  {
  }

  /** A write through a viewport drawn on another is clipped by the child, then shifted
      by the child's corner and written through the parent. */
  lemma NestedWrite(v: ViewPort, rect: Rect, x: int, y: int)
    ensures SetContent(ViewPort(v.parents + [v.rect], rect), x, y)
              == if 0 <= x < rect.width && 0 <= y < rect.height
                 then SetContent(v, x + rect.x, y + rect.y) else None
  {
    var frames := v.parents + [v.rect] + [rect];
    assert frames[..|frames| - 1] == v.parents + [v.rect];
  }

  /** The box-drawing characters of the divider. */
  const LineH: char := '\U{2501}'
  const LineV: char := '\U{2503}'
  const TreeR: char := '\U{2523}'
  const TreeL: char := '\U{252B}'
  const Cross: char := '\U{254B}'

  /** The directions a box-drawing character reaches out to; none for any other
      character. */
  datatype Arm = Up | Down | Left | Right

  function Arms(c: char): set<Arm>
  {
    if c == LineH then {Left, Right}
    else if c == LineV then {Up, Down}
    else if c == TreeR then {Up, Down, Right}
    else if c == TreeL then {Up, Down, Left}
    else if c == Cross then {Up, Down, Left, Right}
    else {}
  }

  /** The left end of a divider: a vertical line there becomes a tee to the right, a tee
      to the left becomes a cross, and anything else is overwritten by the plain line. */
  function DividerLeft(existing: char): (c: char)
    ensures existing == LineV ==> c == TreeR
    ensures existing == TreeL ==> c == Cross
    ensures existing != LineV && existing != TreeL ==> c == LineH
  {
    if existing == LineV then TreeR else if existing == TreeL then Cross else LineH
  }

  /** The right end of a divider, mirrored: a vertical line becomes a tee to the left, a
      tee to the right becomes a cross, and anything else the plain line. */
  function DividerRight(existing: char): (c: char)
    ensures existing == LineV ==> c == TreeL
    ensures existing == TreeR ==> c == Cross
    ensures existing != LineV && existing != TreeR ==> c == LineH
  {
    if existing == LineV then TreeL else if existing == TreeR then Cross else LineH
  }

  /** Each end of the divider reaches inwards, and where it meets a vertical line that is
      open on the inner side it keeps every arm already drawn and adds the inward one. */
  lemma DividerJoins(existing: char)
    ensures Right in Arms(DividerLeft(existing)) && Left in Arms(DividerRight(existing))
    ensures Arms(existing) == {Up, Down} || Arms(existing) == {Up, Down, Left} ==>
              Arms(DividerLeft(existing)) == Arms(existing) + {Right}
    ensures Arms(existing) == {Up, Down} || Arms(existing) == {Up, Down, Right} ==>
              Arms(DividerRight(existing)) == Arms(existing) + {Left}
  {
  }

  /** The cells the divider writes on row `at`: both ends, then the columns between. */
  function DividerCells(width: int, at: int): (cells: seq<Point>)
    ensures forall k :: 0 <= k < |cells| ==> cells[k].y == at
    ensures forall i :: 0 <= i < width ==> Point(i, at) in cells
    ensures width >= 1 ==> forall k :: 0 <= k < |cells| ==> 0 <= cells[k].x < width
  {
    var between := seq(if width > 2 then width - 2 else 0, i requires 0 <= i => Point(i + 1, at));
    assert forall i :: 1 <= i < width - 1 ==> between[i - 1] == Point(i, at);
    [Point(0, at), Point(width - 1, at)] + between
  }

  /** `SplitV` as written: both parts copy the whole rectangle of `v`, corner included,
      and are then drawn through `v`, so they are shifted by `v`'s corner twice. */
  function SplitVAsWritten(v: ViewPort, at: int): (r: (ViewPort, ViewPort))
    ensures r.0.rect.height == at && r.1.rect.y == at + 1
    ensures r.0.rect.height + 1 + r.1.rect.height == v.rect.height
  {
    var rect := v.rect;
    (Within(v, rect.(height := at)), Within(v, rect.(y := at + 1, height := rect.height - at - 1)))
  }

  /** `SplitV` as evidently intended: the top part is rows [0, at) of `v`, the divider is
      row `at` and the bottom part is the rows below it, all relative to `v`. */
  function SplitV(v: ViewPort, at: int): (r: (ViewPort, ViewPort))
    ensures r.0.rect == Rect(0, 0, v.rect.width, at)
    ensures r.1.rect == Rect(0, at + 1, v.rect.width, v.rect.height - at - 1)
    ensures r.0.rect.height + 1 + r.1.rect.height == v.rect.height
  {
    (Within(v, Rect(0, 0, v.rect.width, at)),
     Within(v, Rect(0, at + 1, v.rect.width, v.rect.height - at - 1)))
  }

  /** The split tiles `v`: a cell of `v` above the divider is the same cell of the top
      part, and one below it is the cell `at + 1` rows higher in the bottom part. */
  lemma SplitTiles(v: ViewPort, at: int, x: int, y: int)
    requires 0 <= at < v.rect.height && 0 <= x < v.rect.width && 0 <= y < v.rect.height
    ensures y < at ==> SetContent(SplitV(v, at).0, x, y) == SetContent(v, x, y)
    ensures y > at ==> SetContent(SplitV(v, at).1, x, y - at - 1) == SetContent(v, x, y)
    ensures y == at ==> Point(x, y) in DividerCells(v.rect.width, at)
  {
    var (top, bottom) := SplitV(v, at);
    NestedWrite(v, top.rect, x, y);
    NestedWrite(v, bottom.rect, x, y - at - 1);
  }

  /** The split parts never reach outside `v`: every write through them is a write
      through `v` at a cell of `v`. */
  lemma SplitStaysInside(v: ViewPort, at: int, x: int, y: int)
    requires 0 <= at
    ensures SetContent(SplitV(v, at).0, x, y).Some? ==> SetContent(SplitV(v, at).0, x, y) == SetContent(v, x, y)
    ensures SetContent(SplitV(v, at).1, x, y).Some? ==> SetContent(SplitV(v, at).1, x, y) == SetContent(v, x, y + at + 1)
  {
    var (top, bottom) := SplitV(v, at);
    NestedWrite(v, top.rect, x, y);
    NestedWrite(v, bottom.rect, x, y);
  }

  /** On the whole terminal, whose corner is the origin, the split as written is the
      intended one: only viewports away from the origin are shifted twice. */
  lemma SplitAtOriginAgrees(width: int, height: int, at: int, x: int, y: int)
    ensures SetContent(SplitVAsWritten(AsViewPort(width, height), at).0, x, y)
              == SetContent(SplitV(AsViewPort(width, height), at).0, x, y)
    ensures SetContent(SplitVAsWritten(AsViewPort(width, height), at).1, x, y)
              == SetContent(SplitV(AsViewPort(width, height), at).1, x, y)
  {
    var v := AsViewPort(width, height);
    assert SplitVAsWritten(v, at) == SplitV(v, at);
  }

  /** A split of a viewport 5 rows down the terminal: the top part's last row lands in
      the bottom part of the split. */
  lemma SplitAwayFromOriginOverlaps()
    ensures SetContent(SplitVAsWritten(ViewPort([], Rect(0, 5, 80, 20)), 10).0, 0, 9)
              == Some(Point(0, 19))
    ensures SetContent(SplitVAsWritten(ViewPort([], Rect(0, 5, 80, 20)), 10).1, 0, 3)
              == Some(Point(0, 19))
  {
    var v := ViewPort([], Rect(0, 5, 80, 20));
    var (top, bottom) := SplitVAsWritten(v, 10);
    NestedWrite(v, top.rect, 0, 9);
    NestedWrite(v, bottom.rect, 0, 3);
  }

  /** A mouse event: where it happened and which wheel directions it carries. */
  datatype MouseEvent = MouseEvent(position: Point, wheelUp: bool, wheelDown: bool)

  /** `IMScrollArea`: a wheel event inside the viewport scrolls up, then down; content
      taller than the viewport gets a scroll bar in the last column, and the viewport
      returned for the content is one column narrower. */
  function ScrollAreaFrame(area: ScrollArea, v: ViewPort, event: Option<MouseEvent>): (r: (ScrollArea, ViewPort))
    ensures r.0.scrollHeight == area.scrollHeight
    ensures !(event.Some? && RectContains(v.rect, event.value.position)) ==> r.0 == area
    ensures r.1.parents == v.parents && r.1.rect.(width := v.rect.width) == v.rect
    ensures (r.1.rect.width == v.rect.width) <==> area.scrollHeight <= v.rect.height
    ensures area.scrollHeight > v.rect.height ==> r.1.rect.width == v.rect.width - 1
  {
    var scrolled :=
      if event.Some? && RectContains(v.rect, event.value.position) then
        var up := if event.value.wheelUp then ScrollUp(area) else area;
        if event.value.wheelDown then ScrollDown(up) else up
      else area;
    if area.scrollHeight <= v.rect.height then (scrolled, v)
    else (scrolled, v.(rect := v.rect.(width := v.rect.width - 1)))
  }

  /** The content never reaches the scroll bar: a write through the narrowed viewport is
      the same write through the original one, left of its last column. */
  lemma ContentAvoidsScrollBar(area: ScrollArea, v: ViewPort, event: Option<MouseEvent>, x: int, y: int)
    requires area.scrollHeight > v.rect.height
    ensures SetContent(ScrollAreaFrame(area, v, event).1, x, y).Some? ==>
              x < v.rect.width - 1
              && SetContent(ScrollAreaFrame(area, v, event).1, x, y) == SetContent(v, x, y)
  {
    var inner := ScrollAreaFrame(area, v, event).1;
    var frames := v.parents + [inner.rect];
    assert frames[..|frames| - 1] == v.parents;
    var outer := v.parents + [v.rect];
    assert outer[..|outer| - 1] == v.parents;
  }

  /** The file list takes two rows per file. */
  function FilesScrollHeight(fileCount: nat): nat
  {
    fileCount * 2
  }

  /** The file list gets a scroll bar exactly when its two rows per file overflow the
      viewport. */
  lemma FileListScrollBar(position: int, fileCount: nat, v: ViewPort)
    ensures (ScrollAreaFrame(ScrollArea(position, FilesScrollHeight(fileCount)), v, None).1.rect.width
               == v.rect.width - 1) <==> 2 * fileCount > v.rect.height
  {
  }

  /** A wheel-down event inside a viewport over a scrolled list moves it one row, and
      one outside leaves it where it is. */
  lemma WheelScrollsOnlyInside(area: ScrollArea, v: ViewPort, at: Point)
    requires 0 <= area.position < area.scrollHeight - 1
    ensures RectContains(v.rect, at) ==>
              ScrollAreaFrame(area, v, Some(MouseEvent(at, false, true))).0.position == area.position + 1
    ensures !RectContains(v.rect, at) ==>
              ScrollAreaFrame(area, v, Some(MouseEvent(at, false, true))).0 == area
  {
  }
}
