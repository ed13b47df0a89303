// The grid the redraw events paint: a row-major vector of cells with a
// cursor, and the pure meaning of grid_resize, grid_clear,
// grid_cursor_goto, grid_scroll and grid_line on it.

module Grids {
  import opened Common
  import opened Wire
  import opened Highlights

  /** A grid cell: its text, its attributes and the byte size of its text (0 for the right half of a wide character). */
  datatype Cell = Cell(text: string, attrs: Attributes, size: nat)

  /** A value-initialised cell. */
  const EMPTY_CELL := Cell("", DEFAULT_ATTRIBUTES, 0)

  /**
   * nvim::cell(text, hlattr); before any cell of a line names a highlight
   * there is none. The cell constructor is not part of this model: a null
   * hlattr is assumed to give default attributes.
   */
  function NewCell(text: string, hl: Option<Attributes>): Cell
  {
    Cell(text, if hl.Some? then hl.value else DEFAULT_ATTRIBUTES, |text|)
  }

  /** The grid state one frame is drawn from. */
  datatype GridState = GridState(
    width: nat, height: nat, cells: seq<Cell>,
    cursorRow: nat, cursorCol: nat, cursorHidden: bool, cursorAttrs: CursorAttributes, drawTick: nat)

  const EMPTY_GRID := GridState(0, 0, [], 0, 0, false, DEFAULT_CURSOR, 0)

  /** The cells are exactly the width times height of the grid. */
  predicate WellFormed(g: GridState)
  {
    |g.cells| == g.width * g.height
  }

  /** grid::get(row, col) as an offset into the cells. */
  function Index(row: nat, col: nat, width: nat): nat
  {
    row * width + col
  }

  // ---------------------------------------------------------------------
  // Row arithmetic

  lemma MulLe(a: nat, b: nat, w: nat)
    requires a <= b
    ensures a * w <= b * w
  {
  }

  /** Every (row, col) inside the grid has an offset inside the cells, and its whole row fits. */
  lemma IndexInside(row: nat, col: nat, width: nat, height: nat)
    requires row < height && col < width
    ensures Index(row, col, width) < row * width + width <= width * height
  {
    MulLe(row + 1, height, width);
  }

  /** The offsets [dst*w + left, dst*w + right) are exactly the columns [left, right) of row dst. */
  lemma InColumns(row: nat, col: nat, dst: nat, left: nat, right: nat, w: nat)
    requires col < w && right <= w
    ensures dst * w + left <= Index(row, col, w) < dst * w + right <==> row == dst && left <= col < right
  {
    if row < dst {
      MulLe(row + 1, dst, w);
    } else if row > dst {
      MulLe(dst + 1, row, w);
    }
  }

  // ---------------------------------------------------------------------
  // grid_resize, grid_clear, grid_cursor_goto

  /** std::vector::resize: the prefix that fits is kept, new cells are value-initialised. */
  function Resized(cells: seq<Cell>, n: nat): (r: seq<Cell>)
    ensures |r| == n
    ensures forall k :: 0 <= k < n ==> r[k] == if k < |cells| then cells[k] else EMPTY_CELL
  {
    if n <= |cells| then cells[..n] else cells + seq(n - |cells|, _ => EMPTY_CELL)
  }

  function ResizeOf(g: GridState, width: nat, height: nat): (r: GridState)
    ensures WellFormed(r)
  {
    g.(width := width, height := height, cells := Resized(g.cells, width * height))
  }

  /** The cell grid_clear fills the grid with: empty, with the default group's background. */
  function ClearedCell(table: seq<Attributes>): Cell
    requires |table| > 0
  {
    Cell("", DEFAULT_ATTRIBUTES.(background := table[0].background), 0)
  }

  function ClearOf(g: GridState, table: seq<Attributes>): GridState
    requires |table| > 0
  {
    g.(cells := seq(|g.cells|, _ => ClearedCell(table)))
  }

  /** grid_cursor_goto: the cursor moves only to a position inside the grid. */
  function CursorGotoOf(g: GridState, row: nat, col: nat): (r: GridState)
    ensures r.cells == g.cells
    ensures row < g.height && col < g.width ==> r.cursorRow == row && r.cursorCol == col
    ensures !(row < g.height && col < g.width) ==> r == g
  {
    if row >= g.height || col >= g.width then g else g.(cursorRow := row, cursorCol := col)
  }

  // ---------------------------------------------------------------------
  // grid_scroll

  /** memcpy of columns [left, right) of row src over the same columns of row dst. */
  function CopyRow(cells: seq<Cell>, w: nat, dst: nat, src: nat, left: nat, right: nat): (r: seq<Cell>)
    requires left <= right <= w && (dst + 1) * w <= |cells| && (src + 1) * w <= |cells|
    ensures |r| == |cells|
  {
    seq(|cells|, k requires 0 <= k < |cells| =>
      if dst * w + left <= k < dst * w + right then cells[k - dst * w + src * w] else cells[k])
  }

  /** What copying row src over row dst does to the cell at (row, col). */
  lemma CopyRowAt(cells: seq<Cell>, w: nat, h: nat, dst: nat, src: nat, left: nat, right: nat, row: nat, col: nat)
    requires |cells| == w * h && left <= right <= w && dst < h && src < h && row < h && col < w
    ensures (dst + 1) * w <= |cells| && (src + 1) * w <= |cells|
    ensures Index(row, col, w) < |cells| && Index(src, col, w) < |cells|
    ensures CopyRow(cells, w, dst, src, left, right)[Index(row, col, w)] ==
      if row == dst && left <= col < right then cells[Index(src, col, w)] else cells[Index(row, col, w)]
  {
    MulLe(dst + 1, h, w);
    MulLe(src + 1, h, w);
    IndexInside(row, col, w, h);
    IndexInside(src, col, w, h);
    InColumns(row, col, dst, left, right, w);
  }

  /** Rows dst, dst+step, ... reached in count steps, all inside the grid. */
  predicate RowsInside(start: int, step: int, count: nat, h: nat)
  {
    if step == 1 then 0 <= start && start + count <= h else 0 <= start + 1 - count && start < h
  }

  /**
   * grid_scroll's copy loop: count rows, from dst and src onwards in
   * steps of step (1 scrolling up, -1 scrolling down), each row's columns
   * [left, right) copied from the source row.
   */
  function CopyRows(cells: seq<Cell>, w: nat, h: nat, dst: int, src: int, step: int, count: nat, left: nat, right: nat): (r: seq<Cell>)
    requires |cells| == w * h && left <= right <= w && (step == 1 || step == -1)
    requires RowsInside(dst, step, count, h) && RowsInside(src, step, count, h)
    ensures |r| == |cells|
    decreases count
  {
    if count == 0 then cells
    else
      MulLe(dst + 1, h, w);
      MulLe(src + 1, h, w);
      CopyRows(CopyRow(cells, w, dst, src, left, right), w, h, dst + step, src + step, step, count - 1, left, right)
  }

  /** Whether row lies among the count rows from dst in direction step. */
  predicate Copied(row: int, dst: int, step: int, count: nat)
  {
    if step == 1 then dst <= row < dst + count else dst - count < row <= dst
  }

  /**
   * Because every source row lies ahead of its destination in the
   * direction of the loop, no row is read after it has been overwritten:
   * each copied row holds its original source row.
   */
  lemma {:induction false} CopyRowsAt(cells: seq<Cell>, w: nat, h: nat, dst: int, rows: int, step: int, count: nat, left: nat, right: nat, row: nat, col: nat)
    requires |cells| == w * h && left <= right <= w && (step == 1 || step == -1)
    requires RowsInside(dst, step, count, h) && RowsInside(dst + rows, step, count, h)
    requires step == 1 ==> rows >= 0
    requires step == -1 ==> rows <= 0
    requires row < h && col < w
    ensures Index(row, col, w) < |cells|
    ensures Copied(row, dst, step, count) && left <= col < right ==> 0 <= row + rows < h && Index(row + rows, col, w) < |cells|
    ensures CopyRows(cells, w, h, dst, dst + rows, step, count, left, right)[Index(row, col, w)] ==
      if Copied(row, dst, step, count) && left <= col < right then cells[Index(row + rows, col, w)] else cells[Index(row, col, w)]
    decreases count
  {
    IndexInside(row, col, w, h);
    if Copied(row, dst, step, count) && left <= col < right {
      IndexInside(row + rows, col, w, h);
    }
    if count > 0 {
      CopyRowsUnfold(cells, w, h, dst, rows, step, count, left, right);
      var next := CopyRow(cells, w, dst, dst + rows, left, right);
      CopyRowsAt(next, w, h, dst + step, rows, step, count - 1, left, right, row, col);
      CopyRowAt(cells, w, h, dst, dst + rows, left, right, row, col);
      if Copied(row, dst + step, step, count - 1) && left <= col < right {
        CopyRowAt(cells, w, h, dst, dst + rows, left, right, row + rows, col);
      }
    }
  }

  lemma CopyRowsUnfold(cells: seq<Cell>, w: nat, h: nat, dst: int, rows: int, step: int, count: nat, left: nat, right: nat)
    requires |cells| == w * h && left <= right <= w && (step == 1 || step == -1)
    requires RowsInside(dst, step, count, h) && RowsInside(dst + rows, step, count, h) && count > 0
    ensures (dst + 1) * w <= |cells| && (dst + rows + 1) * w <= |cells|
    ensures CopyRows(cells, w, h, dst, dst + rows, step, count, left, right)
         == CopyRows(CopyRow(cells, w, dst, dst + rows, left, right), w, h, dst + step, dst + step + rows, step, count - 1, left, right)
  {
    MulLe(dst + 1, h, w);
    MulLe(dst + rows + 1, h, w);
  }

  /**
   * grid_scroll on the cells: reversed or out-of-range bounds change
   * nothing; otherwise the rows that have a source row inside
   * [top, bottom) are copied, upwards for rows >= 0 and downwards for rows < 0.
   */
  function ScrollCells(cells: seq<Cell>, w: nat, h: nat, top: nat, bottom: nat, left: nat, right: nat, rows: int): (r: seq<Cell>)
    requires |cells| == w * h
    ensures |r| == |cells|
  {
    if bottom < top || right < left || bottom > h || right > w then cells
    else if rows >= 0 then
      if bottom - top - rows <= 0 then cells
      else CopyRows(cells, w, h, top, top + rows, 1, bottom - top - rows, left, right)
    else
      if bottom - top + rows <= 0 then cells
      else CopyRows(cells, w, h, bottom - 1, bottom - 1 + rows, -1, bottom - top + rows, left, right)
  }

  /** The region is moved by rows: the cell at (r, c) takes the one at (r + rows, c) when both rows lie in [top, bottom) and c in [left, right). */
  predicate Scrolls(top: nat, bottom: nat, left: nat, right: nat, rows: int, row: nat, col: nat)
  {
    left <= col < right && top <= row < bottom && top <= row + rows < bottom
  }

  /**
   * The closed form of grid_scroll: inside valid bounds every cell of the
   * region whose source row is inside the region takes the source cell;
   * every other cell, and every cell when the bounds are invalid, is unchanged.
   */
  lemma ScrollClosedForm(cells: seq<Cell>, w: nat, h: nat, top: nat, bottom: nat, left: nat, right: nat, rows: int, row: nat, col: nat)
    requires |cells| == w * h && row < h && col < w
    ensures Index(row, col, w) < |cells|
    ensures var valid := top <= bottom <= h && left <= right <= w;
      valid && Scrolls(top, bottom, left, right, rows, row, col) ==>
        0 <= row + rows < h && Index(row + rows, col, w) < |cells| && ScrollCells(cells, w, h, top, bottom, left, right, rows)[Index(row, col, w)] == cells[Index(row + rows, col, w)]
    ensures var valid := top <= bottom <= h && left <= right <= w;
      !(valid && Scrolls(top, bottom, left, right, rows, row, col)) ==>
        ScrollCells(cells, w, h, top, bottom, left, right, rows)[Index(row, col, w)] == cells[Index(row, col, w)]
  {
    IndexInside(row, col, w, h);
    if top <= bottom <= h && left <= right <= w && Scrolls(top, bottom, left, right, rows, row, col) {
      IndexInside(row + rows, col, w, h);
    }
    if top <= bottom <= h && left <= right <= w {
      if rows >= 0 && bottom - top - rows > 0 {
        CopyRowsAt(cells, w, h, top, rows, 1, bottom - top - rows, left, right, row, col);
      } else if rows < 0 && bottom - top + rows > 0 {
        CopyRowsAt(cells, w, h, bottom - 1, rows, -1, bottom - top + rows, left, right, row, col);
      }
    }
  }

  function ScrollOf(g: GridState, top: nat, bottom: nat, left: nat, right: nat, rows: int): GridState
    requires WellFormed(g)
  {
    g.(cells := ScrollCells(g.cells, g.width, g.height, top, bottom, left, right, rows))
  }

  // ---------------------------------------------------------------------
  // grid_line

  /** The cell_update a grid_line cell describes: its text, its highlight and how often it repeats. */
  datatype CellUpdate = CellUpdate(text: string, hl: Option<Attributes>, repeat: nat)

  /**
   * cell_update::set: [text], [text, hl_id] or [text, hl_id, repeat]. The
   * highlight is looked up in the table; a [text] cell keeps the highlight
   * of the cell before it. Anything else is a type error.
   */
  function ParseCell(o: Object, table: seq<Attributes>, hl: Option<Attributes>): (r: Option<CellUpdate>)
    requires |table| > 0
    ensures r.Some? <==> o.Array? && |o.items| in {1, 2, 3} && o.items[0].Str? &&
                         (|o.items| >= 2 ==> o.items[1].Integer?) && (|o.items| == 3 ==> o.items[2].Integer?)
    ensures r.Some? ==> o.Array? && 1 <= |o.items| <= 3 && r.value.text == o.items[0].text
    ensures r.Some? && o.Array? && |o.items| == 1 ==> r.value.hl == hl && r.value.repeat == 1
    ensures r.Some? && o.Array? && |o.items| >= 2 ==> r.value.hl == Some(HlGetEntry(table, o.items[1].bits))
    ensures r.Some? && o.Array? && |o.items| == 2 ==> r.value.repeat == 1
    ensures r.Some? && o.Array? && |o.items| == 3 ==> r.value.repeat == o.items[2].bits
  {
    if !o.Array? then None
    else
      var a := o.items;
      if |a| == 1 && a[0].Str? then Some(CellUpdate(a[0].text, hl, 1))
      else if |a| == 2 && a[0].Str? && a[1].Integer? then Some(CellUpdate(a[0].text, Some(HlGetEntry(table, a[1].bits)), 1))
      else if |a| == 3 && a[0].Str? && a[1].Integer? && a[2].Integer? then
        Some(CellUpdate(a[0].text, Some(HlGetEntry(table, a[1].bits)), a[2].bits))
      else None
  }

  /** The progress of grid_line along its row: the cells, the write position, the columns left, the highlight in effect, and whether the line has ended. */
  datatype LineState = LineState(cells: seq<Cell>, pos: nat, remaining: nat, hl: Option<Attributes>, stopped: bool)

  /** The write position lies in the row that starts at rowStart and ends at pos + remaining. */
  predicate InRow(s: LineState, rowStart: nat)
  {
    rowStart <= s.pos && s.pos + s.remaining <= |s.cells|
  }

  /** n copies of c written from pos on. */
  function Fill(cells: seq<Cell>, pos: nat, n: nat, c: Cell): (r: seq<Cell>)
    requires pos + n <= |cells|
    ensures |r| == |cells|
  {
    seq(|cells|, k requires 0 <= k < |cells| => if pos <= k < pos + n then c else cells[k])
  }

  /** The right half of a wide character: the left cell is marked double width and the cell takes its attributes with size 0. */
  function WideRightHalf(cells: seq<Cell>, pos: nat): (r: seq<Cell>)
    requires 0 < pos < |cells|
    ensures |r| == |cells|
  {
    var left := cells[pos - 1].attrs.(flags := cells[pos - 1].attrs.flags + {Doublewidth});
    cells[pos - 1 := cells[pos - 1].(attrs := left)][pos := cells[pos].(attrs := left, size := 0)]
  }

  /**
   * One cell of grid_line. A type error or a repeat beyond the row ends the
   * line; empty text at the start of the row ends it too. Empty text is
   * the right half of a wide character and fills one column; other text
   * is written repeat times. Empty text with no column left ends the line,
   * which the C++ code does not do: it writes the next row's first cell
   * (see EmptyTextEscapesRow).
   */
  function LineStep(s: LineState, rowStart: nat, table: seq<Attributes>, o: Object): (t: LineState)
    requires |table| > 0 && InRow(s, rowStart)
    ensures InRow(t, rowStart) && t.pos + t.remaining == s.pos + s.remaining && |t.cells| == |s.cells|
  {
    match ParseCell(o, table, s.hl)
    case None => s.(stopped := true)
    case Some(u) =>
      if u.repeat > s.remaining then s.(stopped := true)
      else if |u.text| == 0 then
        if s.pos == rowStart || s.remaining == 0 then s.(stopped := true)
        else s.(cells := WideRightHalf(s.cells, s.pos), pos := s.pos + 1, remaining := s.remaining - 1, hl := u.hl)
      else if u.repeat > 0 then
        s.(cells := Fill(s.cells, s.pos, u.repeat, NewCell(u.text, u.hl)), pos := s.pos + u.repeat,
           remaining := s.remaining - u.repeat, hl := u.hl)
      else s.(hl := u.hl)
  }

  /** The cells of a grid_line event applied in order until the line ends. */
  function LineRun(s: LineState, rowStart: nat, table: seq<Attributes>, updates: seq<Object>): (t: LineState)
    requires |table| > 0 && InRow(s, rowStart)
    ensures InRow(t, rowStart) && t.pos + t.remaining == s.pos + s.remaining && |t.cells| == |s.cells|
    decreases |updates|
  {
    if |updates| == 0 || s.stopped then s
    else LineRun(LineStep(s, rowStart, table, updates[0]), rowStart, table, updates[1..])
  }

  /** grid_line: a start outside the grid changes nothing; otherwise the cells are written along the row from (row, col). */
  function LineOf(g: GridState, table: seq<Attributes>, row: nat, col: nat, updates: seq<Object>): (r: GridState)
    requires WellFormed(g) && |table| > 0
    ensures WellFormed(r)
  {
    if row >= g.height || col >= g.width then g
    else
      IndexInside(row, col, g.width, g.height);
      var start := LineState(g.cells, Index(row, col, g.width), g.width - col, None, false);
      g.(cells := LineRun(start, row * g.width, table, updates).cells)
  }

  /** Running two batches of cells is running them one after the other. */
  lemma {:induction false} LineRunAppend(s: LineState, rowStart: nat, table: seq<Attributes>, us: seq<Object>, vs: seq<Object>)
    requires |table| > 0 && InRow(s, rowStart)
    ensures LineRun(s, rowStart, table, us + vs) == LineRun(LineRun(s, rowStart, table, us), rowStart, table, vs)
    decreases |us|
  {
    if |us| > 0 && !s.stopped {
      assert (us + vs)[0] == us[0] && (us + vs)[1..] == us[1..] + vs;
      LineRunAppend(LineStep(s, rowStart, table, us[0]), rowStart, table, us[1..], vs);
    } else if |us| == 0 {
      assert us + vs == vs;
    }
  }

  /** Once a cell overflows the row (or is malformed), the line ends: the writes before it are kept and nothing after it is written. */
  lemma OverflowKeepsEarlierWrites(s: LineState, rowStart: nat, table: seq<Attributes>, us: seq<Object>, bad: Object, rest: seq<Object>)
    requires |table| > 0 && InRow(s, rowStart)
    requires var m := LineRun(s, rowStart, table, us);
      var u := ParseCell(bad, table, m.hl); u.None? || u.value.repeat > m.remaining
    ensures LineRun(s, rowStart, table, us + [bad] + rest).cells == LineRun(s, rowStart, table, us).cells
  {
    LineRunAppend(s, rowStart, table, us, [bad] + rest);
    assert us + [bad] + rest == us + ([bad] + rest);
    var m := LineRun(s, rowStart, table, us);
    assert ([bad] + rest)[0] == bad;
  }

  /** A line never writes outside its row: cells before the row start and from the row end on keep their values. */
  lemma {:induction false} LineStaysInRow(s: LineState, rowStart: nat, table: seq<Attributes>, updates: seq<Object>, k: nat)
    requires |table| > 0 && InRow(s, rowStart) && k < |s.cells|
    requires k < rowStart || k >= s.pos + s.remaining
    ensures LineRun(s, rowStart, table, updates).cells[k] == s.cells[k]
    decreases |updates|
  {
    if |updates| > 0 && !s.stopped {
      var t := LineStep(s, rowStart, table, updates[0]);
      assert LineRun(s, rowStart, table, updates) == LineRun(t, rowStart, table, updates[1..]);
      LineStaysInRow(t, rowStart, table, updates[1..], k);
    }
  }

  /** The run-length expansion of cells that all carry text and a highlight id: each text repeated as often as it says. */
  predicate PlainRun(o: Object)
  {
    o.Array? && |o.items| == 3 && o.items[0].Str? && |o.items[0].text| > 0 && o.items[1].Integer? && o.items[2].Integer?
  }

  function Expanded(table: seq<Attributes>, updates: seq<Object>): seq<Cell>
    requires |table| > 0 && forall i :: 0 <= i < |updates| ==> PlainRun(updates[i])
  {
    if |updates| == 0 then []
    else
      assert PlainRun(updates[0]);
      var a := updates[0].items;
      Copies(NewCell(a[0].text, Some(HlGetEntry(table, a[1].bits))), a[2].bits) + Expanded(table, updates[1..])
  }

  /** n copies of one cell. */
  function Copies(c: Cell, n: nat): (r: seq<Cell>)
    ensures |r| == n && forall i :: 0 <= i < n ==> r[i] == c
  {
    seq(n, _ => c)
  }

  /**
   * A line of [text, hl_id, repeat] cells that fits in the row writes
   * their run-length expansion from the start position, and nothing else
   * changes.
   */
  lemma {:induction false} LineWritesExpansion(s: LineState, rowStart: nat, table: seq<Attributes>, updates: seq<Object>)
    requires |table| > 0 && InRow(s, rowStart) && !s.stopped
    requires forall i :: 0 <= i < |updates| ==> PlainRun(updates[i])
    requires |Expanded(table, updates)| <= s.remaining
    ensures var t, e := LineRun(s, rowStart, table, updates), Expanded(table, updates);
      t.pos == s.pos + |e| && !t.stopped &&
      t.cells == Overwrite(s.cells, s.pos, e)
    decreases |updates|
  {
    if |updates| == 0 {
      assert s.cells == Overwrite(s.cells, s.pos, []);
    } else {
      assert PlainRun(updates[0]);
      var a := updates[0].items;
      var run := Copies(NewCell(a[0].text, Some(HlGetEntry(table, a[1].bits))), a[2].bits);
      var e1 := Expanded(table, updates[1..]);
      assert Expanded(table, updates) == run + e1;
      PlainStep(s, rowStart, table, updates[0]);
      var t := LineStep(s, rowStart, table, updates[0]);
      assert LineRun(s, rowStart, table, updates) == LineRun(t, rowStart, table, updates[1..]);
      assert forall i :: 0 <= i < |updates[1..]| ==> PlainRun(updates[1..][i]) by {
        forall i | 0 <= i < |updates[1..]| ensures PlainRun(updates[1..][i]) {
          assert updates[1..][i] == updates[i + 1];
        }
      }
      LineWritesExpansion(t, rowStart, table, updates[1..]);
      WritesCompose(s, t, LineRun(t, rowStart, table, updates[1..]), run, e1);
    }
  }

  /** One [text, hl_id, repeat] cell that fits writes repeat copies of its cell at the write position. */
  lemma PlainStep(s: LineState, rowStart: nat, table: seq<Attributes>, o: Object)
    requires |table| > 0 && InRow(s, rowStart) && !s.stopped && PlainRun(o) && o.items[2].bits <= s.remaining
    ensures var a := o.items;
      var run := Copies(NewCell(a[0].text, Some(HlGetEntry(table, a[1].bits))), a[2].bits);
      var t := LineStep(s, rowStart, table, o);
      t.pos == s.pos + |run| && !t.stopped && t.cells == Overwrite(s.cells, s.pos, run)
  {
    var a := o.items;
    var c := NewCell(a[0].text, Some(HlGetEntry(table, a[1].bits)));
    var run := Copies(c, a[2].bits);
    if |run| > 0 {
      FillSplice(s.cells, s.pos, c, run);
    } else {
      assert s.cells == Overwrite(s.cells, s.pos, run);
    }
  }

  lemma FillSplice(cells: seq<Cell>, pos: nat, c: Cell, run: seq<Cell>)
    requires pos + |run| <= |cells| && forall i :: 0 <= i < |run| ==> run[i] == c
    ensures Fill(cells, pos, |run|, c) == Overwrite(cells, pos, run)
  {
  }

  /** cells with run written over it from pos on. */
  function Overwrite(cells: seq<Cell>, pos: nat, run: seq<Cell>): (r: seq<Cell>)
    requires pos + |run| <= |cells|
    ensures |r| == |cells|
  {
    cells[..pos] + run + cells[pos + |run|..]
  }

  /** Two runs written one after the other write their concatenation. */
  lemma WritesCompose(s: LineState, t: LineState, u: LineState, run: seq<Cell>, e: seq<Cell>)
    requires s.pos + |run| + |e| <= |s.cells|
    requires t.pos == s.pos + |run| && t.cells == Overwrite(s.cells, s.pos, run)
    requires u.pos == t.pos + |e| && u.cells == Overwrite(t.cells, t.pos, e)
    ensures u.pos == s.pos + |run + e| && u.cells == Overwrite(s.cells, s.pos, run + e)
  {
    SpliceTwice(s.cells, t.cells, u.cells, s.pos, run, e);
  }

  lemma SpliceTwice(a: seq<Cell>, x: seq<Cell>, y: seq<Cell>, p: nat, run: seq<Cell>, e: seq<Cell>)
    requires p + |run| + |e| <= |a|
    requires x == Overwrite(a, p, run)
    requires y == Overwrite(x, p + |run|, e)
    ensures y == Overwrite(a, p, run + e)
  {
    assert x[..p + |run|] == a[..p] + run;
    assert x[p + |run| + |e|..] == a[p + |run| + |e|..];
  }

  /** A [text] cell reuses the highlight of the cell before it in the same line. */
  lemma TextOnlyReusesHighlight(s: LineState, rowStart: nat, table: seq<Attributes>, a: string, id: u64, b: string)
    requires |table| > 0 && InRow(s, rowStart) && !s.stopped && s.remaining >= 2 && |a| > 0 && |b| > 0
    ensures var t := LineRun(s, rowStart, table, [Array([Str(a), Integer(id)]), Array([Str(b)])]);
      t.cells[s.pos] == NewCell(a, Some(HlGetEntry(table, id))) &&
      t.cells[s.pos + 1] == NewCell(b, Some(HlGetEntry(table, id)))
  {
    var us := [Array([Str(a), Integer(id)]), Array([Str(b)])];
    var t1 := LineStep(s, rowStart, table, us[0]);
    assert us[1..] == [Array([Str(b)])];
    var t2 := LineStep(t1, rowStart, table, us[1]);
    assert LineRun(s, rowStart, table, us) == LineRun(t1, rowStart, table, us[1..]);
    assert LineRun(t1, rowStart, table, us[1..]) == LineRun(t2, rowStart, table, []);
  }

  /**
   * Empty text after a character makes it wide: the left cell gains the
   * double-width flag, and the right cell takes the same attributes with
   * size 0 and its old text.
   */
  lemma EmptyTextWidensLeftCell(s: LineState, rowStart: nat, table: seq<Attributes>, a: string, id: u64)
    requires |table| > 0 && InRow(s, rowStart) && !s.stopped && s.remaining >= 2 && |a| > 0
    ensures var t := LineRun(s, rowStart, table, [Array([Str(a), Integer(id)]), Array([Str("")])]);
      var wide := HlGetEntry(table, id).(flags := HlGetEntry(table, id).flags + {Doublewidth});
      t.pos == s.pos + 2 &&
      t.cells[s.pos] == Cell(a, wide, |a|) &&
      t.cells[s.pos + 1] == Cell(s.cells[s.pos + 1].text, wide, 0)
  {
    var us := [Array([Str(a), Integer(id)]), Array([Str("")])];
    var t1 := LineStep(s, rowStart, table, us[0]);
    assert us[1..] == [Array([Str("")])];
    var t2 := LineStep(t1, rowStart, table, us[1]);
    assert LineRun(s, rowStart, table, us) == LineRun(t1, rowStart, table, us[1..]);
    assert LineRun(t1, rowStart, table, us[1..]) == LineRun(t2, rowStart, table, []);
  }

  /** Empty text in the first column has no left half: the line ends there. */
  lemma EmptyTextAtRowStartEnds(s: LineState, rowStart: nat, table: seq<Attributes>, id: u64, rest: seq<Object>)
    requires |table| > 0 && InRow(s, rowStart) && s.pos == rowStart
    ensures LineRun(s, rowStart, table, [Array([Str(""), Integer(id)])] + rest).cells == s.cells
  {
    var us := [Array([Str(""), Integer(id)])] + rest;
    assert us[0] == Array([Str(""), Integer(id)]);
    var t := LineStep(s, rowStart, table, us[0]);
    assert t == s.(stopped := true);
    assert LineRun(s, rowStart, table, us) == LineRun(t, rowStart, table, us[1..]) == t;
  }

  // ---------------------------------------------------------------------
  // grid_line as written: empty text with an explicit repeat of 0 passes
  // the overflow test even when no column remains

  /** The row end as the source tracks it: remaining is a 64-bit unsigned count. */
  function LineStepAsWritten(s: LineState, rowStart: nat, table: seq<Attributes>, o: Object): Option<LineState>
    requires |table| > 0 && InRow(s, rowStart)
  {
    var u := ParseCell(o, table, s.hl);
    if u.Some? && |u.value.text| == 0 && u.value.repeat <= s.remaining && s.pos != rowStart && s.remaining == 0 then
      // the source writes the cell after the row and lets remaining wrap round
      if s.pos < |s.cells| then
        Some(s.(cells := WideRightHalf(s.cells, s.pos), pos := s.pos + 1, remaining := Wrap64(s.remaining - 1), hl := u.value.hl))
      else None
    else Some(LineStep(s, rowStart, table, o))
  }

  /**
   * On a 2 x 2 grid, the line [["a", 0, 2], ["", 0, 0]] on row 0 fills
   * the row and then, as written, marks the first cell of row 1 as the
   * right half of a wide character and leaves 2^64 - 1 columns to write;
   * the corrected step ends the line and leaves row 1 alone.
   */
  lemma EmptyTextEscapesRow(table: seq<Attributes>)
    requires |table| > 0
    ensures var cells := seq(4, _ => EMPTY_CELL);
      var s := LineStep(LineState(cells, 0, 2, None, false), 0, table, Array([Str("a"), Integer(0), Integer(2)]));
      var bad := Array([Str(""), Integer(0), Integer(0)]);
      var w := LineStepAsWritten(s, 0, table, bad);
      s.pos == 2 && s.remaining == 0 && w.Some? && w.value.remaining == TWO_64 - 1 &&
      w.value.cells[2].size == 0 && Doublewidth in w.value.cells[2].attrs.flags &&
      LineStep(s, 0, table, bad).cells[2] == EMPTY_CELL
  {
  }
}
