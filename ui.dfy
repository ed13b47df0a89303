// The UI controller: the redraw notifications Neovim sends are routed,
// event by event and argument tuple by argument tuple, to the handlers
// that update the grid being written, the highlight table and the mode
// table. A flush publishes the grid being written as the completed one.

module Ui {
  import opened Common
  import opened Wire
  import opened Highlights
  import opened Grids

  /** Everything the redraw handlers update. halted records that the process has aborted (an event for a grid other than grid 1). */
  datatype UiState = UiState(
    grid: GridState, completed: GridState, hlTable: seq<Attributes>, modeTable: seq<CursorAttributes>, halted: bool)

  /** Both grids hold width times height cells, and the table has its default entry. */
  predicate Coherent(s: UiState)
  {
    WellFormed(s.grid) && WellFormed(s.completed) && |s.hlTable| > 0
  }

  // ---------------------------------------------------------------------
  // The handlers, on values

  /** get_grid: any grid but grid 1 aborts the process. */
  function Halt(s: UiState): UiState
  {
    s.(halted := true)
  }

  /** grid_resize; a width times height that does not fit in 64 bits stops the controller. */
  function ResizeEvent(s: UiState, gridId: nat, width: nat, height: nat): (r: UiState)
    requires Coherent(s)
    ensures Coherent(r)
  {
    if gridId != 1 || width * height >= TWO_64 then Halt(s) else s.(grid := ResizeOf(s.grid, width, height))
  }

  function LineEvent(s: UiState, gridId: nat, row: nat, col: nat, updates: seq<Object>): (r: UiState)
    requires Coherent(s)
    ensures Coherent(r)
  {
    if gridId != 1 then Halt(s) else s.(grid := LineOf(s.grid, s.hlTable, row, col, updates))
  }

  function ClearEvent(s: UiState, gridId: nat): (r: UiState)
    requires Coherent(s)
    ensures Coherent(r)
  {
    if gridId != 1 then Halt(s) else s.(grid := ClearOf(s.grid, s.hlTable))
  }

  function CursorGotoEvent(s: UiState, gridId: nat, row: nat, col: nat): (r: UiState)
    requires Coherent(s)
    ensures Coherent(r)
  {
    if gridId != 1 then Halt(s) else s.(grid := CursorGotoOf(s.grid, row, col))
  }

  /** grid_scroll checks its bounds before it looks the grid up. */
  function ScrollEvent(s: UiState, gridId: nat, top: nat, bottom: nat, left: nat, right: nat, rows: int): (r: UiState)
    requires Coherent(s)
    ensures Coherent(r)
  {
    if bottom < top || right < left then s
    else if gridId != 1 then Halt(s)
    else s.(grid := ScrollOf(s.grid, top, bottom, left, right, rows))
  }

  function BusyEvent(s: UiState, hidden: bool): (r: UiState)
  {
    s.(grid := s.grid.(cursorHidden := hidden))
  }

  /** flush: the draw tick advances and the grid being written becomes the completed grid; writing goes on from a copy of it. */
  function FlushEvent(s: UiState): (r: UiState)
  {
    var g := s.grid.(drawTick := s.grid.drawTick + 1);
    s.(grid := g, completed := g)
  }

  /** hl_attr_define: a new entry for hlid, from the default entry, with the definition applied. */
  function HighlightEvent(s: UiState, hlid: nat, pairs: seq<Pair>): (r: UiState)
    requires Coherent(s)
    ensures Coherent(r)
  {
    NewEntryShape(s.hlTable, hlid);
    var t := NewEntryTable(s.hlTable, hlid);
    s.(hlTable := t[NewEntryIndex(s.hlTable, hlid) := DefineAttributes(s.hlTable[0], pairs)])
  }

  function AdjustAll(def: Attributes, table: seq<Attributes>): (r: seq<Attributes>)
    ensures |r| == |table|
  {
    seq(|table|, i requires 0 <= i < |table| => AdjustDefaults(def, table[i]))
  }

  function AdjustCells(def: Attributes, cells: seq<Cell>): (r: seq<Cell>)
    ensures |r| == |cells|
  {
    seq(|cells|, i requires 0 <= i < |cells| => cells[i].(attrs := AdjustDefaults(def, cells[i].attrs)))
  }

  /**
   * default_colors_set: the default entry takes the three colours, tagged
   * as defaults, and loses its flags; then every entry and every cell of
   * the grid being written is adjusted to it.
   */
  function DefaultColorsEvent(s: UiState, fg: nat, bg: nat, sp: nat): (r: UiState)
    requires Coherent(s)
    ensures Coherent(r)
  {
    var def := DefaultEntry(fg, bg, sp);
    s.(hlTable := AdjustAll(def, s.hlTable[0 := def]), grid := s.grid.(cells := AdjustCells(def, s.grid.cells)))
  }

  /** The mode table mode_info_set builds: one entry per property map, other objects skipped. */
  function ModeEntries(table: seq<Attributes>, objs: seq<Object>): (r: seq<CursorAttributes>)
    requires |table| > 0
    ensures |r| <= |objs|
  {
    if |objs| == 0 then []
    else
      var last := objs[|objs| - 1];
      ModeEntries(table, objs[..|objs| - 1]) + (if last.Map? then [CursorOf(table, last.pairs)] else [])
  }

  /** The last entry whose short name is name, or current when there is none. */
  function LastNamed(entries: seq<CursorAttributes>, name: nat, current: CursorAttributes): (r: CursorAttributes)
    ensures r == current || (r in entries && r.shortname == name)
    ensures (forall i :: 0 <= i < |entries| ==> entries[i].shortname != name) ==> r == current
    ensures forall i :: 0 <= i < |entries| && entries[i].shortname == name &&
                        (forall j :: i < j < |entries| ==> entries[j].shortname != name)
                        ==> r == entries[i]
  {
    if |entries| == 0 then current
    else if entries[|entries| - 1].shortname == name then entries[|entries| - 1]
    else LastNamed(entries[..|entries| - 1], name, current)
  }

  /**
   * mode_info_set: the mode table is rebuilt from the property maps, and
   * the cursor takes the last new entry whose short name is the one the
   * cursor had.
   */
  function ModeInfoEvent(s: UiState, objs: seq<Object>): (r: UiState)
    requires Coherent(s)
    ensures Coherent(r)
  {
    var entries := ModeEntries(s.hlTable, objs);
    s.(modeTable := entries,
       grid := s.grid.(cursorAttrs := LastNamed(entries, s.grid.cursorAttrs.shortname, s.grid.cursorAttrs)))
  }

  /** mode_change: an index inside the mode table selects the cursor attributes; any other is logged. */
  function ModeChangeEvent(s: UiState, index: nat): (r: UiState)
  {
    if index >= |s.modeTable| then s else s.(grid := s.grid.(cursorAttrs := s.modeTable[index]))
  }

  // ---------------------------------------------------------------------
  // Routing

  /** The argument types a handler's signature names; an integer parameter of any width accepts any integer. */
  datatype Kind = IntegerArg | BooleanArg | StrArg | ArrayArg | MapArg

  predicate Fits(o: Object, k: Kind)
  {
    match k
    case IntegerArg => o.Integer?
    case BooleanArg => o.Boolean?
    case StrArg => o.Str?
    case ArrayArg => o.Array?
    case MapArg => o.Map?
  }

  /** apply_one's test: an array with at least as many elements as the handler has parameters, the leading ones of the right types. */
  predicate ArgsFit(tuple: Object, kinds: seq<Kind>)
  {
    tuple.Array? && |kinds| <= |tuple.items| && forall i :: 0 <= i < |kinds| ==> Fits(tuple.items[i], kinds[i])
  }

  /** The parameter types of the handlers this model covers, by event name. */
  function Signature(name: string): Option<seq<Kind>>
  {
    if name == "grid_line" then Some([IntegerArg, IntegerArg, IntegerArg, ArrayArg])
    else if name == "grid_resize" then Some([IntegerArg, IntegerArg, IntegerArg])
    else if name == "grid_scroll" then Some([IntegerArg, IntegerArg, IntegerArg, IntegerArg, IntegerArg, IntegerArg])
    else if name == "flush" then Some([])
    else if name == "grid_clear" then Some([IntegerArg])
    else if name == "hl_attr_define" then Some([IntegerArg, MapArg])
    else if name == "default_colors_set" then Some([IntegerArg, IntegerArg, IntegerArg])
    else if name == "mode_info_set" then Some([BooleanArg, ArrayArg])
    else if name == "mode_change" then Some([StrArg, IntegerArg])
    else if name == "grid_cursor_goto" then Some([IntegerArg, IntegerArg, IntegerArg])
    else if name == "busy_start" then Some([])
    else if name == "busy_stop" then Some([])
    else None
  }

  /** The handler named name called with the leading elements of a converted to its parameter types. */
  function Call(s: UiState, name: string, a: seq<Object>): (r: UiState)
    requires Coherent(s) && Signature(name).Some? && ArgsFit(Array(a), Signature(name).value)
    ensures Coherent(r)
  {
    if name == "grid_line" then LineEvent(s, a[0].bits, a[1].bits, a[2].bits, a[3].items)
    else if name == "grid_resize" then ResizeEvent(s, a[0].bits, a[1].bits, a[2].bits)
    else if name == "grid_scroll" then ScrollEvent(s, a[0].bits, a[1].bits, a[2].bits, a[3].bits, a[4].bits, SignedValue(a[5].bits))
    else if name == "flush" then FlushEvent(s)
    else if name == "grid_clear" then ClearEvent(s, a[0].bits)
    else if name == "hl_attr_define" then HighlightEvent(s, a[0].bits, a[1].pairs)
    else if name == "default_colors_set" then
      DefaultColorsEvent(s, AsUnsigned(a[0].bits, 32), AsUnsigned(a[1].bits, 32), AsUnsigned(a[2].bits, 32))
    else if name == "mode_info_set" then ModeInfoEvent(s, a[1].items)
    else if name == "mode_change" then ModeChangeEvent(s, a[1].bits)
    else if name == "grid_cursor_goto" then CursorGotoEvent(s, a[0].bits, a[1].bits, a[2].bits)
    else if name == "busy_start" then BusyEvent(s, true)
    else BusyEvent(s, false)
  }

  /** apply_one: a tuple of the wrong shape is logged and skipped; after an abort nothing happens. */
  function ApplyOneOf(s: UiState, name: string, tuple: Object): (r: UiState)
    requires Coherent(s)
    ensures Coherent(r)
  {
    if s.halted || Signature(name).None? || !ArgsFit(tuple, Signature(name).value) then s
    else Call(s, name, tuple.items)
  }

  /** apply: the handler once per argument tuple, in order. */
  function ApplyAllOf(s: UiState, name: string, tuples: seq<Object>): (r: UiState)
    requires Coherent(s)
    ensures Coherent(r)
    decreases |tuples|
  {
    if |tuples| == 0 then s else ApplyAllOf(ApplyOneOf(s, name, tuples[0]), name, tuples[1..])
  }

  /**
   * redraw_event: an event that is not an array starting with its name is
   * logged; a named handler of this model gets the remaining elements as
   * argument tuples; every other name leaves the modelled state as it is.
   */
  function RedrawEventOf(s: UiState, event: Object): (r: UiState)
    requires Coherent(s)
    ensures Coherent(r)
  {
    if !event.Array? || |event.items| == 0 || !event.items[0].Str? then s
    else if Signature(event.items[0].text).None? then s
    else ApplyAllOf(s, event.items[0].text, event.items[1..])
  }

  /** redraw: the events in order. */
  function RedrawOf(s: UiState, events: seq<Object>): (r: UiState)
    requires Coherent(s)
    ensures Coherent(r)
    decreases |events|
  {
    if |events| == 0 then s else RedrawOf(RedrawEventOf(s, events[0]), events[1..])
  }

  // ---------------------------------------------------------------------
  // Properties across events

  /** Splitting a batch of events over two redraw notifications gives the same state. */
  lemma {:induction false} RedrawSplits(s: UiState, a: seq<Object>, b: seq<Object>)
    requires Coherent(s)
    ensures RedrawOf(s, a + b) == RedrawOf(RedrawOf(s, a), b)
    decreases |a|
  {
    if |a| == 0 {
      assert a + b == b;
    } else {
      assert (a + b)[0] == a[0] && (a + b)[1..] == a[1..] + b;
      RedrawSplits(RedrawEventOf(s, a[0]), a[1..], b);
    }
  }

  /** After an abort no event changes anything. */
  lemma {:induction false} HaltedIsFinal(s: UiState, events: seq<Object>)
    requires Coherent(s) && s.halted
    ensures RedrawOf(s, events) == s
    decreases |events|
  {
    if |events| > 0 {
      var e := events[0];
      if e.Array? && |e.items| > 0 && e.items[0].Str? && Signature(e.items[0].text).Some? {
        HaltedApplyAll(s, e.items[0].text, e.items[1..]);
      }
      HaltedIsFinal(s, events[1..]);
    }
  }

  lemma {:induction false} HaltedApplyAll(s: UiState, name: string, tuples: seq<Object>)
    requires Coherent(s) && s.halted
    ensures ApplyAllOf(s, name, tuples) == s
    decreases |tuples|
  {
    if |tuples| > 0 {
      HaltedApplyAll(s, name, tuples[1..]);
    }
  }

  const FLUSH := Array([Str("flush"), Array([])])

  /** A flush event at the end of a batch publishes the grid as the batch left it, with the draw tick advanced. */
  lemma FlushPublishes(s: UiState, events: seq<Object>)
    requires Coherent(s) && !RedrawOf(s, events).halted
    ensures var t, u := RedrawOf(s, events), RedrawOf(s, events + [FLUSH]);
      u.completed == u.grid && u.grid == t.grid.(drawTick := t.grid.drawTick + 1) &&
      u.hlTable == t.hlTable && u.modeTable == t.modeTable
  {
    RedrawSplits(s, events, [FLUSH]);
    var t := RedrawOf(s, events);
    FlushRoutes(t);
    assert RedrawOf(t, [FLUSH]) == RedrawOf(RedrawEventOf(t, FLUSH), []);
  }

  lemma FlushRoutes(t: UiState)
    requires Coherent(t) && !t.halted
    ensures RedrawEventOf(t, FLUSH) == FlushEvent(t)
  {
    assert FLUSH.items[1..] == [Array([])];
    assert ArgsFit(Array([]), []);
    assert ApplyOneOf(t, "flush", Array([])) == FlushEvent(t);
    assert ApplyAllOf(t, "flush", [Array([])]) == ApplyAllOf(FlushEvent(t), "flush", []);
  }

  /** With every object a property map, mode_info_set's table holds one entry per map, in order. */
  lemma {:induction false} ModeEntriesOfMaps(table: seq<Attributes>, objs: seq<Object>)
    requires |table| > 0 && forall i :: 0 <= i < |objs| ==> objs[i].Map?
    ensures |ModeEntries(table, objs)| == |objs|
    ensures forall i :: 0 <= i < |objs| ==> ModeEntries(table, objs)[i] == CursorOf(table, objs[i].pairs)
  {
    if |objs| > 0 {
      ModeEntriesOfMaps(table, objs[..|objs| - 1]);
    }
  }

  /** Selecting mode i after a mode_info_set of property maps gives the cursor the attributes the i-th map describes. */
  lemma ModeChangeSelects(s: UiState, objs: seq<Object>, i: nat)
    requires Coherent(s) && i < |objs| && forall k :: 0 <= k < |objs| ==> objs[k].Map?
    ensures ModeChangeEvent(ModeInfoEvent(s, objs), i).grid.cursorAttrs == CursorOf(s.hlTable, objs[i].pairs)
  {
    ModeEntriesOfMaps(s.hlTable, objs);
  }

  /** A mode index past the table leaves the cursor as it was. */
  lemma ModeChangeOutOfRange(s: UiState, index: nat)
    requires index >= |s.modeTable|
    ensures ModeChangeEvent(s, index) == s
  {
  }

  /** Setting the same default colours twice is setting them once. */
  lemma DefaultColorsIdempotent(s: UiState, fg: nat, bg: nat, sp: nat)
    requires Coherent(s)
    ensures DefaultColorsEvent(DefaultColorsEvent(s, fg, bg, sp), fg, bg, sp) == DefaultColorsEvent(s, fg, bg, sp)
  {
    var def := DefaultEntry(fg, bg, sp);
    var once := DefaultColorsEvent(s, fg, bg, sp);
    var t := s.hlTable[0 := def];
    forall i | 0 <= i < |t|
      ensures AdjustDefaults(def, AdjustDefaults(def, t[i])) == AdjustDefaults(def, t[i])
    {
      AdjustIdempotent(def, t[i]);
    }
    forall i | 0 <= i < |s.grid.cells|
      ensures AdjustDefaults(def, AdjustDefaults(def, s.grid.cells[i].attrs)) == AdjustDefaults(def, s.grid.cells[i].attrs)
    {
      AdjustIdempotent(def, s.grid.cells[i].attrs);
    }
    DefaultEntryFixed(fg, bg, sp);
    assert once.hlTable[0 := def] == once.hlTable;
  }

  /** A highlight defined at an id up to the table size is what later lookups of that id return. */
  lemma DefinedHighlightIsLookedUp(s: UiState, hlid: nat, pairs: seq<Pair>)
    requires Coherent(s) && hlid <= |s.hlTable|
    ensures HlGetEntry(HighlightEvent(s, hlid, pairs).hlTable, hlid) == DefineAttributes(s.hlTable[0], pairs)
  {
    DefinedIdReadsBack(s.hlTable, hlid, DefineAttributes(s.hlTable[0], pairs));
  }

  // ---------------------------------------------------------------------
  // The loops of the handlers

  /** The copy loop of grid_line: n copies of c from pos on. */
  method FillRun(cs: seq<Cell>, pos: nat, n: nat, c: Cell) returns (r: seq<Cell>)
    requires pos + n <= |cs|
    ensures |r| == |cs|
    ensures forall j :: 0 <= j < |r| ==> r[j] == if pos <= j < pos + n then c else cs[j]
    ensures r == Fill(cs, pos, n, c)
  {
    r := cs;
    for k := 0 to n
      invariant |r| == |cs|
      invariant forall j :: 0 <= j < |r| ==> r[j] == if pos <= j < pos + k then c else cs[j]
    {
      r := r[pos + k := c];
    }
  }

  /** One iteration of grid_line's loop: cell_update::set, the overflow test and the write. */
  method WriteCell(s: LineState, rowBegin: nat, table: seq<Attributes>, o: Object) returns (t: LineState)
    requires |table| > 0 && InRow(s, rowBegin) && !s.stopped
    ensures InRow(t, rowBegin) && t.pos + t.remaining == s.pos + s.remaining && |t.cells| == |s.cells|
    ensures forall j :: 0 <= j < |s.cells| && !(rowBegin <= j < s.pos + s.remaining) ==> t.cells[j] == s.cells[j]
    ensures ParseCell(o, table, s.hl).None? ==> t.stopped && t.cells == s.cells
    ensures t == LineStep(s, rowBegin, table, o)
  {
    var u := ParseCell(o, table, s.hl);
    if u.None? || u.value.repeat > s.remaining {
      return s.(stopped := true);
    }
    var update := u.value;
    if |update.text| == 0 {
      if s.pos == rowBegin || s.remaining == 0 {
        return s.(stopped := true);
      }
      var cs := s.cells;
      var wide := cs[s.pos - 1].attrs.(flags := cs[s.pos - 1].attrs.flags + {Doublewidth});
      cs := cs[s.pos - 1 := cs[s.pos - 1].(attrs := wide)];
      cs := cs[s.pos := cs[s.pos].(attrs := wide, size := 0)];
      t := LineState(cs, s.pos + 1, s.remaining - 1, update.hl, false);
    } else if update.repeat > 0 {
      var cs := FillRun(s.cells, s.pos, update.repeat, NewCell(update.text, update.hl));
      t := LineState(cs, s.pos + update.repeat, s.remaining - update.repeat, update.hl, false);
    } else {
      t := s.(hl := update.hl);
    }
  }

  /** grid_line's loop over the cell updates, until one stops it or none is left. */
  method LineLoop(start: LineState, rowBegin: nat, table: seq<Attributes>, updates: seq<Object>) returns (s: LineState)
    requires |table| > 0 && InRow(start, rowBegin)
    ensures s == LineRun(start, rowBegin, table, updates)
  {
    s := start;
    var i := 0;
    while i < |updates| && !s.stopped
      invariant 0 <= i <= |updates| && InRow(s, rowBegin)
      invariant LineRun(s, rowBegin, table, updates[i..]) == LineRun(start, rowBegin, table, updates)
      decreases |updates| - i
    {
      s := WriteCell(s, rowBegin, table, updates[i]);
      i := i + 1;
    }
    if !s.stopped {
      assert updates[i..] == [];
    }
  }

  /** mode_info_set's loop: one entry per property map, and the cursor that keeps its short name. */
  method ModeLoop(hl: seq<Attributes>, maps: seq<Object>, current: CursorAttributes)
    returns (table: seq<CursorAttributes>, cursor: CursorAttributes)
    requires |hl| > 0
    ensures table == ModeEntries(hl, maps)
    ensures cursor == LastNamed(table, current.shortname, current)
  {
    table, cursor := [], current;
    for i := 0 to |maps|
      invariant table == ModeEntries(hl, maps[..i])
      invariant cursor == LastNamed(table, current.shortname, current)
    {
      assert maps[..i + 1][..i] == maps[..i];
      if maps[i].Map? {
        var attrs := ToCursorAttributes(hl, maps[i].pairs);
        if attrs.shortname == current.shortname {
          cursor := attrs;
        }
        ghost var prev := table;
        table := table + [attrs];
        assert table[..|prev|] == prev;
      }
    }
    assert maps[..|maps|] == maps;
  }

  /** The copy loop of grid_scroll: n rows copied, the destination and source rows moving by step each time. */
  method CopyLoop(cells: seq<Cell>, w: nat, h: nat, dest: int, src: int, step: int, n: nat, left: nat, right: nat)
    returns (r: seq<Cell>)
    requires |cells| == w * h && left <= right <= w && (step == 1 || step == -1)
    requires RowsInside(dest, step, n, h) && RowsInside(src, step, n, h)
    ensures r == CopyRows(cells, w, h, dest, src, step, n, left, right)
  {
    r := cells;
    var d, sr, k := dest, src, n;
    while k > 0
      invariant |r| == w * h && RowsInside(d, step, k, h) && RowsInside(sr, step, k, h)
      invariant CopyRows(r, w, h, d, sr, step, k, left, right) == CopyRows(cells, w, h, dest, src, step, n, left, right)
    {
      MulLe(d + 1, h, w);
      MulLe(sr + 1, h, w);
      r := CopyRow(r, w, d, sr, left, right);
      d, sr, k := d + step, sr + step, k - 1;
    }
  }

  /** default_colors_set's loop over the highlight table. */
  method AdjustTable(def: Attributes, table: seq<Attributes>) returns (r: seq<Attributes>)
    ensures r == AdjustAll(def, table)
  {
    r := table;
    for i := 0 to |r|
      invariant |r| == |table|
      invariant forall j :: 0 <= j < |r| ==> r[j] == if j < i then AdjustDefaults(def, table[j]) else table[j]
    {
      r := r[i := AdjustDefaults(def, r[i])];
    }
  }

  /** default_colors_set's loop over the cells of the grid being written. */
  method AdjustGrid(def: Attributes, cells: seq<Cell>) returns (r: seq<Cell>)
    ensures r == AdjustCells(def, cells)
  {
    r := cells;
    for i := 0 to |r|
      invariant |r| == |cells|
      invariant forall j :: 0 <= j < |r| ==>
        r[j] == if j < i then cells[j].(attrs := AdjustDefaults(def, cells[j].attrs)) else cells[j]
    {
      r := r[i := r[i].(attrs := AdjustDefaults(def, r[i].attrs))];
    }
  }

  // ---------------------------------------------------------------------
  // The controller

  class UiController {
    // the grid being written
    var width: nat
    var height: nat
    var cells: seq<Cell>
    var cursorRow: nat
    var cursorCol: nat
    var cursorHidden: bool
    var cursorAttrs: CursorAttributes
    var drawTick: nat
    // the last grid a flush completed
    var completed: GridState
    var hlTable: seq<Attributes>
    var modeTable: seq<CursorAttributes>
    var halted: bool

    function Grid(): GridState
      reads this
    {
      GridState(width, height, cells, cursorRow, cursorCol, cursorHidden, cursorAttrs, drawTick)
    }

    function State(): UiState
      reads this
    {
      UiState(Grid(), completed, hlTable, modeTable, halted)
    }

    predicate Valid()
      reads this
    {
      Coherent(State())
    }

    /** Empty grids and a highlight table holding only a value-initialised default entry. */
    constructor()
      ensures Valid() && State() == UiState(EMPTY_GRID, EMPTY_GRID, [DEFAULT_ATTRIBUTES], [], false)
    {
      width, height, cells := 0, 0, [];
      cursorRow, cursorCol, cursorHidden, cursorAttrs, drawTick := 0, 0, false, DEFAULT_CURSOR, 0;
      completed := EMPTY_GRID;
      hlTable := [DEFAULT_ATTRIBUTES];
      modeTable := [];
      halted := false;
    }

    method GridResize(gridId: nat, w: nat, h: nat)
      requires Valid()
      modifies this
      ensures Valid() && State() == ResizeEvent(old(State()), gridId, w, h)
    {
      if gridId != 1 || w * h >= TWO_64 {
        halted := true;
        return;
      }
      width, height := w, h;
      cells := Resized(cells, w * h);
    }

    method GridLine(gridId: nat, row: nat, col: nat, updates: seq<Object>)
      requires Valid()
      modifies this
      ensures Valid() && State() == LineEvent(old(State()), gridId, row, col, updates)
    {
      if gridId != 1 {
        halted := true;
        return;
      }
      if row >= height || col >= width {
        return;
      }
      IndexInside(row, col, width, height);
      var start := LineState(cells, Index(row, col, width), width - col, None, false);
      var s := LineLoop(start, row * width, hlTable, updates);
      cells := s.cells;
    }

    method GridClear(gridId: nat)
      requires Valid()
      modifies this
      ensures Valid() && State() == ClearEvent(old(State()), gridId)
    {
      if gridId != 1 {
        halted := true;
        return;
      }
      var empty := Cell("", DEFAULT_ATTRIBUTES.(background := hlTable[0].background), 0);
      var cs := cells;
      for i := 0 to |cs|
        invariant |cs| == |cells|
        invariant forall j :: 0 <= j < i ==> cs[j] == empty
      {
        cs := cs[i := empty];
      }
      cells := cs;
    }

    method GridCursorGoto(gridId: nat, row: nat, col: nat)
      requires Valid()
      modifies this
      ensures Valid() && State() == CursorGotoEvent(old(State()), gridId, row, col)
    {
      if gridId != 1 {
        halted := true;
        return;
      }
      if row >= height || col >= width {
        return;
      }
      cursorRow, cursorCol := row, col;
    }

    method GridScroll(gridId: nat, top: nat, bottom: nat, left: nat, right: nat, rows: int)
      requires Valid()
      modifies this
      ensures Valid() && State() == ScrollEvent(old(State()), gridId, top, bottom, left, right, rows)
    {
      if bottom < top || right < left {
        return;
      }
      if gridId != 1 {
        halted := true;
        return;
      }
      var regionHeight := bottom - top;
      if bottom > height || right > width {
        return;
      }
      var count: int, step: int, dest: int;
      if rows >= 0 {
        dest, step, count := top, 1, regionHeight - rows;
      } else {
        dest, step, count := bottom - 1, -1, regionHeight + rows;
      }
      if count <= 0 {
        return;
      }
      cells := CopyLoop(cells, width, height, dest, dest + rows, step, count, left, right);
    }

    method BusyStart()
      requires Valid()
      modifies this
      ensures Valid() && State() == BusyEvent(old(State()), true)
    {
      cursorHidden := true;
    }

    method BusyStop()
      requires Valid()
      modifies this
      ensures Valid() && State() == BusyEvent(old(State()), false)
    {
      cursorHidden := false;
    }

    method Flush()
      requires Valid()
      modifies this
      ensures Valid() && State() == FlushEvent(old(State()))
    {
      drawTick := drawTick + 1;
      completed := Grid();
    }

    /** hl_new_entry on the controller's table; the index of the entry to define is returned. */
    method HlNewEntry(hlid: nat) returns (index: nat)
      requires Valid()
      modifies this
      ensures Valid() && index < |hlTable|
      ensures hlTable == NewEntryTable(old(hlTable), hlid) && index == NewEntryIndex(old(hlTable), hlid)
      ensures State() == old(State()).(hlTable := hlTable)
    {
      var size := |hlTable|;
      if hlid == size {
        hlTable := hlTable + [hlTable[0]];
        return |hlTable| - 1;
      }
      if hlid < size {
        hlTable := hlTable[hlid := hlTable[0]];
        return hlid;
      }
      var defaults := hlTable[0];
      hlTable := hlTable + seq(hlid - size, _ => defaults);
      return |hlTable| - 1;
    }

    method HlAttrDefine(hlid: nat, pairs: seq<Pair>)
      requires Valid()
      modifies this
      ensures Valid() && State() == HighlightEvent(old(State()), hlid, pairs)
    {
      var base := hlTable[0];
      var index := HlNewEntry(hlid);
      var attrs := ApplyDefinition(base, pairs);
      hlTable := hlTable[index := attrs];
    }

    method DefaultColorsSet(fg: nat, bg: nat, sp: nat)
      requires Valid()
      modifies this
      ensures Valid() && State() == DefaultColorsEvent(old(State()), fg, bg, sp)
    {
      var def := DefaultEntry(fg, bg, sp);
      hlTable := AdjustTable(def, hlTable[0 := def]);
      cells := AdjustGrid(def, cells);
    }

    method ModeInfoSet(enabled: bool, maps: seq<Object>)
      requires Valid()
      modifies this
      ensures Valid() && State() == ModeInfoEvent(old(State()), maps)
    {
      var table, cursor := ModeLoop(hlTable, maps, cursorAttrs);
      modeTable, cursorAttrs := table, cursor;
    }

    method ModeChange(name: string, index: nat)
      requires Valid()
      modifies this
      ensures Valid() && State() == ModeChangeEvent(old(State()), index)
    {
      if index >= |modeTable| {
        return;
      }
      cursorAttrs := modeTable[index];
    }

    /** apply_one: the tuple's leading elements, converted to the parameter types, passed to the handler name routes to. */
    method ApplyOne(name: string, tuple: Object)
      requires Valid()
      modifies this
      ensures Valid() && State() == ApplyOneOf(old(State()), name, tuple)
    {
      if halted {
        return;
      }
      var sig := Signature(name);
      if sig.None? || !ArgsFit(tuple, sig.value) {
        return;
      }
      var a := tuple.items;
      if name == "grid_line" {
        GridLine(a[0].bits, a[1].bits, a[2].bits, a[3].items);
      } else if name == "grid_resize" {
        GridResize(a[0].bits, a[1].bits, a[2].bits);
      } else if name == "grid_scroll" {
        GridScroll(a[0].bits, a[1].bits, a[2].bits, a[3].bits, a[4].bits, SignedValue(a[5].bits));
      } else if name == "flush" {
        Flush();
      } else if name == "grid_clear" {
        GridClear(a[0].bits);
      } else if name == "hl_attr_define" {
        HlAttrDefine(a[0].bits, a[1].pairs);
      } else if name == "default_colors_set" {
        DefaultColorsSet(AsUnsigned(a[0].bits, 32), AsUnsigned(a[1].bits, 32), AsUnsigned(a[2].bits, 32));
      } else if name == "mode_info_set" {
        ModeInfoSet(a[0].value, a[1].items);
      } else if name == "mode_change" {
        ModeChange(a[0].text, a[1].bits);
      } else if name == "grid_cursor_goto" {
        GridCursorGoto(a[0].bits, a[1].bits, a[2].bits);
      } else if name == "busy_start" {
        BusyStart();
      } else {
        BusyStop();
      }
    }

    method RedrawEvent(event: Object)
      requires Valid()
      modifies this
      ensures Valid() && State() == RedrawEventOf(old(State()), event)
    {
      if !event.Array? || |event.items| == 0 || !event.items[0].Str? {
        return;
      }
      var name := event.items[0].text;
      if Signature(name).None? {
        return;
      }
      var args := event.items[1..];
      for i := 0 to |args|
        invariant Valid()
        invariant ApplyAllOf(State(), name, args[i..]) == ApplyAllOf(old(State()), name, args)
      {
        assert args[i..][1..] == args[i + 1..];
        ApplyOne(name, args[i]);
      }
    }

    method Redraw(events: seq<Object>)
      requires Valid()
      modifies this
      ensures Valid() && State() == RedrawOf(old(State()), events)
    {
      for i := 0 to |events|
        invariant Valid()
        invariant RedrawOf(State(), events[i..]) == RedrawOf(old(State()), events)
      {
        assert events[i..][1..] == events[i + 1..];
        RedrawEvent(events[i]);
      }
    }
  }
}
