// Highlight attributes and the highlight table the redraw events index
// (entry 0 is the default highlight group), and the cursor attributes that
// mode_info_set builds from property maps.

module Highlights {
  import opened Common
  import opened Wire
  import opened Colors

  datatype Flag = Reverse | Bold | Italic | Underline | Undercurl | Strikethrough | Doublewidth

  /** cell_attributes: three colours and a set of style flags. */
  datatype Attributes = Attributes(foreground: Color, background: Color, special: Color, flags: set<Flag>)

  /** A value-initialised cell_attributes: zero colours, untagged, no flags. */
  const DEFAULT_ATTRIBUTES := Attributes(Color(0, false), Color(0, false), Color(0, false), {})

  // ---------------------------------------------------------------------
  // The highlight table

  /** hl_get_entry: a defined id reads its own entry, any other id the default entry. */
  function HlGetEntry(table: seq<Attributes>, hlid: nat): (r: Attributes)
    requires |table| > 0
    ensures r in table
    ensures hlid < |table| ==> r == table[hlid]
    ensures hlid >= |table| ==> r == table[0]
  {
    if hlid < |table| then table[hlid] else table[0]
  }

  /**
   * The table after hl_new_entry(hlid): the next id appends a copy of the
   * default entry, a used id is reset to it, and an id past the end grows
   * the table to hlid entries, all copies of the default entry.
   */
  function NewEntryTable(table: seq<Attributes>, hlid: nat): (r: seq<Attributes>)
    requires |table| > 0
    ensures |r| == if hlid < |table| then |table| else if hlid == |table| then hlid + 1 else hlid
    ensures r[0] == table[0]
    ensures forall k :: 0 <= k < |table| && k != hlid ==> r[k] == table[k]
    ensures forall k :: |table| <= k < |r| ==> r[k] == table[0]
    ensures hlid < |r| ==> r[hlid] == table[0]
  {
    if hlid == |table| then table + [table[0]]
    else if hlid < |table| then table[hlid := table[0]]
    else table + seq(hlid - |table|, _ => table[0])
  }

  /** The entry hl_new_entry hands back: hlid itself, except past the end, where it is the last entry, hlid - 1. */
  function NewEntryIndex(table: seq<Attributes>, hlid: nat): (r: nat)
    requires |table| > 0
    ensures hlid <= |table| ==> r == hlid
    ensures hlid > |table| ==> r == |NewEntryTable(table, hlid)| - 1
    ensures r < |NewEntryTable(table, hlid)| && NewEntryTable(table, hlid)[r] == table[0]
  {
    if hlid <= |table| then hlid else hlid - 1
  }

  /**
   * hl_new_entry keeps every old entry but the one it resets, returns an
   * entry that holds the default attributes, and fills any gap with them.
   */
  lemma NewEntryShape(table: seq<Attributes>, hlid: nat)
    requires |table| > 0
    ensures var r, i := NewEntryTable(table, hlid), NewEntryIndex(table, hlid);
      |r| == Max(|table|, Max(hlid, hlid + (if hlid <= |table| then 1 else 0))) &&
      i < |r| && r[i] == table[0] && r[0] == table[0] &&
      (forall k :: 0 <= k < |table| && k != hlid ==> r[k] == table[k]) &&
      (forall k :: |table| <= k < |r| ==> r[k] == table[0])
  {
  }

  /** An id up to the table size is defined in place: reading it back gives the new entry. */
  lemma DefinedIdReadsBack(table: seq<Attributes>, hlid: nat, attrs: Attributes)
    requires |table| > 0 && hlid <= |table|
    ensures var r := NewEntryTable(table, hlid)[NewEntryIndex(table, hlid) := attrs];
      HlGetEntry(r, hlid) == attrs
  {
  }

  /**
   * An id past the end is defined one slot early: the entry written is
   * hlid - 1, and reading hlid gives the default entry.
   */
  lemma GapDefinesPreviousId(table: seq<Attributes>, hlid: nat, attrs: Attributes)
    requires |table| > 0 && hlid > |table|
    ensures var r := NewEntryTable(table, hlid)[NewEntryIndex(table, hlid) := attrs];
      |r| == hlid && r[hlid - 1] == attrs && HlGetEntry(r, hlid) == table[0]
  {
  }

  // ---------------------------------------------------------------------
  // hl_attr_define

  /** set_rgb_color: an integer sets the colour to its low 32 bits, untagged; anything else is logged and ignored. */
  function RgbOf(current: Color, value: Object): Color
  {
    if value.Integer? then Color(AsUnsigned(value.bits, 32), false) else current
  }

  /** The style flag a key names, if any. */
  function FlagOfKey(name: string): Option<Flag>
  {
    if name == "underline" then Some(Underline)
    else if name == "bold" then Some(Bold)
    else if name == "italic" then Some(Italic)
    else if name == "strikethrough" then Some(Strikethrough)
    else if name == "undercurl" then Some(Undercurl)
    else if name == "reverse" then Some(Reverse)
    else None
  }

  /** One pair of an hl_attr_define map applied to the entry being built. */
  function ApplyHighlightKey(a: Attributes, p: Pair): Attributes
  {
    if !p.key.Str? then a
    else if p.key.text == "foreground" then a.(foreground := RgbOf(a.foreground, p.value))
    else if p.key.text == "background" then a.(background := RgbOf(a.background, p.value))
    else if p.key.text == "special" then a.(special := RgbOf(a.special, p.value))
    else if FlagOfKey(p.key.text).Some? then a.(flags := a.flags + {FlagOfKey(p.key.text).value})
    else a
  }

  /** The pairs applied in order. */
  function HighlightFold(base: Attributes, pairs: seq<Pair>): Attributes
  {
    if |pairs| == 0 then base
    else ApplyHighlightKey(HighlightFold(base, pairs[..|pairs| - 1]), pairs[|pairs| - 1])
  }

  /** The entry hl_attr_define leaves: the pairs applied to the default entry, then the colours swapped if reversed. */
  function DefineAttributes(base: Attributes, pairs: seq<Pair>): Attributes
  {
    var a := HighlightFold(base, pairs);
    if Reverse in a.flags then a.(foreground := a.background, background := a.foreground) else a
  }

  /** The value of the last pair whose key is the string name and whose value is an integer. */
  function LastInteger(pairs: seq<Pair>, name: string): (r: Option<u64>)
    ensures r.Some? ==> exists i :: 0 <= i < |pairs| && pairs[i] == Pair(Str(name), Integer(r.value))
  {
    if |pairs| == 0 then None
    else
      var p := pairs[|pairs| - 1];
      if p.key == Str(name) && p.value.Integer? then Some(p.value.bits)
      else LastInteger(pairs[..|pairs| - 1], name)
  }

  /** The flags the string keys of a map name. */
  function NamedFlags(pairs: seq<Pair>): set<Flag>
  {
    set i | 0 <= i < |pairs| && pairs[i].key.Str? && FlagOfKey(pairs[i].key.text).Some? :: FlagOfKey(pairs[i].key.text).value
  }

  /** A flag key sets its flag whatever its value, and nothing clears a flag. */
  lemma {:induction false} FlagsAccumulate(base: Attributes, pairs: seq<Pair>)
    ensures HighlightFold(base, pairs).flags == base.flags + NamedFlags(pairs)
  {
    if |pairs| > 0 {
      var init := pairs[..|pairs| - 1];
      var p := pairs[|pairs| - 1];
      FlagsAccumulate(base, init);
      assert pairs == init + [p];
      NamedFlagsSnoc(init, p);
      KeyAddsNamedFlags(HighlightFold(base, init), p);
    }
  }

  /** One pair adds the flag its key names, if any, and no other. */
  lemma KeyAddsNamedFlags(a: Attributes, p: Pair)
    ensures ApplyHighlightKey(a, p).flags == a.flags + NamedFlags([p])
  {
    assert [p][0] == p;
    if p.key.Str? && FlagOfKey(p.key.text).Some? {
      assert NamedFlags([p]) == {FlagOfKey(p.key.text).value};
    } else {
      assert NamedFlags([p]) == {};
    }
  }

  lemma NamedFlagsSnoc(init: seq<Pair>, p: Pair)
    ensures NamedFlags(init + [p]) == NamedFlags(init) + NamedFlags([p])
  {
    var pairs := init + [p];
    forall f | f in NamedFlags(pairs) ensures f in NamedFlags(init) + NamedFlags([p]) {
      var i :| 0 <= i < |pairs| && pairs[i].key.Str? && FlagOfKey(pairs[i].key.text) == Some(f);
      if i < |init| {
        assert init[i] == pairs[i];
      } else {
        assert [p][0] == pairs[i];
      }
    }
    forall f | f in NamedFlags(init) ensures f in NamedFlags(pairs) {
      var i :| 0 <= i < |init| && init[i].key.Str? && FlagOfKey(init[i].key.text) == Some(f);
      assert pairs[i] == init[i];
    }
    forall f | f in NamedFlags([p]) ensures f in NamedFlags(pairs) {
      assert pairs[|pairs| - 1] == [p][0];
    }
  }

  /** Each colour is the one the last integer-valued pair for it gives, or the base colour if there is none. */
  lemma {:induction false} ColorsLastWins(base: Attributes, pairs: seq<Pair>)
    ensures var a := HighlightFold(base, pairs);
      var fg, bg, sp := LastInteger(pairs, "foreground"), LastInteger(pairs, "background"), LastInteger(pairs, "special");
      a.foreground == (if fg.Some? then Color(AsUnsigned(fg.value, 32), false) else base.foreground) &&
      a.background == (if bg.Some? then Color(AsUnsigned(bg.value, 32), false) else base.background) &&
      a.special == (if sp.Some? then Color(AsUnsigned(sp.value, 32), false) else base.special)
  {
    if |pairs| > 0 {
      ColorsLastWins(base, pairs[..|pairs| - 1]);
    }
  }

  /** With the reverse flag set, the defined entry shows the colours the other way round. */
  lemma ReverseSwaps(base: Attributes, pairs: seq<Pair>)
    requires Reverse in base.flags || Reverse in NamedFlags(pairs)
    ensures DefineAttributes(base, pairs).foreground == HighlightFold(base, pairs).background
    ensures DefineAttributes(base, pairs).background == HighlightFold(base, pairs).foreground
  {
    FlagsAccumulate(base, pairs);
  }

  /** hl_attr_define's loop over the definition map. */
  method ApplyDefinition(base: Attributes, pairs: seq<Pair>) returns (attrs: Attributes)
    ensures attrs == DefineAttributes(base, pairs)
  {
    attrs := base;
    for i := 0 to |pairs|
      invariant attrs == HighlightFold(base, pairs[..i])
    {
      assert pairs[..i + 1][..i] == pairs[..i];
      attrs := ApplyHighlightKey(attrs, pairs[i]);
    }
    assert pairs[..|pairs|] == pairs;
    if Reverse in attrs.flags {
      attrs := attrs.(foreground := attrs.background, background := attrs.foreground);
    }
  }

  // ---------------------------------------------------------------------
  // default_colors_set

  predicate IsTagged(a: Attributes)
  {
    a.foreground.isDefault && a.background.isDefault && a.special.isDefault
  }

  /** adjust_defaults: each colour tagged as default takes the default entry's colour (fore and back crossed when reversed). */
  function AdjustDefaults(def: Attributes, a: Attributes): (r: Attributes)
    ensures r.flags == a.flags
    ensures !a.foreground.isDefault ==> r.foreground == a.foreground
    ensures !a.background.isDefault ==> r.background == a.background
    ensures !a.special.isDefault ==> r.special == a.special
  {
    var reversed := Reverse in a.flags;
    a.(foreground := if a.foreground.isDefault then (if reversed then def.background else def.foreground) else a.foreground,
       background := if a.background.isDefault then (if reversed then def.foreground else def.background) else a.background,
       special := if a.special.isDefault then def.special else a.special)
  }

  /** With a default entry whose colours are all tagged, adjusting twice is adjusting once. */
  lemma AdjustIdempotent(def: Attributes, a: Attributes)
    requires IsTagged(def)
    ensures AdjustDefaults(def, AdjustDefaults(def, a)) == AdjustDefaults(def, a)
  {
  }

  /** The default entry default_colors_set builds: the three colours tagged, no flags. */
  function DefaultEntry(fg: nat, bg: nat, sp: nat): (def: Attributes)
    ensures IsTagged(def) && def.flags == {}
  {
    Attributes(Color(fg, true), Color(bg, true), Color(sp, true), {})
  }

  /** Adjusting the default entry itself leaves it as it is. */
  lemma DefaultEntryFixed(fg: nat, bg: nat, sp: nat)
    ensures AdjustDefaults(DefaultEntry(fg, bg, sp), DefaultEntry(fg, bg, sp)) == DefaultEntry(fg, bg, sp)
  {
  }

  // ---------------------------------------------------------------------
  // Cursor attributes

  datatype CursorShape = Block | Vertical | Horizontal

  datatype CursorAttributes = CursorAttributes(
    shape: CursorShape, percentage: nat, blinkwait: nat, blinkon: nat, blinkoff: nat, blinks: bool,
    foreground: Color, background: Color, special: Color, shortname: nat)

  /** A value-initialised cursor_attributes. */
  const DEFAULT_CURSOR := CursorAttributes(Block, 0, 0, 0, 0, false, Color(0, false), Color(0, false), Color(0, false), 0)

  /** to_cursor_shape: an unknown name is logged and read as a block. */
  function ToCursorShape(name: string): (r: CursorShape)
    ensures r == Vertical <==> name == "vertical"
    ensures r == Horizontal <==> name == "horizontal"
    ensures r == Block <==> name != "vertical" && name != "horizontal"
  {
    if name == "vertical" then Vertical else if name == "horizontal" then Horizontal else Block
  }

  /**
   * set_color_attrs: the special colour comes from the entry; the default
   * entry (id 0) gives its colours crossed, any other entry as they are.
   */
  function SetColorAttrs(c: CursorAttributes, table: seq<Attributes>, hlid: nat): (r: CursorAttributes)
    requires |table| > 0
    ensures r.(special := c.special, foreground := c.foreground, background := c.background) == c
    ensures r.special == HlGetEntry(table, hlid).special
    ensures hlid != 0 ==> r.foreground == HlGetEntry(table, hlid).foreground && r.background == HlGetEntry(table, hlid).background
    ensures hlid == 0 ==> r.foreground == table[0].background && r.background == table[0].foreground
  {
    var hl := HlGetEntry(table, hlid);
    if hlid != 0 then c.(special := hl.special, foreground := hl.foreground, background := hl.background)
    else c.(special := hl.special, foreground := hl.background, background := hl.foreground)
  }

  /** The 16-bit short name after copying up to two bytes of text over it (bytes little-endian). */
  function ShortName(current: nat, text: string): (r: nat)
    ensures |text| == 0 ==> r == current
    ensures |text| > 0 ==> r < 0x10000
    ensures r % 256 == if |text| >= 1 then text[0] as int % 256 else current % 256
    ensures r / 256 % 256 == if |text| >= 2 then text[1] as int % 256 else current / 256 % 256
  {
    if |text| >= 2 then (text[0] as int) % 256 + 256 * ((text[1] as int) % 256)
    else if |text| == 1 then (text[0] as int) % 256 + 256 * (current / 256 % 256)
    else current
  }

  /** One pair of a mode property map applied to the cursor attributes being built; a wrongly typed value is logged and skipped. */
  function ApplyCursorKey(c: CursorAttributes, table: seq<Attributes>, p: Pair): CursorAttributes
    requires |table| > 0
  {
    if !p.key.Str? then c
    else
      var name, v := p.key.text, p.value;
      if name == "cell_percentage" && v.Integer? then c.(percentage := AsUnsigned(v.bits, 16))
      else if name == "blinkwait" && v.Integer? then c.(blinkwait := AsUnsigned(v.bits, 16))
      else if name == "blinkon" && v.Integer? then c.(blinkon := AsUnsigned(v.bits, 16))
      else if name == "blinkoff" && v.Integer? then c.(blinkoff := AsUnsigned(v.bits, 16))
      else if name == "cursor_shape" && v.Str? then c.(shape := ToCursorShape(v.text))
      else if name == "attr_id" && v.Integer? then SetColorAttrs(c, table, v.bits)
      else if name == "short_name" && v.Str? then c.(shortname := ShortName(c.shortname, v.text))
      else c
  }

  function CursorFold(table: seq<Attributes>, pairs: seq<Pair>): CursorAttributes
    requires |table| > 0
  {
    if |pairs| == 0 then DEFAULT_CURSOR
    else ApplyCursorKey(CursorFold(table, pairs[..|pairs| - 1]), table, pairs[|pairs| - 1])
  }

  /** The cursor attributes a property map describes; the cursor blinks when all three blink times are non-zero. */
  function CursorOf(table: seq<Attributes>, pairs: seq<Pair>): CursorAttributes
    requires |table| > 0
  {
    var c := CursorFold(table, pairs);
    if c.blinkwait != 0 && c.blinkoff != 0 && c.blinkon != 0 then c.(blinks := true) else c
  }

  /** The 16-bit timing or size a numeric key of a property map sets. */
  function NumberOf(c: CursorAttributes, name: string): nat
  {
    if name == "cell_percentage" then c.percentage
    else if name == "blinkwait" then c.blinkwait
    else if name == "blinkon" then c.blinkon
    else c.blinkoff
  }

  predicate IsNumberKey(name: string)
  {
    name == "cell_percentage" || name == "blinkwait" || name == "blinkon" || name == "blinkoff"
  }

  /** Each number is the low 16 bits of the last integer given for its key, or 0 when there is none. */
  lemma NumberLastWins(table: seq<Attributes>, pairs: seq<Pair>, name: string)
    requires |table| > 0 && IsNumberKey(name)
    ensures var n := LastInteger(pairs, name);
      NumberOf(CursorOf(table, pairs), name) == if n.Some? then AsUnsigned(n.value, 16) else 0
  {
    FoldNumber(table, pairs, name);
  }

  lemma {:induction false} FoldNumber(table: seq<Attributes>, pairs: seq<Pair>, name: string)
    requires |table| > 0 && IsNumberKey(name)
    ensures var n := LastInteger(pairs, name);
      NumberOf(CursorFold(table, pairs), name) == if n.Some? then AsUnsigned(n.value, 16) else 0
  {
    if |pairs| > 0 {
      FoldNumber(table, pairs[..|pairs| - 1], name);
      NumberStep(CursorFold(table, pairs[..|pairs| - 1]), table, pairs[|pairs| - 1], name);
    }
  }

  lemma NumberStep(c: CursorAttributes, table: seq<Attributes>, p: Pair, name: string)
    requires |table| > 0 && IsNumberKey(name)
    ensures NumberOf(ApplyCursorKey(c, table, p), name) ==
      if p.key == Str(name) && p.value.Integer? then AsUnsigned(p.value.bits, 16) else NumberOf(c, name)
  {
  }

  /** The cursor blinks exactly when the last blinkwait, blinkon and blinkoff values are all non-zero modulo 2^16. */
  lemma BlinksIff(table: seq<Attributes>, pairs: seq<Pair>)
    requires |table| > 0
    ensures var w, on, off := LastInteger(pairs, "blinkwait"), LastInteger(pairs, "blinkon"), LastInteger(pairs, "blinkoff");
      CursorOf(table, pairs).blinks <==>
        w.Some? && AsUnsigned(w.value, 16) != 0 && on.Some? && AsUnsigned(on.value, 16) != 0 && off.Some? && AsUnsigned(off.value, 16) != 0
  {
    NumberLastWins(table, pairs, "blinkwait");
    NumberLastWins(table, pairs, "blinkon");
    NumberLastWins(table, pairs, "blinkoff");
    BlinksStartFalse(table, pairs);
  }

  lemma {:induction false} BlinksStartFalse(table: seq<Attributes>, pairs: seq<Pair>)
    requires |table| > 0
    ensures !CursorFold(table, pairs).blinks
  {
    if |pairs| > 0 {
      BlinksStartFalse(table, pairs[..|pairs| - 1]);
    }
  }

  /** The colours are those the last attr_id selects, through set_color_attrs. */
  lemma {:induction false} ColorsFromLastAttrId(table: seq<Attributes>, pairs: seq<Pair>)
    requires |table| > 0
    ensures var id, c := LastInteger(pairs, "attr_id"), CursorOf(table, pairs);
      id.Some? ==> var e := SetColorAttrs(DEFAULT_CURSOR, table, id.value);
        c.foreground == e.foreground && c.background == e.background && c.special == e.special
  {
    if |pairs| > 0 {
      ColorsFromLastAttrId(table, pairs[..|pairs| - 1]);
    }
  }

  /** to_cursor_attributes: the property map's pairs applied in order to value-initialised attributes. */
  method ToCursorAttributes(table: seq<Attributes>, pairs: seq<Pair>) returns (attrs: CursorAttributes)
    requires |table| > 0
    ensures attrs == CursorOf(table, pairs)
  {
    attrs := DEFAULT_CURSOR;
    for i := 0 to |pairs|
      invariant attrs == CursorFold(table, pairs[..i])
    {
      assert pairs[..i + 1][..i] == pairs[..i];
      attrs := ApplyCursorKey(attrs, table, pairs[i]);
    }
    assert pairs[..|pairs|] == pairs;
    if attrs.blinkwait != 0 && attrs.blinkoff != 0 && attrs.blinkon != 0 {
      attrs := attrs.(blinks := true);
    }
  }
}
