// The guifont option: a comma-separated list of font names, each with an
// optional ":h<size>" suffix.

module Fonts {
  import opened Common
  import Wire

  /** A font name and its point size. */
  datatype Font = Font(name: string, size: real)

  predicate IsDigit(c: char)
  {
    '0' <= c <= '9'
  }

  predicate AllDigits(t: string)
  {
    forall i :: 0 <= i < |t| ==> '0' <= t[i] <= '9'
  }

  function Pow10(n: nat): (r: nat)
    ensures r > 0
  {
    if n == 0 then 1 else 10 * Pow10(n - 1)
  }

  // ---------------------------------------------------------------------
  // Library searches on strings

  /** string_view::find(c, pos): the first index at or after pos holding c. */
  function Find(s: string, c: char, pos: nat): (r: Option<nat>)
    ensures r.Some? ==> pos <= r.value < |s| && s[r.value] == c
    ensures forall i :: pos <= i < |s| && (r.None? || i < r.value) ==> s[i] != c
    decreases |s| - pos
  {
    if pos >= |s| then None else if s[pos] == c then Some(pos) else Find(s, c, pos + 1)
  }

  /** string_view::find_first_not_of(c, pos): the first index at or after pos not holding c. */
  function FindFirstNotOf(s: string, c: char, pos: nat): (r: Option<nat>)
    ensures r.Some? ==> pos <= r.value < |s| && s[r.value] != c
    ensures forall i :: pos <= i < |s| && (r.None? || i < r.value) ==> s[i] == c
    decreases |s| - pos
  {
    if pos >= |s| then None else if s[pos] != c then Some(pos) else FindFirstNotOf(s, c, pos + 1)
  }

  // ---------------------------------------------------------------------
  // make_font

  /** Where the run of decimal digits that ends s begins. */
  function DigitsStart(s: string): (k: nat)
    ensures k <= |s| && AllDigits(s[k..])
    ensures k > 0 ==> !IsDigit(s[k - 1])
  {
    if |s| == 0 || !IsDigit(s[|s| - 1]) then |s| else DigitsStart(s[..|s| - 1])
  }

  /** The start of the trailing digits is the only position with digits after it and a non-digit before it. */
  lemma DigitsStartUnique(s: string, j: nat)
    requires j <= |s| && AllDigits(s[j..])
    requires j > 0 ==> !IsDigit(s[j - 1])
    ensures DigitsStart(s) == j
  {
    var k: nat := DigitsStart(s);
    if k < j {
      DigitBefore(s, k, j);
    } else if k > j {
      DigitBefore(s, j, k);
    }
  }

  lemma DigitBefore(s: string, k: nat, i: nat)
    requires k < i <= |s| && AllDigits(s[k..])
    ensures IsDigit(s[i - 1])
  {
    assert s[k..][i - 1 - k] == s[i - 1];
  }

  /**
   * The font make_font builds: a trailing ":h<digits>" with a non-zero
   * value (taken modulo 2^64, as the size_t accumulator wraps) gives the
   * name before it and that size; anything else is the whole string at the
   * default size.
   */
  function FontOf(s: string, defaultSize: real): Font
  {
    var k := DigitsStart(s);
    var size := Wire.DecimalValue(s[k..]) % TWO_64;
    if size != 0 && k >= 2 && s[k - 1] == 'h' && s[k - 2] == ':' then Font(s[..k - 2], size as real)
    else Font(s, defaultSize)
  }

  /** make_font: reads the digits from the end of the string, then looks for ":h" before them. */
  method MakeFont(fontstr: string, defaultSize: real) returns (f: Font)
    ensures f == FontOf(fontstr, defaultSize)
  {
    var index := |fontstr|;
    var multiply := 1;
    var size := 0;
    ghost var start := |fontstr|;
    while index > 0
      invariant 0 <= index == start <= |fontstr|
      invariant AllDigits(fontstr[start..])
      invariant size == Wire.DecimalValue(fontstr[start..]) % TWO_64
      invariant multiply == Pow10(|fontstr| - start) % TWO_64
      decreases index
    {
      index := index - 1;
      var digit := fontstr[index];
      if IsDigit(digit) {
        DigitStep(fontstr, index, size, multiply);
        size := (size + multiply * (digit as int - '0' as int)) % TWO_64;
        multiply := multiply * 10 % TWO_64;
        start := index;
      } else {
        break;
      }
    }
    DigitsStartUnique(fontstr, start);
    if size != 0 && index != 0 && fontstr[index] == 'h' && fontstr[index - 1] == ':' {
      f := Font(fontstr[..index - 1], size as real);
    } else {
      f := Font(fontstr, defaultSize);
    }
  }

  /** One more digit in front: the wrapped accumulator and multiplier stay the remainders of the exact values. */
  lemma DigitStep(s: string, i: nat, size: nat, multiply: nat)
    requires i < |s| && IsDigit(s[i]) && AllDigits(s[i + 1..])
    requires size == Wire.DecimalValue(s[i + 1..]) % TWO_64
    requires multiply == Pow10(|s| - i - 1) % TWO_64
    ensures AllDigits(s[i..])
    ensures (size + multiply * (s[i] as int - '0' as int)) % TWO_64 == Wire.DecimalValue(s[i..]) % TWO_64
    ensures multiply * 10 % TWO_64 == Pow10(|s| - i) % TWO_64
  {
    var d := s[i] as int - '0' as int;
    var t := s[i + 1..];
    var p := Pow10(|s| - i - 1);
    assert s[i..] == [s[i]] + t;
    DecimalCons(s[i], t);
    assert Wire.DecimalValue(s[i..]) == Wire.DecimalValue(t) + p * d;
    ModAddMul(Wire.DecimalValue(t), p, d, TWO_64);
    ModAddMul(0, p, 10, TWO_64);
    assert Pow10(|s| - i) == p * 10;
  }

  /** A digit written in front of t adds its value times 10^|t|. */
  lemma {:induction false} DecimalCons(c: char, t: string)
    requires IsDigit(c) && AllDigits(t)
    ensures AllDigits([c] + t)
    ensures Wire.DecimalValue([c] + t) == Wire.DecimalValue(t) + Pow10(|t|) * (c as int - '0' as int)
  {
    var d := c as int - '0' as int;
    var u := [c] + t;
    if |t| > 0 {
      var last := t[|t| - 1] as int - '0' as int;
      var init := t[..|t| - 1];
      assert AllDigits(init);
      DecimalCons(c, init);
      var vi, p := Wire.DecimalValue(init), Pow10(|t| - 1);
      assert Wire.DecimalValue(u) == 10 * (vi + p * d) + last by {
        assert u[..|u| - 1] == [c] + init && u[|u| - 1] == t[|t| - 1];
      }
      assert Wire.DecimalValue(t) == 10 * vi + last;
      ShiftDigit(vi, p, d);
    } else {
      assert u == [c];
    }
  }

  lemma ShiftDigit(v: int, p: int, d: int)
    ensures 10 * (v + p * d) == 10 * v + (10 * p) * d
  {
  }

  lemma ModAddMul(a: nat, p: nat, d: nat, m: nat)
    requires m > 0
    ensures ((a % m) + (p % m) * d) % m == (a + p * d) % m
  {
    var qa, qp := a / m, p / m;
    var x := a % m + (p % m) * d;
    assert a == m * qa + a % m;
    assert p == m * qp + p % m;
    var k := SplitProduct(m, qp, p % m, d);
    assert a + p * d == x + m * (qa + k);
    ModAddMultiple(x, qa + k, m);
  }

  /** (m q + r) d splits into a multiple of m and r d. */
  lemma SplitProduct(m: nat, q: nat, r: nat, d: nat) returns (k: nat)
    ensures k == q * d && (m * q + r) * d == m * k + r * d
  {
    k := q * d;
    assert (m * q + r) * d == (m * q) * d + r * d;
    assert (m * q) * d == m * (q * d);
  }

  /** A name followed by ":h" and the decimal text of a size below 2^64 reads back as that name and size. */
  lemma FontRoundTrip(name: string, size: nat, defaultSize: real)
    requires 0 < size < TWO_64
    ensures FontOf(name + ":h" + Wire.Decimal(size), defaultSize) == Font(name, size as real)
  {
    var digits := Wire.Decimal(size);
    var s := name + ":h" + digits;
    var k := |name| + 2;
    assert s[k..] == digits && s[k - 1] == 'h' && s[k - 2] == ':' && s[..k - 2] == name;
    DigitsStartUnique(s, k);
    Wire.DecimalRoundTrip(size);
    ModSmall(size, TWO_64);
  }

  /** A string that does not end in a digit names a font of the default size. */
  lemma NoSizeSuffix(s: string, defaultSize: real)
    requires |s| == 0 || !IsDigit(s[|s| - 1])
    ensures FontOf(s, defaultSize) == Font(s, defaultSize)
  {
    assert s[|s|..] == [];
  }

  // ---------------------------------------------------------------------
  // find_unescaped_comma

  /** A separating comma: one not at the start of the string and not preceded by a backslash. */
  predicate IsUnescapedComma(s: string, k: nat)
  {
    0 < k < |s| && s[k] == ',' && s[k - 1] != '\\'
  }

  /** The first separating comma at or after pos. */
  function UnescapedCommaFrom(s: string, pos: nat): (r: Option<nat>)
    ensures r.Some? ==> pos <= r.value && IsUnescapedComma(s, r.value)
    ensures forall k :: pos <= k && (r.None? || k < r.value) ==> !IsUnescapedComma(s, k)
    decreases |s| - pos
  {
    if pos >= |s| then None
    else if IsUnescapedComma(s, pos) then Some(pos)
    else UnescapedCommaFrom(s, pos + 1)
  }

  /** find_unescaped_comma: searches for a comma, and searches on past each escaped one. */
  method FindUnescapedComma(s: string, pos: nat) returns (r: Option<nat>)
    ensures r == UnescapedCommaFrom(s, pos)
  {
    var p := pos;
    while true
      invariant pos <= p && UnescapedCommaFrom(s, p) == UnescapedCommaFrom(s, pos)
      decreases |s| + 1 - p
    {
      var found := Find(s, ',', p);
      if found.None? {
        UnescapedFromNone(s, p);
        return None;
      }
      var k := found.value;
      CommaSkip(s, p, k);
      if k != 0 && s[k - 1] != '\\' {
        return Some(k);
      }
      p := k + 1;
    }
  }

  lemma UnescapedFromNone(s: string, p: nat)
    requires forall i :: p <= i < |s| ==> s[i] != ','
    ensures UnescapedCommaFrom(s, p) == None
  {
  }

  /** Positions before the next comma hold no separating comma. */
  lemma {:induction false} CommaSkip(s: string, p: nat, k: nat)
    requires p <= k < |s| && forall i :: p <= i < k ==> s[i] != ','
    ensures UnescapedCommaFrom(s, p) == UnescapedCommaFrom(s, k)
    decreases k - p
  {
    if p < k {
      CommaSkip(s, p + 1, k);
    }
  }

  // ---------------------------------------------------------------------
  // parse_guifont

  /**
   * The fonts from index on, as parse_guifont means them: the text up to
   * the next separating comma is a font; after a comma the spaces are
   * skipped, and a list that ends in a comma and spaces ends there.
   */
  function GuifontFrom(s: string, index: nat, defaultSize: real): (fonts: seq<Font>)
    requires index <= |s|
    ensures |fonts| >= 1
    decreases |s| - index
  {
    match UnescapedCommaFrom(s, index)
    case None => [FontOf(s[index..], defaultSize)]
    case Some(pos) =>
      var next := FindFirstNotOf(s, ' ', pos + 1);
      [FontOf(s[index..pos], defaultSize)] + if next.None? then [] else GuifontFrom(s, next.value, defaultSize)
  }

  function Guifont(s: string, defaultSize: real): seq<Font>
  {
    if |s| == 0 then [] else GuifontFrom(s, 0, defaultSize)
  }

  /**
   * parse_guifont as written: after the last comma and its spaces the
   * search position is npos, the loop goes on because it tests pos rather
   * than index, and substr(npos) throws (None).
   */
  function GuifontFromAsWritten(s: string, index: nat, defaultSize: real): (fonts: Option<seq<Font>>)
    requires index <= |s|
    decreases |s| - index
  {
    match UnescapedCommaFrom(s, index)
    case None => Some([FontOf(s[index..], defaultSize)])
    case Some(pos) =>
      var next := FindFirstNotOf(s, ' ', pos + 1);
      if next.None? then None
      else
        var rest := GuifontFromAsWritten(s, next.value, defaultSize);
        if rest.None? then None else Some([FontOf(s[index..pos], defaultSize)] + rest.value)
  }

  function GuifontAsWritten(s: string, defaultSize: real): Option<seq<Font>>
  {
    if |s| == 0 then Some([]) else GuifontFromAsWritten(s, 0, defaultSize)
  }

  predicate AllSpaces(t: string)
  {
    forall i :: 0 <= i < |t| ==> t[i] == ' '
  }

  /** A separating comma after which only spaces follow. */
  predicate TrailingSeparator(s: string, from: nat)
  {
    exists k :: from <= k < |s| && IsUnescapedComma(s, k) && AllSpaces(s[k + 1..])
  }

  lemma SpacesFrom(s: string, p: nat)
    requires p <= |s| && forall i :: p <= i < |s| ==> s[i] == ' '
    ensures AllSpaces(s[p..])
  {
    forall i | 0 <= i < |s| - p
      ensures s[p..][i] == ' '
    {
      assert s[p..][i] == s[p + i];
    }
  }

  /** The code as written throws exactly when the list ends in a separating comma and spaces. */
  lemma {:induction false} AsWrittenThrows(s: string, index: nat, defaultSize: real)
    requires index <= |s|
    ensures GuifontFromAsWritten(s, index, defaultSize).None? <==> TrailingSeparator(s, index)
    decreases |s| - index
  {
    match UnescapedCommaFrom(s, index)
    case None =>
      NoSeparatorNoTrailing(s, index);
    case Some(pos) =>
      var next := FindFirstNotOf(s, ' ', pos + 1);
      if next.None? {
        SpacesFrom(s, pos + 1);
      } else {
        AsWrittenThrows(s, next.value, defaultSize);
        TrailingAfterSpaces(s, index, pos, next.value);
      }
  }

  lemma NoSeparatorNoTrailing(s: string, index: nat)
    requires UnescapedCommaFrom(s, index).None?
    ensures !TrailingSeparator(s, index)
  {
  }

  /** Skipping a separating comma and the spaces after it keeps the question whether the list ends in one. */
  lemma TrailingAfterSpaces(s: string, index: nat, pos: nat, n: nat)
    requires UnescapedCommaFrom(s, index) == Some(pos)
    requires FindFirstNotOf(s, ' ', pos + 1) == Some(n)
    ensures TrailingSeparator(s, index) <==> TrailingSeparator(s, n)
  {
    if TrailingSeparator(s, index) {
      var k :| index <= k < |s| && IsUnescapedComma(s, k) && AllSpaces(s[k + 1..]);
      if k == pos {
        SpaceAt(s, k + 1, n);
      }
    }
  }

  lemma SpaceAt(s: string, p: nat, i: nat)
    requires p <= i < |s| && AllSpaces(s[p..])
    ensures s[i] == ' '
  {
    assert s[p..][i - p] == s[i];
  }

  /** Whenever the code as written returns, it returns what the corrected parse returns. */
  lemma {:induction false} AsWrittenAgrees(s: string, index: nat, defaultSize: real)
    requires index <= |s|
    requires GuifontFromAsWritten(s, index, defaultSize).Some?
    ensures GuifontFromAsWritten(s, index, defaultSize).value == GuifontFrom(s, index, defaultSize)
    decreases |s| - index
  {
    match UnescapedCommaFrom(s, index)
    case None =>
    case Some(pos) =>
      var next := FindFirstNotOf(s, ' ', pos + 1);
      AsWrittenAgrees(s, next.value, defaultSize);
  }

  /** "Menlo," throws as written; the corrected parse gives the one font. */
  lemma TrailingCommaThrows(defaultSize: real)
    ensures GuifontAsWritten("Menlo,", defaultSize).None?
    ensures Guifont("Menlo,", defaultSize) == [Font("Menlo", defaultSize)]
  {
    var s := "Menlo,";
    assert IsUnescapedComma(s, 5) && AllSpaces(s[6..]);
    AsWrittenThrows(s, 0, defaultSize);
    assert UnescapedCommaFrom(s, 0) == Some(5);
    assert FindFirstNotOf(s, ' ', 6) == None;
    assert s[0..5] == "Menlo";
    NoSizeSuffix("Menlo", defaultSize);
  }

  /** A string with no separating comma is one font. */
  lemma OneFont(s: string, defaultSize: real)
    requires |s| > 0 && forall k :: !IsUnescapedComma(s, k)
    ensures Guifont(s, defaultSize) == [FontOf(s, defaultSize)]
    ensures GuifontAsWritten(s, defaultSize) == Some(Guifont(s, defaultSize))
  {
    assert s[0..] == s;
  }

  /**
   * One turn of parse_guifont's loop: the font up to the next separating
   * comma (or the end), and where the next font starts, if anywhere.
   */
  method NextFont(guifont: string, index: nat, defaultSize: real) returns (font: Font, next: Option<nat>)
    requires index <= |guifont|
    ensures next.Some? ==> index < next.value < |guifont|
    ensures GuifontFrom(guifont, index, defaultSize) == [font] + if next.None? then [] else GuifontFrom(guifont, next.value, defaultSize)
  {
    var pos := FindUnescapedComma(guifont, index);
    if pos.None? {
      font := MakeFont(guifont[index..], defaultSize);
      next := None;
      return;
    }
    font := MakeFont(guifont[index..pos.value], defaultSize);
    next := FindFirstNotOf(guifont, ' ', pos.value + 1);
  }

  /** Concatenation of font lists is associative. */
  lemma AppendAssoc(a: seq<Font>, b: seq<Font>, c: seq<Font>)
    ensures (a + b) + c == a + (b + c)
  {
  }

  /** parse_guifont, with the end test on index: an empty option is no font. */
  method ParseGuifont(guifont: string, defaultSize: real) returns (fonts: seq<Font>)
    ensures fonts == Guifont(guifont, defaultSize)
  {
    fonts := [];
    if |guifont| == 0 {
      return;
    }
    var index := 0;
    while true
      invariant index < |guifont|
      invariant fonts + GuifontFrom(guifont, index, defaultSize) == Guifont(guifont, defaultSize)
      decreases |guifont| - index
    {
      var font, next := NextFont(guifont, index, defaultSize);
      if next.None? {
        assert GuifontFrom(guifont, index, defaultSize) == [font] + [];
        fonts := fonts + [font];
        return;
      }
      AppendAssoc(fonts, [font], GuifontFrom(guifont, next.value, defaultSize));
      fonts := fonts + [font];
      index := next.value;
    }
  }
}
