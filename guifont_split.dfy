// Splitting a guifont value at its first separating comma: the fonts of
// "a,b" are the font of a followed by the fonts of b.

module GuifontSplitting {
  import opened Common
  import opened Fonts

  /** The option texts GuifontFrom reads fonts from: the same split, before make_font. */
  function FontTextsFrom(s: string, index: nat): (texts: seq<string>)
    requires index <= |s|
    ensures |texts| >= 1
    decreases |s| - index
  {
    match UnescapedCommaFrom(s, index)
    case None => [s[index..]]
    case Some(pos) =>
      var next := FindFirstNotOf(s, ' ', pos + 1);
      [s[index..pos]] + if next.None? then [] else FontTextsFrom(s, next.value)
  }

  /** make_font applied to each text in turn. */
  function FontsOf(texts: seq<string>, defaultSize: real): (fonts: seq<Font>)
    ensures |fonts| == |texts|
  {
    if |texts| == 0 then [] else [FontOf(texts[0], defaultSize)] + FontsOf(texts[1..], defaultSize)
  }

  /** GuifontFrom is make_font over the split texts. */
  lemma {:induction false} GuifontFromTexts(s: string, index: nat, defaultSize: real)
    requires index <= |s|
    ensures GuifontFrom(s, index, defaultSize) == FontsOf(FontTextsFrom(s, index), defaultSize)
    decreases |s| - index
  {
    match UnescapedCommaFrom(s, index)
    case None =>
      assert FontsOf([s[index..]], defaultSize) == [FontOf(s[index..], defaultSize)];
    case Some(pos) =>
      var next := FindFirstNotOf(s, ' ', pos + 1);
      var rest := if next.None? then [] else FontTextsFrom(s, next.value);
      if next.Some? {
        GuifontFromTexts(s, next.value, defaultSize);
      }
      assert ([s[index..pos]] + rest)[1..] == rest;
  }

  /** The texts from index, when a separating comma at q is followed by a font at n. */
  lemma TextsNext(s: string, index: nat, q: nat, n: nat)
    requires index <= |s| && UnescapedCommaFrom(s, index) == Some(q) && FindFirstNotOf(s, ' ', q + 1) == Some(n)
    ensures FontTextsFrom(s, index) == [s[index..q]] + FontTextsFrom(s, n)
  {
  }
  /** The first separating comma at or after i is k when k is one and none lies in between. */
  lemma {:induction false} CommaFromSome(s: string, i: nat, k: nat)
    requires i <= k && IsUnescapedComma(s, k)
    requires forall u :: i <= u < k ==> !IsUnescapedComma(s, u)
    ensures UnescapedCommaFrom(s, i) == Some(k)
    decreases k - i
  {
    if i < k {
      CommaFromSome(s, i + 1, k);
    }
  }

  /** No separating comma at or after i. */
  lemma {:induction false} CommaFromNone(s: string, i: nat)
    requires forall u :: i <= u ==> !IsUnescapedComma(s, u)
    ensures UnescapedCommaFrom(s, i).None?
    decreases |s| - i
  {
    if i < |s| {
      CommaFromNone(s, i + 1);
    }
  }

  /** The first character other than c at or after i is at n when all before it are c. */
  lemma {:induction false} NotOfSome(s: string, c: char, i: nat, n: nat)
    requires i <= n < |s| && s[n] != c
    requires forall u :: i <= u < n ==> s[u] == c
    ensures FindFirstNotOf(s, c, i) == Some(n)
    decreases n - i
  {
    if i < n {
      NotOfSome(s, c, i + 1, n);
    }
  }

  /** Only c at or after i. */
  lemma {:induction false} NotOfNone(s: string, c: char, i: nat)
    requires forall u :: i <= u < |s| ==> s[u] == c
    ensures FindFirstNotOf(s, c, i).None?
    decreases |s| - i
  {
    if i < |s| {
      NotOfNone(s, c, i + 1);
    }
  }

  /** The text s, from position o on, is b. */
  predicate AgreesPast(s: string, o: nat, b: string)
  {
    |s| == o + |b| && forall t :: 0 <= t < |b| ==> s[o + t] == b[t]
  }

  /**
   * Where s agrees with b past o, the separating commas of s from o + j on
   * are those of b from j on, provided b does not start with a comma that
   * s would take for a separator.
   */
  lemma CommaAgreeAt(s: string, o: nat, b: string, j: nat, u: nat)
    requires AgreesPast(s, o, b) && j <= |b| && (j > 0 || |b| == 0 || b[0] != ',')
    requires o + j <= u < |s|
    ensures IsUnescapedComma(s, u) == IsUnescapedComma(b, u - o)
  {
    var t := u - o;
    assert s[u] == b[t];
    if t > 0 {
      assert s[u - 1] == b[t - 1];
    }
  }

  /** A separating comma of b from j on, seen in s past o. */
  lemma CommaAgreeSome(s: string, o: nat, b: string, j: nat, q: nat, i: nat, k: nat)
    requires AgreesPast(s, o, b) && j <= |b| && (j > 0 || |b| == 0 || b[0] != ',')
    requires UnescapedCommaFrom(b, j) == Some(q) && i == o + j && k == o + q
    ensures UnescapedCommaFrom(s, i) == Some(k)
  {
    CommaAgreeAt(s, o, b, j, k);
    forall u | i <= u < k
      ensures !IsUnescapedComma(s, u)
    {
      CommaAgreeAt(s, o, b, j, u);
    }
    CommaFromSome(s, i, k);
  }

  /** No separating comma in b from j on, nor in s past o. */
  lemma CommaAgreeNone(s: string, o: nat, b: string, j: nat, i: nat)
    requires AgreesPast(s, o, b) && j <= |b| && (j > 0 || |b| == 0 || b[0] != ',')
    requires UnescapedCommaFrom(b, j).None? && i == o + j
    ensures UnescapedCommaFrom(s, i).None?
  {
    forall u | i <= u
      ensures !IsUnescapedComma(s, u)
    {
      if u < |s| {
        CommaAgreeAt(s, o, b, j, u);
      }
    }
    CommaFromNone(s, i);
  }

  /** The first non-space of b from j on, seen in s past o. */
  lemma SpaceAgreeSome(s: string, o: nat, b: string, j: nat, n: nat, i: nat, m: nat)
    requires AgreesPast(s, o, b) && FindFirstNotOf(b, ' ', j) == Some(n) && i == o + j && m == o + n
    ensures FindFirstNotOf(s, ' ', i) == Some(m)
  {
    assert s[m] == b[n];
    forall u | i <= u < m
      ensures s[u] == ' '
    {
      assert s[u] == b[u - o];
    }
    NotOfSome(s, ' ', i, m);
  }

  /** Only spaces in b from j on, and in s past o. */
  lemma SpaceAgreeNone(s: string, o: nat, b: string, j: nat, i: nat)
    requires AgreesPast(s, o, b) && FindFirstNotOf(b, ' ', j).None? && i == o + j
    ensures FindFirstNotOf(s, ' ', i).None?
  {
    forall u | i <= u < |s|
      ensures s[u] == ' '
    {
      assert s[u] == b[u - o];
    }
    NotOfNone(s, ' ', i);
  }

  /** A slice of b, seen in s past o. */
  lemma SliceAgree(s: string, o: nat, b: string, j: nat, q: nat, i: nat, k: nat)
    requires AgreesPast(s, o, b) && j <= q <= |b| && i == o + j && k == o + q
    ensures s[i..k] == b[j..q]
  {
    forall t | 0 <= t < q - j
      ensures s[i..k][t] == b[j..q][t]
    {
      assert s[i + t] == b[j + t];
    }
  }

  /** The last text: no separating comma left in b from j on. */
  lemma TextsAgreeLast(s: string, o: nat, b: string, j: nat, i: nat)
    requires AgreesPast(s, o, b) && j <= |b| && (j > 0 || |b| == 0 || b[0] != ',')
    requires UnescapedCommaFrom(b, j).None? && i == o + j
    ensures FontTextsFrom(s, i) == FontTextsFrom(b, j)
  {
    CommaAgreeNone(s, o, b, j, i);
    SliceAgree(s, o, b, j, |b|, i, |s|);
    assert s[i..] == s[i..|s|] && b[j..] == b[j..|b|];
  }

  /** The last text, ended by a separating comma and spaces only. */
  lemma TextsAgreeFinal(s: string, o: nat, b: string, j: nat, q: nat, i: nat, k: nat)
    requires AgreesPast(s, o, b) && j <= |b| && (j > 0 || |b| == 0 || b[0] != ',')
    requires UnescapedCommaFrom(b, j) == Some(q) && FindFirstNotOf(b, ' ', q + 1).None?
    requires i == o + j && k == o + q
    ensures FontTextsFrom(s, i) == FontTextsFrom(b, j)
  {
    CommaAgreeSome(s, o, b, j, q, i, k);
    SpaceAgreeNone(s, o, b, q + 1, k + 1);
    SliceAgree(s, o, b, j, q, i, k);
  }

  /** One text up to a separating comma, then the same texts from the next font on. */
  lemma TextsAgreeNext(s: string, o: nat, b: string, j: nat, q: nat, n: nat, i: nat, k: nat, m: nat)
    requires AgreesPast(s, o, b) && j <= |b| && (j > 0 || |b| == 0 || b[0] != ',')
    requires UnescapedCommaFrom(b, j) == Some(q) && FindFirstNotOf(b, ' ', q + 1) == Some(n)
    requires i == o + j && k == o + q && m == o + n
    requires FontTextsFrom(s, m) == FontTextsFrom(b, n)
    ensures FontTextsFrom(s, i) == FontTextsFrom(b, j)
  {
    CommaAgreeSome(s, o, b, j, q, i, k);
    SpaceAgreeSome(s, o, b, q + 1, n, k + 1, m);
    SliceAgree(s, o, b, j, q, i, k);
    TextsNext(s, i, k, m);
    TextsNext(b, j, q, n);
  }

  /** Where s agrees with b past o, s splits from o + j as b splits from j. */
  lemma {:induction false} TextsAgree(s: string, o: nat, b: string, j: nat, i: nat)
    requires AgreesPast(s, o, b) && j <= |b| && (j > 0 || |b| == 0 || b[0] != ',')
    requires i == o + j
    ensures FontTextsFrom(s, i) == FontTextsFrom(b, j)
    decreases |b| - j
  {
    match UnescapedCommaFrom(b, j)
    case None =>
      TextsAgreeLast(s, o, b, j, i);
    case Some(q) =>
      match FindFirstNotOf(b, ' ', q + 1)
      case None =>
        TextsAgreeFinal(s, o, b, j, q, i, o + q);
      case Some(n) =>
        TextsAgree(s, o, b, n, o + n);
        TextsAgreeNext(s, o, b, j, q, n, i, o + q, o + n);
  }

  /**
   * Splitting: a font text with no separating comma of its own, a comma,
   * and a rest that starts with neither a space nor a comma parse as that
   * font followed by the fonts of the rest.
   */
  lemma GuifontSplit(a: string, b: string, defaultSize: real)
    requires |a| > 0 && a[|a| - 1] != '\\' && forall k :: !IsUnescapedComma(a, k)
    requires |b| == 0 || (b[0] != ' ' && b[0] != ',')
    ensures Guifont(a + "," + b, defaultSize) == [FontOf(a, defaultSize)] + Guifont(b, defaultSize)
  {
    var s := a + "," + b;
    var o := |a| + 1;
    var rest := if |b| == 0 then [] else FontTextsFrom(b, 0);
    assert FontTextsFrom(s, 0) == [a] + rest by {
      forall u | 0 <= u < |a|
        ensures !IsUnescapedComma(s, u)
      {
        assert !IsUnescapedComma(a, u);
        assert s[u] == a[u];
        if u > 0 {
          assert s[u - 1] == a[u - 1];
        }
      }
      CommaFromSome(s, 0, |a|);
      assert s[0..|a|] == a;
      if |b| == 0 {
        NotOfNone(s, ' ', o);
      } else {
        assert AgreesPast(s, o, b) by {
          forall t | 0 <= t < |b|
            ensures s[o + t] == b[t]
          {
          }
        }
        NotOfSome(s, ' ', o, o);
        TextsNext(s, 0, |a|, o);
        TextsAgree(s, o, b, 0, o);
      }
    }
    GuifontFromTexts(s, 0, defaultSize);
    assert ([a] + rest)[1..] == rest;
    if |b| > 0 {
      GuifontFromTexts(b, 0, defaultSize);
    }
  }
}
