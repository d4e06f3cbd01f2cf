/**
 * The Python string primitives the script relies on, written out over
 * `string` (a sequence of characters): substring membership (`sub in s`),
 * suffix tests (`s[-4:] == '.shp'`), `str.strip(chars)`,
 * `s.split('/')[-1]`, `sep.join(xs)` and the lexicographic order that
 * `sorted` applies to text keys.
 */
module Text {

  predicate StartsWith(s: string, prefix: string) {
    |prefix| <= |s| && s[..|prefix|] == prefix
  }

  predicate EndsWith(s: string, suffix: string) {
    |suffix| <= |s| && s[|s| - |suffix|..] == suffix
  }

  /** Python's `sub in s` for two strings. */
  predicate Contains(s: string, sub: string)
    decreases |s|
  {
    StartsWith(s, sub) || (|s| > 0 && Contains(s[1..], sub))
  }

  ghost predicate OccursAt(s: string, sub: string, i: int) {
    0 <= i && i + |sub| <= |s| && s[i..i + |sub|] == sub
  }

  /** `Contains` finds exactly the positions where `sub` occurs in `s`. */
  lemma {:induction false} ContainsIff(s: string, sub: string)
    ensures Contains(s, sub) <==> exists i :: OccursAt(s, sub, i)
    decreases |s|
  {
    if StartsWith(s, sub) {
      assert OccursAt(s, sub, 0);
    } else if |s| == 0 {
      assert forall i :: !OccursAt(s, sub, i);
    } else {
      ContainsIff(s[1..], sub);
      forall i | OccursAt(s, sub, i) ensures OccursAt(s[1..], sub, i - 1) {
        assert i != 0;
        assert s[1..][i - 1..i - 1 + |sub|] == s[i..i + |sub|];
      }
      forall i | OccursAt(s[1..], sub, i) ensures OccursAt(s, sub, i + 1) {
        assert s[1..][i..i + |sub|] == s[i + 1..i + 1 + |sub|];
      }
    }
  }

  /** Python's `s.lstrip(chars)`: drops leading characters that occur in `chars`. */
  function TrimLeft(s: string, chars: string): string
    decreases |s|
  {
    if |s| > 0 && s[0] in chars then TrimLeft(s[1..], chars) else s
  }

  /** Python's `s.rstrip(chars)`: drops trailing characters that occur in `chars`. */
  function TrimRight(s: string, chars: string): string
    decreases |s|
  {
    if |s| > 0 && s[|s| - 1] in chars then TrimRight(s[..|s| - 1], chars) else s
  }

  /**
   * `lstrip` leaves a suffix of its input that does not start with one of
   * `chars`, and everything it removed is in `chars`.
   */
  lemma {:induction false} TrimLeftSpec(s: string, chars: string)
    ensures var r := TrimLeft(s, chars);
      && |r| <= |s| && r == s[|s| - |r|..]
      && (forall k :: 0 <= k < |s| - |r| ==> s[k] in chars)
      && (r == [] || r[0] !in chars)
    decreases |s|
  {
    if |s| > 0 && s[0] in chars {
      TrimLeftSpec(s[1..], chars);
    }
  }

  /**
   * `rstrip` leaves a prefix of its input that does not end with one of
   * `chars`, and everything it removed is in `chars`.
   */
  lemma {:induction false} TrimRightSpec(s: string, chars: string)
    ensures var r := TrimRight(s, chars);
      && |r| <= |s| && r == s[..|r|]
      && (forall k :: |r| <= k < |s| ==> s[k] in chars)
      && (r == [] || r[|r| - 1] !in chars)
    decreases |s|
  {
    if |s| > 0 && s[|s| - 1] in chars {
      TrimRightSpec(s[..|s| - 1], chars);
    }
  }

  /**
   * Python's `s.strip(chars)`. The argument is a SET of characters removed
   * from both ends, not a prefix or suffix: `"parks_shp.zip".strip('.zip')`
   * is `"arks_sh"`.
   */
  function Strip(s: string, chars: string): string {
    TrimRight(TrimLeft(s, chars), chars)
  }

  /**
   * What `Strip` leaves: a contiguous slice of the input whose two ends are
   * not in `chars`, everything cut off on either side being in `chars`.
   * These facts determine the result, and stripping again changes nothing.
   */
  ghost predicate StrippedAt(s: string, chars: string, r: string, i: int) {
    && 0 <= i && i + |r| <= |s| && r == s[i..i + |r|]
    && (forall k :: 0 <= k < i ==> s[k] in chars)
    && (forall k :: i + |r| <= k < |s| ==> s[k] in chars)
    && (r == [] || (r[0] !in chars && r[|r| - 1] !in chars))
  }

  lemma StripSlice(s: string, chars: string)
    ensures exists i :: StrippedAt(s, chars, Strip(s, chars), i)
    ensures Strip(Strip(s, chars), chars) == Strip(s, chars)
  {
    StrippedAtLeftCut(s, chars);
    StripIdempotent(s, chars);
  }

  /** `Strip` leaves the slice that starts where `lstrip` stopped. */
  lemma StrippedAtLeftCut(s: string, chars: string)
    ensures StrippedAt(s, chars, Strip(s, chars), |s| - |TrimLeft(s, chars)|)
  {
    var t := TrimLeft(s, chars);
    var r := Strip(s, chars);
    TrimLeftSpec(s, chars);
    TrimRightSpec(t, chars);
    var i := |s| - |t|;
    assert r == s[i..i + |r|];
    forall k | i + |r| <= k < |s| ensures s[k] in chars {
      assert s[k] == t[k - i];
    }
    assert r != [] ==> r[0] == t[0];
  }

  /** Neither end of a stripped text is in `chars`, so stripping again changes nothing. */
  lemma StripIdempotent(s: string, chars: string)
    ensures Strip(Strip(s, chars), chars) == Strip(s, chars)
  {
    var t := TrimLeft(s, chars);
    var r := Strip(s, chars);
    TrimLeftSpec(s, chars);
    TrimRightSpec(t, chars);
    assert r != [] ==> r[0] == t[0];
    assert TrimLeft(r, chars) == r;
    assert TrimRight(r, chars) == r;
  }

  /** The text after the last `/`, i.e. Python's `s.split('/')[-1]`. */
  function AfterLastSlash(s: string): (r: string)
    ensures '/' !in r
    ensures EndsWith(s, r)
    ensures |r| < |s| ==> s[|s| - |r| - 1] == '/'
    decreases |s|
  {
    if |s| == 0 then s
    else if s[|s| - 1] == '/' then []
    else AfterLastSlash(s[..|s| - 1]) + [s[|s| - 1]]
  }

  /**
   * The last component is the only slash-free suffix that is the whole
   * text or follows a `/`.
   */
  lemma LastComponentUnique(s: string, r: string)
    requires '/' !in r && EndsWith(s, r)
    requires |r| < |s| ==> s[|s| - |r| - 1] == '/'
    ensures r == AfterLastSlash(s)
  {
    var a := AfterLastSlash(s);
    assert |a| == |r|;
    assert r == s[|s| - |r|..] == a;
  }

  /** Text before a trailing `/` does not reach the last component. */
  lemma AfterLastSlashAfterSep(x: string, y: string)
    requires |x| == 0 || x[|x| - 1] == '/'
    ensures AfterLastSlash(x + y) == AfterLastSlash(y)
  {
    var r := AfterLastSlash(y);
    SlashFreeSuffixAfterSep(x, y, r);
    LastComponentUnique(x + y, r);
  }

  /** A slash-free suffix of `y` that follows a `/` still does so in `x + y`. */
  lemma SlashFreeSuffixAfterSep(x: string, y: string, r: string)
    requires |x| == 0 || x[|x| - 1] == '/'
    requires EndsWith(y, r) && (|r| < |y| ==> y[|y| - |r| - 1] == '/')
    ensures EndsWith(x + y, r) && (|r| < |x + y| ==> (x + y)[|x + y| - |r| - 1] == '/')
  {
    var z := x + y;
    assert z[|z| - |r|..] == y[|y| - |r|..];
    if |r| < |z| {
      assert z[|z| - |r| - 1] == if |r| < |y| then y[|y| - |r| - 1] else x[|x| - 1];
    }
  }

  /** Python's `sep.join(xs)`. */
  function Join(xs: seq<string>, sep: string): string
    decreases |xs|
  {
    if |xs| == 0 then ""
    else if |xs| == 1 then xs[0]
    else xs[0] + sep + Join(xs[1..], sep)
  }

  /** Joining two non-empty runs puts one separator between their joins. */
  lemma {:induction false} JoinAppend(xs: seq<string>, ys: seq<string>, sep: string)
    requires |xs| > 0 && |ys| > 0
    ensures Join(xs + ys, sep) == Join(xs, sep) + sep + Join(ys, sep)
    decreases |xs|
  {
    if |xs| > 1 {
      assert (xs + ys)[1..] == xs[1..] + ys;
      JoinAppend(xs[1..], ys, sep);
    }
  }

  /** Joining one more value appends the separator and that value. */
  lemma {:induction false} JoinSnoc(xs: seq<string>, x: string, sep: string)
    requires |xs| > 0
    ensures Join(xs + [x], sep) == Join(xs, sep) + sep + x
  {
    JoinAppend(xs, [x], sep);
  }

  /**
   * The order `sorted` gives text keys: character by character on code
   * points, a proper prefix first.
   */
  predicate Less(a: string, b: string)
    decreases |a|
  {
    if |a| == 0 then |b| > 0
    else |b| > 0 && (a[0] < b[0] || (a[0] == b[0] && Less(a[1..], b[1..])))
  }

  lemma {:induction false} LessIrreflexive(a: string)
    ensures !Less(a, a)
    decreases |a|
  {
    if |a| > 0 {
      LessIrreflexive(a[1..]);
    }
  }

  lemma {:induction false} LessTransitive(a: string, b: string, c: string)
    requires Less(a, b) && Less(b, c)
    ensures Less(a, c)
    decreases |a|
  {
    if |a| > 0 && a[0] == b[0] && b[0] == c[0] {
      LessTransitive(a[1..], b[1..], c[1..]);
    }
  }

  lemma {:induction false} LessTotal(a: string, b: string)
    requires a != b
    ensures Less(a, b) || Less(b, a)
    decreases |a|
  {
    if |a| > 0 && |b| > 0 && a[0] == b[0] {
      assert a == [a[0]] + a[1..] && b == [b[0]] + b[1..];
      LessTotal(a[1..], b[1..]);
    }
  }
}
