/**
 PHP's `trim()` with its default character list, as `_isValid` uses it before
 matching a colour value.

 PHP strings are byte strings, and every `string` in this model stands for one:
 each `char` is one byte, below U+0100. Text a page author types in Unicode
 reaches the plugin as its UTF-8 bytes, so a no-break space is the two
 characters `'\U{C2}'` and `'\U{A0}'` here, as it is two bytes for `substr`.
 */
module PhpText {

  /** The characters `trim()` strips by default: space, tab, line feed,
      carriage return, NUL and vertical tab (form feed is not among them). */
  predicate IsTrimSpace(c: char) {
    c == ' ' || c == '\t' || c == '\n' || c == '\r' || c == '\0' || c == '\U{B}'
  }

  predicate AllTrimSpace(s: string) {
    forall c | c in s :: IsTrimSpace(c)
  }

  /** Strips leading trim-space characters. */
  function TrimLeft(s: string): (r: string)
    ensures |r| <= |s| && r == s[|s| - |r|..]
    ensures AllTrimSpace(s[..|s| - |r|])
    ensures r == [] || !IsTrimSpace(r[0])
    decreases |s|
  {
    if |s| > 0 && IsTrimSpace(s[0]) then
      var r := TrimLeft(s[1..]);
      assert s[..|s| - |r|] == [s[0]] + s[1..][..|s| - 1 - |r|];
      r
    else
      s
  }

  /** Strips trailing trim-space characters. */
  function TrimRight(s: string): (r: string)
    ensures |r| <= |s| && r == s[..|r|]
    ensures AllTrimSpace(s[|r|..])
    ensures r == [] || !IsTrimSpace(r[|r| - 1])
    decreases |s|
  {
    if |s| > 0 && IsTrimSpace(s[|s| - 1]) then
      var r := TrimRight(s[..|s| - 1]);
      assert s[|r|..] == s[..|s| - 1][|r|..] + [s[|s| - 1]];
      r
    else
      s
  }

  /** `trim($s)`: the part of `s` left between its leading and its trailing
      run of trim-space characters. */
  function Trim(s: string): (r: string)
    ensures |r| <= |s|
    ensures r == [] || (!IsTrimSpace(r[0]) && !IsTrimSpace(r[|r| - 1]))
  {
    var l := TrimLeft(s);
    var r := TrimRight(l);
    assert r == [] || r[0] == l[0];
    r
  }

  /** `s` is its trimmed part surrounded by two runs of trim spaces. */
  lemma TrimDecomposition(s: string)
    ensures var k := |s| - |TrimLeft(s)|; var r := Trim(s);
      && k + |r| <= |s|
      && s == s[..k] + r + s[k + |r|..]
      && AllTrimSpace(s[..k])
      && AllTrimSpace(s[k + |r|..])
  {
    var l := TrimLeft(s);
    var r := TrimRight(l);
    var k := |s| - |l|;
    assert Trim(s) == r;
    assert r == s[k..k + |r|];
    assert s[k + |r|..] == l[|r|..];
    SplitInThree(s, k, k + |r|);
  }

  lemma SplitInThree(s: string, i: nat, j: nat)
    requires i <= j <= |s|
    ensures s == s[..i] + s[i..j] + s[j..]
  {
  }

  lemma AllTrimSpaceConcat(a: string, b: string)
    ensures AllTrimSpace(a + b) <==> AllTrimSpace(a) && AllTrimSpace(b)
  {
    assert forall c :: c in a + b <==> c in a || c in b;
  }

  /** A leading run of trim spaces makes no difference to `TrimLeft`. */
  lemma {:induction false} TrimLeftSkipsSpace(w: string, x: string)
    requires AllTrimSpace(w)
    ensures TrimLeft(w + x) == TrimLeft(x)
    decreases |w|
  {
    if |w| > 0 {
      assert w[0] in w;
      assert (w + x)[1..] == w[1..] + x;
      assert forall c | c in w[1..] :: c in w;
      TrimLeftSkipsSpace(w[1..], x);
    } else {
      assert w + x == x;
    }
  }

  /** Once a non-space character is met, `TrimLeft` keeps everything after it. */
  lemma {:induction false} TrimLeftKeepsTail(x: string, y: string)
    requires !AllTrimSpace(x)
    ensures TrimLeft(x + y) == TrimLeft(x) + y
    decreases |x|
  {
    assert |x| > 0;
    if IsTrimSpace(x[0]) {
      assert (x + y)[1..] == x[1..] + y;
      assert !AllTrimSpace(x[1..]) by {
        assert x == [x[0]] + x[1..];
        AllTrimSpaceConcat([x[0]], x[1..]);
      }
      TrimLeftKeepsTail(x[1..], y);
    }
  }

  lemma {:induction false} TrimLeftOfSpace(x: string)
    requires AllTrimSpace(x)
    ensures TrimLeft(x) == []
  {
    var r := TrimLeft(x);
    if r != [] {
      assert r[0] in x;
    }
  }

  /** A trailing run of trim spaces makes no difference to `TrimRight`. */
  lemma {:induction false} TrimRightSkipsSpace(x: string, w: string)
    requires AllTrimSpace(w)
    ensures TrimRight(x + w) == TrimRight(x)
    decreases |w|
  {
    if |w| > 0 {
      var w' := w[..|w| - 1];
      assert w[|w| - 1] in w;
      assert (x + w)[..|x + w| - 1] == x + w';
      assert forall c | c in w' :: c in w;
      TrimRightSkipsSpace(x, w');
    } else {
      assert x + w == x;
    }
  }

  /** Surrounding whitespace never changes what `trim()` returns. */
  lemma TrimIgnoresSurroundingSpace(w1: string, s: string, w2: string)
    requires AllTrimSpace(w1) && AllTrimSpace(w2)
    ensures Trim(w1 + s + w2) == Trim(s)
  {
    assert w1 + s + w2 == w1 + (s + w2);
    assert Trim(w1 + s + w2) == TrimRight(TrimLeft(w1 + (s + w2)));
    assert Trim(s) == TrimRight(TrimLeft(s));
    TrimLeftSkipsSpace(w1, s + w2);
    if AllTrimSpace(s) {
      AllTrimSpaceConcat(s, w2);
      TrimLeftOfSpace(s + w2);
      TrimLeftOfSpace(s);
    } else {
      TrimLeftKeepsTail(s, w2);
      TrimRightSkipsSpace(TrimLeft(s), w2);
    }
  }

  /** Trimming twice is trimming once. */
  lemma TrimIdempotent(s: string)
    ensures Trim(Trim(s)) == Trim(s)
  {
    var k := |s| - |TrimLeft(s)|;
    var t := Trim(s);
    TrimDecomposition(s);
    TrimIgnoresSurroundingSpace(s[..k], t, s[k + |t|..]);
  }

  /** A string that is empty or neither starts nor ends with a trim space is
      left as it is. */
  lemma TrimKeepsUnpadded(s: string)
    requires s == [] || (!IsTrimSpace(s[0]) && !IsTrimSpace(s[|s| - 1]))
    ensures Trim(s) == s
  {
  }

  /** Only all-whitespace strings trim to the empty string. */
  lemma TrimEmptyIffAllSpace(s: string)
    ensures Trim(s) == [] <==> AllTrimSpace(s)
  {
    var k := |s| - |TrimLeft(s)|;
    TrimDecomposition(s);
    if Trim(s) == [] {
      assert s == s[..k] + s[k..];
      AllTrimSpaceConcat(s[..k], s[k..]);
    } else {
      assert Trim(s)[0] in s;
    }
  }
}
