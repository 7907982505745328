/**
 The colour check `_isValid`: after trimming, a value is accepted exactly when it
 is one of three spellings — a bare colour name, a `#` hex value of three or six
 digits, or an `rgb(…)` triplet. The accepted language is given by the `Color`
 datatype and its spelling `Spell`; `Parse` recognises it character by
 character, and the two are proved inverse to each other.
 */
module ColorValidator {
  import opened PhpText

  datatype Option<T> = None | Some(value: T)

  predicate IsAsciiLetter(c: char) {
    'a' <= c <= 'z' || 'A' <= c <= 'Z'
  }

  predicate IsDecimalDigit(c: char) {
    '0' <= c <= '9'
  }

  predicate IsHexDigit(c: char) {
    IsDecimalDigit(c) || 'a' <= c <= 'f' || 'A' <= c <= 'F'
  }

  predicate AllLetters(s: string) {
    forall c | c in s :: IsAsciiLetter(c)
  }

  predicate AllHexDigits(s: string) {
    forall c | c in s :: IsHexDigit(c)
  }

  predicate AllDecimalDigits(s: string) {
    forall c | c in s :: IsDecimalDigit(c)
  }

  /** One component of an `rgb(…)` triplet: its digits and whether a `%` follows. */
  datatype Channel = Channel(digits: string, percent: bool)

  /** The three syntactic forms of an accepted colour value. */
  datatype Color =
    | Named(name: string)
    | Hex(digits: string)
    | Rgb(red: Channel, green: Channel, blue: Channel)

  /** One to three decimal digits; there is no range check, so `999` is fine. */
  predicate ChannelOk(ch: Channel) {
    1 <= |ch.digits| <= 3 && AllDecimalDigits(ch.digits)
  }

  predicate WellFormed(c: Color) {
    match c
    case Named(name) => |name| >= 1 && AllLetters(name)
    case Hex(digits) => (|digits| == 3 || |digits| == 6) && AllHexDigits(digits)
    case Rgb(r, g, b) => ChannelOk(r) && ChannelOk(g) && ChannelOk(b)
  }

  function ChannelText(ch: Channel): string {
    ch.digits + (if ch.percent then "%" else "")
  }

  /** How a colour is written in markup. */
  function Spell(c: Color): string {
    match c
    case Named(name) => name
    case Hex(digits) => "#" + digits
    case Rgb(r, g, b) =>
      "rgb(" + ChannelText(r) + "," + ChannelText(g) + "," + ChannelText(b) + ")"
  }

  /** Splits a string at every comma; there is always at least one field. */
  function SplitCommas(s: string): (fields: seq<string>)
    ensures |fields| >= 1
    decreases |s|
  {
    if |s| == 0 then [""]
    else
      var rest := SplitCommas(s[1..]);
      if s[0] == ',' then [""] + rest
      else [[s[0]] + rest[0]] + rest[1..]
  }

  /** Joins fields with commas; the inverse of `SplitCommas`. */
  function JoinCommas(fields: seq<string>): string
    requires |fields| >= 1
  {
    if |fields| == 1 then fields[0] else fields[0] + "," + JoinCommas(fields[1..])
  }

  function ParseChannel(t: string): (r: Option<Channel>)
    ensures r.Some? ==> ChannelOk(r.value) && ChannelText(r.value) == t
  {
    var ch := if |t| > 0 && t[|t| - 1] == '%' then Channel(t[..|t| - 1], true) else Channel(t, false);
    if ChannelOk(ch) then Some(ch) else None
  }

  /** The part between `rgb(` and `)`: exactly three comma-separated channels. */
  function ParseTriplet(m: string): Option<Color> {
    var fields := SplitCommas(m);
    if |fields| != 3 then None
    else
      match (ParseChannel(fields[0]), ParseChannel(fields[1]), ParseChannel(fields[2]))
      case (Some(r), Some(g), Some(b)) => Some(Rgb(r, g, b))
      case _ => None
  }

  /** Recognises an already trimmed value; the three alternatives of the
      source's pattern are tried in order. */
  function Parse(s: string): Option<Color> {
    if |s| >= 1 && AllLetters(s) then Some(Named(s))
    else if (|s| == 4 || |s| == 7) && s[0] == '#' && AllHexDigits(s[1..]) then Some(Hex(s[1..]))
    else if |s| >= 5 && s[..4] == "rgb(" && s[|s| - 1] == ')' then ParseTriplet(s[4..|s| - 1])
    else None
  }

  /** Characters that would let a value end the quoted `style` attribute, open
      or close a tag, or start another declaration. */
  predicate BreaksAttribute(c: char) {
    c == '"' || c == '<' || c == '>' || c == ';'
  }

  predicate SafeInAttribute(s: string) {
    forall c | c in s :: !BreaksAttribute(c)
  }

  /** The only characters any accepted spelling is made of. */
  predicate IsColorChar(c: char) {
    IsAsciiLetter(c) || IsDecimalDigit(c) || c == '#' || c == '(' || c == ')' || c == ',' || c == '%'
  }

  /** `_isValid($c)`: the trimmed value is one of the three forms. */
  predicate IsValid(s: string) {
    Parse(Trim(s)).Some?
  }

  // ---------------------------------------------------------------------------
  // Splitting at commas

  lemma {:induction false} SplitWithoutComma(a: string)
    requires ',' !in a
    ensures SplitCommas(a) == [a]
    decreases |a|
  {
    if |a| > 0 {
      assert a[0] in a;
      assert forall c | c in a[1..] :: c in a;
      SplitWithoutComma(a[1..]);
      assert a == [a[0]] + a[1..];
    }
  }

  lemma {:induction false} SplitFirstField(a: string, b: string)
    requires ',' !in a
    ensures SplitCommas(a + "," + b) == [a] + SplitCommas(b)
    decreases |a|
  {
    if |a| == 0 {
      assert a + "," + b == [','] + b;
      assert (a + "," + b)[1..] == b;
    } else {
      assert a[0] in a;
      assert forall c | c in a[1..] :: c in a;
      assert (a + "," + b)[1..] == a[1..] + "," + b;
      SplitFirstField(a[1..], b);
      assert a == [a[0]] + a[1..];
    }
  }

  lemma {:induction false} JoinSplit(s: string)
    ensures JoinCommas(SplitCommas(s)) == s
    decreases |s|
  {
    if |s| > 0 {
      var rest := SplitCommas(s[1..]);
      JoinSplit(s[1..]);
      if s[0] == ',' {
        assert ([""] + rest)[1..] == rest;
        assert s == [s[0]] + s[1..];
      } else {
        var f := [[s[0]] + rest[0]] + rest[1..];
        if |rest| > 1 {
          assert f[1..] == rest[1..];
        }
        assert s == [s[0]] + s[1..];
      }
    }
  }

  lemma ChannelTextHasNoComma(ch: Channel)
    requires ChannelOk(ch)
    ensures ',' !in ChannelText(ch)
  {
    assert forall c | c in ChannelText(ch) :: c in ch.digits || c == '%';
  }

  // ---------------------------------------------------------------------------
  // Parse and Spell are inverse to each other

  lemma ParseChannelText(ch: Channel)
    requires ChannelOk(ch)
    ensures ParseChannel(ChannelText(ch)) == Some(ch)
  {
    var t := ChannelText(ch);
    if ch.percent {
      assert t[..|t| - 1] == ch.digits;
    } else {
      assert t == ch.digits;
      assert t[|t| - 1] in ch.digits;
    }
  }

  lemma ParseTripletSpell(r: Channel, g: Channel, b: Channel)
    requires ChannelOk(r) && ChannelOk(g) && ChannelOk(b)
    ensures ParseTriplet(ChannelText(r) + "," + ChannelText(g) + "," + ChannelText(b)) == Some(Rgb(r, g, b))
  {
    var tr, tg, tb := ChannelText(r), ChannelText(g), ChannelText(b);
    assert tr + "," + tg + "," + tb == tr + "," + (tg + "," + tb);
    ChannelTextHasNoComma(r);
    ChannelTextHasNoComma(g);
    ChannelTextHasNoComma(b);
    SplitFirstField(tr, tg + "," + tb);
    SplitFirstField(tg, tb);
    SplitWithoutComma(tb);
    assert SplitCommas(tr + "," + tg + "," + tb) == [tr, tg, tb];
    ParseChannelText(r);
    ParseChannelText(g);
    ParseChannelText(b);
  }

  lemma TripletSpellParse(m: string)
    requires ParseTriplet(m).Some?
    ensures WellFormed(ParseTriplet(m).value)
    ensures Spell(ParseTriplet(m).value) == "rgb(" + m + ")"
  {
    var fields := SplitCommas(m);
    JoinSplit(m);
    JoinThree(fields);
    var r, g, b := ParseChannel(fields[0]).value, ParseChannel(fields[1]).value, ParseChannel(fields[2]).value;
    assert ParseTriplet(m).value == Rgb(r, g, b);
    assert ChannelText(r) == fields[0] && ChannelText(g) == fields[1] && ChannelText(b) == fields[2];
    assert Spell(Rgb(r, g, b)) == "rgb(" + (fields[0] + "," + fields[1] + "," + fields[2]) + ")";
  }

  lemma JoinThree(fields: seq<string>)
    requires |fields| == 3
    ensures JoinCommas(fields) == fields[0] + "," + fields[1] + "," + fields[2]
  {
    var rest := fields[1..];
    assert rest[1..] == [fields[2]];
    assert JoinCommas(rest[1..]) == fields[2];
    assert JoinCommas(rest) == fields[1] + "," + fields[2];
    assert JoinCommas(fields) == fields[0] + "," + (fields[1] + "," + fields[2]);
  }

  /** Every well-formed colour is recognised, as itself. */
  lemma ParseSpell(c: Color)
    requires WellFormed(c)
    ensures Parse(Spell(c)) == Some(c)
  {
    var s := Spell(c);
    match c
    case Named(name) =>
    case Hex(digits) =>
      assert s[0] in s && !IsAsciiLetter(s[0]);
      assert s[1..] == digits;
    case Rgb(r, g, b) =>
      var m := ChannelText(r) + "," + ChannelText(g) + "," + ChannelText(b);
      assert s == "rgb(" + m + ")";
      assert s[3] in s && !IsAsciiLetter(s[3]);
      assert s[0] != '#';
      assert s[..4] == "rgb(";
      assert s[4..|s| - 1] == m;
      ParseTripletSpell(r, g, b);
  }

  /** Whatever is recognised is well formed and spelled exactly as the input. */
  lemma SpellParse(s: string)
    requires Parse(s).Some?
    ensures WellFormed(Parse(s).value) && Spell(Parse(s).value) == s
  {
    if |s| >= 1 && AllLetters(s) {
    } else if (|s| == 4 || |s| == 7) && s[0] == '#' && AllHexDigits(s[1..]) {
      assert s == "#" + s[1..];
    } else {
      var m := s[4..|s| - 1];
      TripletSpellParse(m);
      assert s == s[..4] + m + [s[|s| - 1]];
    }
  }

  /** `_isValid` accepts exactly the values that, trimmed, spell a well-formed colour. */
  lemma ValidIffSpelled(s: string)
    ensures IsValid(s) <==> exists c :: WellFormed(c) && Spell(c) == Trim(s)
  {
    if IsValid(s) {
      SpellParse(Trim(s));
    }
    forall c | WellFormed(c) && Spell(c) == Trim(s)
      ensures IsValid(s)
    {
      ParseSpell(c);
    }
  }

  lemma SpellUsesColorChars(c: Color)
    requires WellFormed(c)
    ensures forall x | x in Spell(c) :: IsColorChar(x)
  {
    match c
    case Named(_) =>
    case Hex(_) =>
    case Rgb(r, g, b) =>
      assert forall ch: Channel, x | ChannelOk(ch) && x in ChannelText(ch) :: x in ch.digits || x == '%';
  }

  // ---------------------------------------------------------------------------
  // What `_isValid` accepts and rejects

  /** A value that neither starts nor ends with whitespace is judged as it is. */
  lemma ValidUnpadded(s: string)
    requires |s| > 0 && !IsTrimSpace(s[0]) && !IsTrimSpace(s[|s| - 1])
    ensures IsValid(s) <==> Parse(s).Some?
  {
    TrimKeepsUnpadded(s);
  }

  lemma NotAllLetters(s: string, i: nat)
    requires i < |s| && !IsAsciiLetter(s[i])
    ensures !AllLetters(s)
  {
    assert s[i] in s;
  }

  /** Anything shaped `rgb(…)` is judged by its three channels alone. */
  lemma ParseRgbShape(m: string)
    ensures IsValid("rgb(" + m + ")") <==> ParseTriplet(m).Some?
  {
    var s := "rgb(" + m + ")";
    assert s[0] == 'r' && s[3] == '(' && s[|s| - 1] == ')';
    NotAllLetters(s, 3);
    assert s[..4] == "rgb(";
    assert s[4..|s| - 1] == m;
    ValidUnpadded(s);
  }

  /** Any run of ASCII letters is a colour name; no palette is consulted. */
  lemma NamesAccepted(name: string)
    requires |name| >= 1 && AllLetters(name)
    ensures IsValid(name)
  {
    assert name[0] in name && name[|name| - 1] in name;
    ValidUnpadded(name);
  }

  /** `#` followed by hex digits is accepted exactly for three or six of them. */
  lemma HexDigitCount(digits: string)
    requires AllHexDigits(digits)
    ensures IsValid("#" + digits) <==> |digits| == 3 || |digits| == 6
  {
    var s := "#" + digits;
    assert s[0] == '#';
    NotAllLetters(s, 0);
    assert s[1..] == digits;
    if |digits| > 0 {
      assert s[|s| - 1] in digits;
    }
    ValidUnpadded(s);
  }

  /** Three channels of one to three digits, each optionally with `%`, are
      accepted whatever their numeric value. */
  lemma RgbAccepted(r: Channel, g: Channel, b: Channel)
    requires ChannelOk(r) && ChannelOk(g) && ChannelOk(b)
    ensures IsValid("rgb(" + ChannelText(r) + "," + ChannelText(g) + "," + ChannelText(b) + ")")
  {
    var m := ChannelText(r) + "," + ChannelText(g) + "," + ChannelText(b);
    assert "rgb(" + ChannelText(r) + "," + ChannelText(g) + "," + ChannelText(b) + ")" == "rgb(" + m + ")";
    ParseRgbShape(m);
    ParseTripletSpell(r, g, b);
  }

  /** A triplet with only two channels is rejected. */
  lemma TwoChannelsRejected(r: Channel, g: Channel)
    requires ChannelOk(r) && ChannelOk(g)
    ensures !IsValid("rgb(" + ChannelText(r) + "," + ChannelText(g) + ")")
  {
    var m := ChannelText(r) + "," + ChannelText(g);
    assert "rgb(" + ChannelText(r) + "," + ChannelText(g) + ")" == "rgb(" + m + ")";
    ParseRgbShape(m);
    ChannelTextHasNoComma(r);
    ChannelTextHasNoComma(g);
    SplitFirstField(ChannelText(r), ChannelText(g));
    SplitWithoutComma(ChannelText(g));
  }

  /** A triplet without its closing parenthesis is rejected. */
  lemma UnclosedRejected(r: Channel, g: Channel, b: Channel)
    requires ChannelOk(r) && ChannelOk(g) && ChannelOk(b)
    ensures !IsValid("rgb(" + ChannelText(r) + "," + ChannelText(g) + "," + ChannelText(b))
  {
    var tb := ChannelText(b);
    var s := "rgb(" + ChannelText(r) + "," + ChannelText(g) + "," + tb;
    assert s[0] == 'r' && s[3] == '(';
    NotAllLetters(s, 3);
    assert s[|s| - 1] == tb[|tb| - 1];
    assert tb[|tb| - 1] in b.digits || tb[|tb| - 1] == '%';
    ValidUnpadded(s);
  }

  /** The empty string and strings of whitespace only are rejected. */
  lemma BlankRejected(s: string)
    requires AllTrimSpace(s)
    ensures !IsValid(s)
  {
    TrimEmptyIffAllSpace(s);
  }

  /** Adding or removing surrounding whitespace never changes the verdict. */
  lemma ValidIgnoresSurroundingSpace(w1: string, s: string, w2: string)
    requires AllTrimSpace(w1) && AllTrimSpace(w2)
    ensures IsValid(w1 + s + w2) <==> IsValid(s)
  {
    TrimIgnoresSurroundingSpace(w1, s, w2);
  }

  // ---------------------------------------------------------------------------
  // Nothing harmful

  /** An accepted value, surrounding whitespace included, is made only of
      colour characters and trim spaces. */
  lemma ValidCharset(s: string)
    ensures IsValid(s) ==> forall c | c in s :: IsColorChar(c) || IsTrimSpace(c)
  {
    if !IsValid(s) {
      return;
    }
    var t := Trim(s);
    SpellParse(t);
    SpellUsesColorChars(Parse(t).value);
    var k := |s| - |TrimLeft(s)|;
    TrimDecomposition(s);
    assert forall c | c in s :: c in s[..k] || c in t || c in s[k + |t|..];
  }

  /** A value with any other character in it is rejected. */
  lemma ValidRejectsForeignChar(s: string, i: nat)
    requires i < |s| && !IsColorChar(s[i]) && !IsTrimSpace(s[i])
    ensures !IsValid(s)
  {
    ValidCharset(s);
    assert s[i] in s;
  }

  /** The guarantee the check exists for: an accepted value holds no `"`,
      `<`, `>` or `;`, so it cannot break out of the `style` attribute. */
  lemma ValidValueIsSafe(s: string)
    requires IsValid(s)
    ensures SafeInAttribute(s)
  {
    ValidCharset(s);
    forall c | c in s
      ensures !BreaksAttribute(c)
    {
      assert IsColorChar(c) || IsTrimSpace(c);
    }
  }
}
