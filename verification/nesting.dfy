/**
 The plugin inside its host, as far as the plugin's own code fixes the result.
 The host lexer cuts a page into tokens and hands each to `Handle`; the host
 handler keeps the `cdata` calls and, when the data is not `false`, one plugin
 call; the host xhtml renderer appends escaped text for a `cdata` call and runs
 `Render` for a plugin call. How the host escapes text is a parameter.

 On top of that pipeline: a page of (possibly nested) colour tags renders to
 exactly the nested spans one would write by hand, and its token stream is
 well nested.
 */
module Nesting {
  import opened ColorValidator
  import opened FontColorPlugin

  /** One lexer match: its state, the matched text and its position. */
  datatype Token = Token(state: LexerState, text: string, pos: int)

  /** One entry of the host's call list. */
  datatype Instruction = CdataCall(text: string) | PluginCall(data: HandlerData)

  function HandleToken(t: Token): seq<Instruction> {
    var h := Handle(t.text, t.state, t.pos);
    var cdata := seq(|h.calls|, i requires 0 <= i < |h.calls| => CdataCall(h.calls[i].text));
    cdata + (if h.data.Data? then [PluginCall(h.data)] else [])
  }

  function HandleAll(ts: seq<Token>): seq<Instruction> {
    if |ts| == 0 then [] else HandleToken(ts[0]) + HandleAll(ts[1..])
  }

  function Step(ins: Instruction, escape: string -> string, doc: string): string {
    match ins
    case CdataCall(text) => doc + escape(text)
    case PluginCall(data) => Render(XhtmlMode, data, doc).1
  }

  function RenderAll(ins: seq<Instruction>, escape: string -> string, doc: string): string {
    if |ins| == 0 then doc else RenderAll(ins[1..], escape, Step(ins[0], escape, doc))
  }

  /** A page as the author wrote it: plain text, or a colour tag around more of
      the same. `opening` is the whole entry match, e.g. `<fc red>`. Text
      outside every tag is the host's own business, but the host turns it into
      the same escaped text that `Handle`'s `cdata` call yields, so the model
      lets `Handle` treat it like text inside a tag. */
  datatype Markup =
    | Text(text: string, pos: int)
    | Colored(opening: string, openPos: int, body: seq<Markup>, closing: string, closePos: int)

  /** The token stream the lexer produces for a page. */
  function Tokens(m: Markup): seq<Token>
    decreases m
  {
    match m
    case Text(text, pos) => [Token(Unmatched, text, pos)]
    case Colored(opening, openPos, body, closing, closePos) =>
      [Token(Enter, opening, openPos)] + TokensAll(body) + [Token(Exit, closing, closePos)]
  }

  function TokensAll(ms: seq<Markup>): seq<Token>
    decreases ms
  {
    if |ms| == 0 then [] else Tokens(ms[0]) + TokensAll(ms[1..])
  }

  /** The colour a tag is meant to show: its value when that is accepted, the
      fallback otherwise. */
  function SpanColor(opening: string): string {
    var value := ColorAttribute(opening);
    if IsValid(value) then value else Fallback
  }

  /** The xhtml a page is meant to become, written directly from its structure. */
  function Expected(m: Markup, escape: string -> string): string
    decreases m
  {
    match m
    case Text(text, _) => escape(text)
    case Colored(opening, _, body, _, _) => OpenSpan(SpanColor(opening)) + ExpectedAll(body, escape) + CloseSpan
  }

  function ExpectedAll(ms: seq<Markup>, escape: string -> string): string
    decreases ms
  {
    if |ms| == 0 then "" else Expected(ms[0], escape) + ExpectedAll(ms[1..], escape)
  }

  // ---------------------------------------------------------------------------
  // The pipeline is compositional

  lemma {:induction false} HandleAllAppend(a: seq<Token>, b: seq<Token>)
    ensures HandleAll(a + b) == HandleAll(a) + HandleAll(b)
    decreases |a|
  {
    if |a| > 0 {
      assert (a + b)[1..] == a[1..] + b;
      HandleAllAppend(a[1..], b);
    } else {
      assert a + b == b;
    }
  }

  lemma {:induction false} RenderAllAppend(a: seq<Instruction>, b: seq<Instruction>, escape: string -> string, doc: string)
    ensures RenderAll(a + b, escape, doc) == RenderAll(b, escape, RenderAll(a, escape, doc))
    decreases |a|
  {
    if |a| > 0 {
      assert (a + b)[1..] == a[1..] + b;
      RenderAllAppend(a[1..], b, escape, Step(a[0], escape, doc));
    } else {
      assert a + b == b;
    }
  }

  /** Rendering only ever appends to the document. */
  lemma {:induction false} RenderAllAppends(ins: seq<Instruction>, escape: string -> string, doc: string)
    ensures |doc| <= |RenderAll(ins, escape, doc)|
    ensures RenderAll(ins, escape, doc)[..|doc|] == doc
    decreases |ins|
  {
    if |ins| > 0 {
      var next := Step(ins[0], escape, doc);
      assert next[..|doc|] == doc;
      RenderAllAppends(ins[1..], escape, next);
      assert RenderAll(ins, escape, doc)[..|next|][..|doc|] == doc;
    }
  }

  // ---------------------------------------------------------------------------
  // Nested tags render to nested spans

  lemma EntryRendersOpenSpan(opening: string, pos: int, escape: string -> string, doc: string)
    ensures RenderAll(HandleToken(Token(Enter, opening, pos)), escape, doc) == doc + OpenSpan(SpanColor(opening))
  {
    var h := Handle(opening, Enter, pos);
    assert HandleToken(Token(Enter, opening, pos)) == [PluginCall(h.data)];
  }

  lemma ExitRendersCloseSpan(closing: string, pos: int, escape: string -> string, doc: string)
    ensures RenderAll(HandleToken(Token(Exit, closing, pos)), escape, doc) == doc + CloseSpan
  {
    var h := Handle(closing, Exit, pos);
    assert HandleToken(Token(Exit, closing, pos)) == [PluginCall(h.data)];
  }

  lemma TextRendersEscaped(text: string, pos: int, escape: string -> string, doc: string)
    ensures RenderAll(HandleToken(Token(Unmatched, text, pos)), escape, doc) == doc + escape(text)
  {
    assert HandleToken(Token(Unmatched, text, pos)) == [CdataCall(text)];
  }

  /** Every tag opens its own span and closes it after its own body, however
      deeply tags are nested. */
  lemma {:induction false} RenderNested(m: Markup, escape: string -> string, doc: string)
    ensures RenderAll(HandleAll(Tokens(m)), escape, doc) == doc + Expected(m, escape)
    decreases m, 1
  {
    match m
    case Text(text, pos) =>
      assert HandleAll(Tokens(m)) == HandleToken(Token(Unmatched, text, pos));
      TextRendersEscaped(text, pos, escape, doc);
    case Colored(_, _, _, _, _) =>
      RenderColored(m, escape, doc);
  }

  /** The call list of a tag is its entry's calls, its body's, its exit's. */
  lemma HandleColored(enter: Token, inner: seq<Token>, exit: Token)
    ensures HandleAll([enter] + inner + [exit]) == HandleToken(enter) + HandleAll(inner) + HandleToken(exit)
  {
    HandleAllAppend([enter] + inner, [exit]);
    HandleAllAppend([enter], inner);
    assert HandleAll([enter]) == HandleToken(enter);
    assert HandleAll([exit]) == HandleToken(exit);
  }

  /** One tag renders as its span around whatever its body renders to. */
  lemma {:induction false} RenderColored(m: Markup, escape: string -> string, doc: string)
    requires m.Colored?
    ensures RenderAll(HandleAll(Tokens(m)), escape, doc) == doc + Expected(m, escape)
    decreases m, 0
  {
    var enter, exit := Token(Enter, m.opening, m.openPos), Token(Exit, m.closing, m.closePos);
    var inner := TokensAll(m.body);
    var a, b, c := HandleToken(enter), HandleAll(inner), HandleToken(exit);
    assert Tokens(m) == [enter] + inner + [exit];
    HandleColored(enter, inner, exit);
    var d1 := doc + OpenSpan(SpanColor(m.opening));
    var d2 := d1 + ExpectedAll(m.body, escape);
    RenderNestedAll(m.body, escape, d1);
    RenderAllAppend(a + b, c, escape, doc);
    RenderAllAppend(a, b, escape, doc);
    EntryRendersOpenSpan(m.opening, m.openPos, escape, doc);
    ExitRendersCloseSpan(m.closing, m.closePos, escape, d2);
    assert RenderAll(a + b + c, escape, doc) == d2 + CloseSpan;
    assert HandleAll(Tokens(m)) == a + b + c;
    assert Expected(m, escape) == OpenSpan(SpanColor(m.opening)) + ExpectedAll(m.body, escape) + CloseSpan;
    Regroup(doc, OpenSpan(SpanColor(m.opening)), ExpectedAll(m.body, escape), CloseSpan);
  }

  lemma Regroup(doc: string, o: string, e: string, c: string)
    ensures doc + o + e + c == doc + (o + e + c)
  {
  }

  lemma {:induction false} RenderNestedAll(ms: seq<Markup>, escape: string -> string, doc: string)
    ensures RenderAll(HandleAll(TokensAll(ms)), escape, doc) == doc + ExpectedAll(ms, escape)
    decreases ms
  {
    if |ms| > 0 {
      HandleAllAppend(Tokens(ms[0]), TokensAll(ms[1..]));
      RenderAllAppend(HandleAll(Tokens(ms[0])), HandleAll(TokensAll(ms[1..])), escape, doc);
      RenderNested(ms[0], escape, doc);
      RenderNestedAll(ms[1..], escape, doc + Expected(ms[0], escape));
    }
  }

  /** `<fc VALUE>text</fc>` with an accepted value renders as
      `<span style="color: VALUE">text</span>`. */
  lemma ValidTagRendersItsColor(value: string, text: string, escape: string -> string)
    requires IsValid(value)
    ensures var page := Colored("<fc " + value + ">", 0, [Text(text, 0)], "</fc>", 0);
      RenderAll(HandleAll(Tokens(page)), escape, "") == OpenSpan(value) + escape(text) + CloseSpan
  {
    var page := Colored("<fc " + value + ">", 0, [Text(text, 0)], "</fc>", 0);
    ColorAttributeOfTag("<fc ", value, '>');
    assert "<fc " + value + ">" == "<fc " + value + [ '>' ];
    RenderNested(page, escape, "");
    assert ExpectedAll([Text(text, 0)], escape) == escape(text);
  }

  /** With a rejected value the text is still wrapped, in the fallback colour. */
  lemma InvalidTagFallsBack(value: string, text: string, escape: string -> string)
    requires !IsValid(value)
    ensures var page := Colored("<fc " + value + ">", 0, [Text(text, 0)], "</fc>", 0);
      RenderAll(HandleAll(Tokens(page)), escape, "") == OpenSpan(Fallback) + escape(text) + CloseSpan
  {
    var page := Colored("<fc " + value + ">", 0, [Text(text, 0)], "</fc>", 0);
    ColorAttributeOfTag("<fc ", value, '>');
    assert "<fc " + value + ">" == "<fc " + value + [ '>' ];
    RenderNested(page, escape, "");
    assert ExpectedAll([Text(text, 0)], escape) == escape(text);
  }

  // ---------------------------------------------------------------------------
  // The token stream of a page is well nested

  function Delta(t: Token): int {
    match t.state
    case Enter => 1
    case Exit => -1
    case _ => 0
  }

  /** Starting `depth` tags deep, the stream never closes a tag that is not
      open and ends with every tag closed. */
  predicate WellNested(ts: seq<Token>, depth: int) {
    if |ts| == 0 then depth == 0
    else depth + Delta(ts[0]) >= 0 && WellNested(ts[1..], depth + Delta(ts[0]))
  }

  /** A page's tokens, followed by a stream that is well nested at `depth`,
      are well nested at `depth` too. */
  lemma {:induction false} TokensNest(m: Markup, rest: seq<Token>, depth: int)
    requires depth >= 0 && WellNested(rest, depth)
    ensures WellNested(Tokens(m) + rest, depth)
    decreases m
  {
    match m
    case Text(text, pos) =>
      assert (Tokens(m) + rest)[1..] == rest;
    case Colored(opening, openPos, body, closing, closePos) =>
      var enter, exit := Token(Enter, opening, openPos), Token(Exit, closing, closePos);
      var tail := [exit] + rest;
      assert tail[1..] == rest;
      assert WellNested(tail, depth + 1);
      TokensAllNest(body, tail, depth + 1);
      assert Tokens(m) + rest == [enter] + (TokensAll(body) + tail);
      assert ([enter] + (TokensAll(body) + tail))[1..] == TokensAll(body) + tail;
  }

  lemma {:induction false} TokensAllNest(ms: seq<Markup>, rest: seq<Token>, depth: int)
    requires depth >= 0 && WellNested(rest, depth)
    ensures WellNested(TokensAll(ms) + rest, depth)
    decreases ms
  {
    if |ms| == 0 {
      assert TokensAll(ms) + rest == rest;
    } else {
      TokensAllNest(ms[1..], rest, depth);
      TokensNest(ms[0], TokensAll(ms[1..]) + rest, depth);
      assert TokensAll(ms) + rest == Tokens(ms[0]) + (TokensAll(ms[1..]) + rest);
    }
  }

  /** What a call does to the span depth: an entry's plugin call opens a span,
      an exit's closes one, and every other call neither. */
  function CallDelta(ins: Instruction): int {
    match ins
    case PluginCall(Data(Enter, _)) => 1
    case PluginCall(Data(Exit, _)) => -1
    case _ => 0
  }

  /** Starting `depth` spans deep, the calls never close a span that is not
      open and leave every span closed. */
  predicate CallsNested(ins: seq<Instruction>, depth: int) {
    if |ins| == 0 then depth == 0
    else depth + CallDelta(ins[0]) >= 0 && CallsNested(ins[1..], depth + CallDelta(ins[0]))
  }

  /** Every token becomes exactly one call, which moves the span depth as the
      token moves the tag depth. */
  lemma HandleTokenIsOneCall(t: Token)
    ensures |HandleToken(t)| == 1 && CallDelta(HandleToken(t)[0]) == Delta(t)
  {
    var h := Handle(t.text, t.state, t.pos);
    if t.state == Unmatched {
      assert HandleToken(t) == [CdataCall(t.text)];
    } else {
      assert HandleToken(t) == [PluginCall(h.data)];
    }
  }

  /** The handler's calls open and close spans in a well-nested way exactly
      when the token stream opens and closes tags in a well-nested way, text,
      `Matched` and `Special` tokens mixed in or not. */
  lemma HandleKeepsNesting(ts: seq<Token>, depth: int)
    ensures CallsNested(HandleAll(ts), depth) <==> WellNested(ts, depth)
  {
    HandleAllDeltas(ts);
    SameDeltasSameNesting(HandleAll(ts), ts, depth);
  }

  /** The handler turns the i-th token into the i-th call, with the same
      effect on the depth. */
  lemma {:induction false} HandleAllDeltas(ts: seq<Token>)
    ensures |HandleAll(ts)| == |ts|
    ensures forall i | 0 <= i < |ts| :: CallDelta(HandleAll(ts)[i]) == Delta(ts[i])
    decreases |ts|
  {
    if |ts| > 0 {
      HandleTokenIsOneCall(ts[0]);
      HandleAllDeltas(ts[1..]);
      var ins := HandleAll(ts);
      assert ins == HandleToken(ts[0]) + HandleAll(ts[1..]);
      forall i | 0 <= i < |ts|
        ensures CallDelta(ins[i]) == Delta(ts[i])
      {
        if i > 0 {
          assert ins[i] == HandleAll(ts[1..])[i - 1];
          assert ts[i] == ts[1..][i - 1];
        }
      }
    }
  }

  /** Calls and tokens that move the depth alike nest alike. */
  lemma {:induction false} SameDeltasSameNesting(ins: seq<Instruction>, ts: seq<Token>, depth: int)
    requires |ins| == |ts|
    requires forall i | 0 <= i < |ts| :: CallDelta(ins[i]) == Delta(ts[i])
    ensures CallsNested(ins, depth) <==> WellNested(ts, depth)
    decreases |ts|
  {
    if |ts| > 0 {
      assert CallDelta(ins[0]) == Delta(ts[0]);
      forall i | 0 <= i < |ts| - 1
        ensures CallDelta(ins[1..][i]) == Delta(ts[1..][i])
      {
        assert CallDelta(ins[i + 1]) == Delta(ts[i + 1]);
      }
      SameDeltasSameNesting(ins[1..], ts[1..], depth + Delta(ts[0]));
    }
  }

  /** The tokens of any page are well nested from the top level. */
  lemma PageIsWellNested(ms: seq<Markup>)
    ensures WellNested(TokensAll(ms), 0)
  {
    TokensAllNest(ms, [], 0);
    assert TokensAll(ms) + [] == TokensAll(ms);
  }

  /** So the spans the plugin writes for a page balance. */
  lemma PageSpansBalance(ms: seq<Markup>)
    ensures CallsNested(HandleAll(TokensAll(ms)), 0)
  {
    PageIsWellNested(ms);
    HandleKeepsNesting(TokensAll(ms), 0);
  }
}
