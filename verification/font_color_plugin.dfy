/**
 The syntax plugin's callbacks: `handle` turns one lexer match into the data the
 renderer later receives, `render` appends xhtml for that data to the document,
 and `accepts` lets the tag nest inside itself. The host's lexer states are a
 closed datatype; the handler's `_addCall` side effect is returned as a list of
 calls, and the renderer's document is a plain string.
 */
module FontColorPlugin {
  import opened PhpText
  import opened ColorValidator

  /** The host lexer's states, one per `DOKU_LEXER_*` constant. */
  datatype LexerState = Enter | Matched | Unmatched | Exit | Special

  /** The colour used when the tag's value is rejected. */
  const Fallback: string := "#ff0"

  /** The plugin's own lexer mode. */
  const PluginMode: string := "plugin_fontcolor"

  const XhtmlMode: string := "xhtml"

  /** An instruction the handler adds to the host's call list. */
  datatype Call = Cdata(text: string, pos: int)

  /** What `handle` returns: PHP `false`, or the pair `array($state, $color)`. */
  datatype HandlerData = NoData | Data(state: LexerState, color: string)

  datatype Handled = Handled(data: HandlerData, calls: seq<Call>)

  /** `substr($match, 4, -1)`: the match without its first four bytes and its
      last one, or the empty string when the match is too short for that. */
  function ColorAttribute(m: string): (c: string)
    ensures |m| >= 5 ==> m == m[..4] + c + [m[|m| - 1]]
    ensures |m| < 5 ==> c == ""
  {
    if |m| >= 5 then m[4..|m| - 1] else ""
  }

  /** For an entry match `<fc` + separator + value + `>`, the extracted
      attribute is exactly the value. */
  lemma ColorAttributeOfTag(opening: string, value: string, closing: char)
    requires |opening| == 4
    ensures ColorAttribute(opening + value + [closing]) == value
  {
    var m := opening + value + [closing];
    assert m[4..|m| - 1] == value;
  }

  /** A tag whose value starts with a byte outside ASCII falls back, whatever
      follows that byte. */
  lemma NonAsciiValueFallsBack(opening: string, value: string, closing: char, pos: int)
    requires |opening| == 4 && |value| > 0 && value[0] >= '\U{80}'
    ensures Handle(opening + value + [closing], Enter, pos).data == Data(Enter, Fallback)
  {
    ColorAttributeOfTag(opening, value, closing);
    ValidRejectsForeignChar(value, 0);
  }

  /** U+00A0, the no-break space, as the two UTF-8 bytes PHP sees. */
  const NoBreakSpace: string := ['\U{C2}', '\U{A0}']

  /** `<fc`, a no-break space, then any text such as `red`, then `>`: the
      space's first byte is among the four bytes `substr` drops and its second
      is left in front of the text, so the tag gets the fallback colour. */
  lemma NoBreakSpaceAfterTagFallsBack(rest: string, pos: int)
    ensures Handle("<fc" + NoBreakSpace + rest + ">", Enter, pos).data == Data(Enter, Fallback)
  {
    var opening := "<fc" + [NoBreakSpace[0]];
    var value := [NoBreakSpace[1]] + rest;
    NonAsciiValueFallsBack(opening, value, '>', pos);
    SplitPair("<fc", NoBreakSpace, rest, ">");
  }

  lemma SplitPair(a: string, pair: string, rest: string, c: string)
    requires |pair| == 2 && |c| == 1
    ensures a + pair + rest + c == (a + [pair[0]]) + ([pair[1]] + rest) + [c[0]]
  {
    assert pair == [pair[0]] + [pair[1]];
    assert c == [c[0]];
  }

  lemma FallbackIsSafe()
    ensures SafeInAttribute(Fallback)
  {
  }

  /** `handle($match, $state, $pos, $handler)`. */
  function Handle(m: string, state: LexerState, pos: int): (h: Handled)
    ensures h.data == NoData <==> state == Unmatched
    ensures state == Unmatched ==> h.calls == [Cdata(m, pos)]
    ensures state != Unmatched ==> h.calls == [] && h.data.state == state
    ensures state == Enter && IsValid(ColorAttribute(m)) ==> h.data.color == ColorAttribute(m)
    ensures state != Unmatched && (state != Enter || !IsValid(ColorAttribute(m))) ==>
      h.data.color == Fallback
    ensures h.data.Data? ==> SafeInAttribute(h.data.color)
  {
    match state
    case Enter =>
      var color := ColorAttribute(m);
      if IsValid(color) then
        ValidValueIsSafe(color);
        Handled(Data(state, color), [])
      else
        FallbackIsSafe();
        Handled(Data(state, Fallback), [])
    case Unmatched =>
      Handled(NoData, [Cdata(m, pos)])
    case _ =>
      FallbackIsSafe();
      Handled(Data(state, Fallback), [])
  }

  /** The opening tag written for an entry: `<span style="color: C">`. */
  function OpenSpan(color: string): string {
    "<span style=\"color: " + color + "\">"
  }

  const CloseSpan: string := "</span>"

  /** `render($mode, $renderer, $data)`: the boolean it returns and the
      renderer's document afterwards. */
  function Render(mode: string, data: HandlerData, doc: string): (r: (bool, string))
    ensures r.0 <==> mode == XhtmlMode
    ensures |doc| <= |r.1| && r.1[..|doc|] == doc
    ensures mode != XhtmlMode ==> r.1 == doc
    ensures mode == XhtmlMode && data.Data? && data.state == Enter ==> r.1 == doc + OpenSpan(data.color)
    ensures mode == XhtmlMode && data.Data? && data.state == Exit ==> r.1 == doc + CloseSpan
    ensures data.NoData? || data.state !in {Enter, Exit} ==> r.1 == doc
  {
    if mode == XhtmlMode then
      match data
      case Data(Enter, color) => (true, doc + OpenSpan(color))
      case Data(Exit, _) => (true, doc + CloseSpan)
      case _ => (true, doc)
    else
      (false, doc)
  }

  /** The attribute opened at index 12 of the tag is closed right after the
      colour, and nothing in between can end it, open a tag or close one. */
  lemma OpenSpanContainsColor(color: string)
    requires SafeInAttribute(color)
    ensures var o := OpenSpan(color);
      && |o| == |color| + 22
      && o[12] == '"' && o[|color| + 20] == '"' && o[0] == '<' && o[|o| - 1] == '>'
      && forall i | 13 <= i < |color| + 20 :: !BreaksAttribute(o[i])
  {
    var o := OpenSpan(color);
    var pre := "<span style=\"color: ";
    assert |pre| == 20;
    assert o == pre + color + "\">";
    forall i | 13 <= i < |color| + 20
      ensures !BreaksAttribute(o[i])
    {
      if i < 20 {
        assert o[i] == pre[i];
      } else {
        assert o[i] == color[i - 20];
        assert color[i - 20] in color;
      }
    }
  }

  /** `accepts($mode)`: the plugin's own mode is always accepted, so the tag
      nests inside itself; every other mode gets the base class's answer,
      which is a parameter here. */
  function Accepts(mode: string, parentAccepts: string -> bool): (r: bool)
    ensures mode == PluginMode ==> r
    ensures mode != PluginMode ==> r == parentAccepts(mode)
  {
    if mode == PluginMode then true else parentAccepts(mode)
  }
}
