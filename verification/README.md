# fontcolor syntax plugin: a Dafny model

This is a model of the DokuWiki "fontcolor" syntax plugin (`syntax.php`). The plugin lets page
authors write `<fc COLOUR>text</fc>`. The lexer hands each entry, text and exit match to the
plugin's `handle` callback. For an entry, `handle` cuts the colour value out of the tag and
checks it with `_isValid`. `render` then turns the handler's data into
`<span style="color: COLOUR">` … `</span>` in the xhtml document. `accepts` lets the tag nest
inside itself.

The model has four modules:

- `PhpText` is PHP's `trim()` with its default character list: space, tab, line feed, carriage
  return, NUL and vertical tab. Form feed is not in that list. PHP strings are byte strings, and
  every `string` in the model stands for one, one `char` per byte. Text typed in Unicode is
  therefore its UTF-8 bytes: a no-break space is the two characters U+00C2 and U+00A0. This is
  what makes `substr`'s offsets in `handle` byte offsets, as they are in PHP.
- `ColorValidator` is `_isValid`. The trimmed value is parsed into a `Color`: a name, a hex
  value or an `rgb(…)` triplet. `Spell` writes a colour back out. The three alternatives of the
  source's regular expression are recognised character by character, in the order the pattern
  tries them.
- `FontColorPlugin` covers the callbacks:
  - `handle` is a pure function from (match, lexer state, position) to the returned data plus
    the `cdata` calls it would add.
  - The xhtml branch of `render` is a function from (mode, data, document) to
    (returned boolean, new document).
  - `accepts` takes the base class's answer as a parameter.
- `Nesting` puts the callbacks in their host. A page is a tree of text and colour tags. It is
  turned into its lexer token stream, run through `Handle` and then `Render`. The result is
  exactly the nested spans one would write by hand, and the token stream is well nested.

Details of the code that the model keeps:

- `handle` returns the value as it was cut from the tag, untrimmed, whenever `_isValid`
  accepts it. Only the validation trims. The safety lemma therefore covers the untrimmed value.
- A rejected value falls back to `#ff0` (syntax.php:100). It does not fall back to a default
  colour of the theme.
- `render` on the `false` that `handle` returns for text destructures it into a null state.
  No case matches that state, so `render` returns `true` and leaves the document as it was
  (`HandlerData.NoData`).

## Model

| member | source | states |
|---|---|---|
| PhpText.TrimLeft | syntax.php:145 | Removes exactly a leading run of trim-space characters: the result is a suffix of the input, the removed prefix is all trim space, and the result does not start with trim space |
| PhpText.TrimRight | syntax.php:145 | Removes exactly a trailing run of trim-space characters: the result is a prefix, the removed suffix is all trim space, and the result does not end with trim space |
| PhpText.TrimDecomposition | syntax.php:145 | Every string is its trimmed part between a leading and a trailing run of trim spaces |
| PhpText.TrimIgnoresSurroundingSpace | syntax.php:145 | Adding whitespace runs on either side never changes what `trim` returns |
| PhpText.TrimIdempotent | syntax.php:145 | Trimming twice equals trimming once |
| PhpText.TrimEmptyIffAllSpace | syntax.php:145 | `trim` yields the empty string exactly for strings made only of trim spaces |
| ColorValidator.ParseChannel | syntax.php:150 | A recognised channel has 1 to 3 decimal digits and is spelled exactly as the text it came from |
| ColorValidator.JoinSplit | syntax.php:150 | Splitting at commas and joining again gives back the input |
| ColorValidator.ParseSpell | syntax.php:147-153 | Every well-formed name, 3- or 6-digit hex value or 3-channel triplet is recognised, as itself |
| ColorValidator.SpellParse | syntax.php:147-153 | Whatever the pattern recognises is well formed and spelled exactly as the input |
| ColorValidator.ValidIffSpelled | syntax.php:143-154 | `_isValid` accepts a value if and only if its trimmed form spells some well-formed colour |
| ColorValidator.NamesAccepted | syntax.php:145-148 | Every non-empty run of ASCII letters is accepted; no palette is consulted |
| ColorValidator.HexDigitCount | syntax.php:149 | `#` followed by hex digits is accepted exactly when there are 3 or 6 of them, so `#1234` is rejected |
| ColorValidator.RgbAccepted | syntax.php:150 | Three channels of 1 to 3 digits, each optionally with `%`, are accepted with no range check, so `rgb(999,999,999)` passes |
| ColorValidator.TwoChannelsRejected | syntax.php:150 | A triplet with only two channels is rejected |
| ColorValidator.UnclosedRejected | syntax.php:150 | A triplet without its closing parenthesis is rejected |
| ColorValidator.ParseRgbShape | syntax.php:150 | A value shaped `rgb(…)` is accepted exactly when its inside is three valid channels |
| ColorValidator.BlankRejected | syntax.php:145-153 | The empty string and every all-whitespace string are rejected |
| ColorValidator.ValidIgnoresSurroundingSpace | syntax.php:145-153 | Adding or removing surrounding whitespace never changes the verdict |
| ColorValidator.ValidUnpadded | syntax.php:145-153 | A value that neither starts nor ends with whitespace is judged exactly by the pattern |
| ColorValidator.SpellUsesColorChars | syntax.php:147-151 | Every well-formed spelling uses only letters, digits, `#`, `(`, `)`, `,` and `%` |
| ColorValidator.ValidCharset | syntax.php:136-154 | An accepted value holds only those characters and surrounding whitespace |
| ColorValidator.ValidRejectsForeignChar | syntax.php:136-154 | A value with any other character anywhere in it is rejected |
| ColorValidator.ValidValueIsSafe | syntax.php:136-154 | An accepted value holds no `"`, `<`, `>` or `;`, so it cannot leave the `style` attribute, open or close a tag, or add a declaration |
| FontColorPlugin.ColorAttribute | syntax.php:87 | The extracted value is the match without its first four bytes and its last one, or empty when the match is shorter than five bytes |
| FontColorPlugin.ColorAttributeOfTag | syntax.php:87 | For an entry match of four opening bytes, a value and one closing byte, the extracted value is exactly that value |
| FontColorPlugin.NonAsciiValueFallsBack | syntax.php:86-100 | An entry whose value, after the four dropped bytes, starts with a non-ASCII byte always gets `#ff0` |
| FontColorPlugin.NoBreakSpaceAfterTagFallsBack | syntax.php:86-100 | `<fc`, a UTF-8 no-break space, any text such as `red`, then `>` gets `#ff0`, not `red`: `substr` drops the space's first byte and leaves its second in front of the text |
| FontColorPlugin.Handle | syntax.php:84-101 | Text yields no data and exactly one `cdata` call carrying the match; every other state yields its own state and no call; an entry with an accepted value yields that value, anything else yields `#ff0`; returned colours are always safe in the attribute |
| FontColorPlugin.Render | syntax.php:111-132 | Returns true exactly for `xhtml`; only ever appends; an entry appends the opening span with its colour, an exit appends `</span>`, and every other state, the no-data case and every other mode leave the document unchanged |
| FontColorPlugin.OpenSpanContainsColor | syntax.php:117 | For a safe colour, the `style` attribute opened in the span tag is closed right after the colour, and nothing in between can end it |
| FontColorPlugin.Accepts | syntax.php:70-73 | The plugin's own mode is always accepted, and every other mode gets the base class's answer |
| Nesting.HandleAllAppend | syntax.php:84-101 | Handling a token stream is handling its parts one after the other |
| Nesting.RenderAllAppends | syntax.php:111-131 | Rendering any call list only appends to the document |
| Nesting.EntryRendersOpenSpan | syntax.php:86-117 | An entry token renders to the opening span in its tag's colour: the value when accepted, the fallback otherwise |
| Nesting.ExitRendersCloseSpan | syntax.php:95-124 | An exit token renders to `</span>` |
| Nesting.TextRendersEscaped | syntax.php:92-94 | A text token renders to its escaped text and to nothing from the plugin |
| Nesting.RenderNested | syntax.php:84-131 | A page of nested tags renders to the nested spans written directly from its structure |
| Nesting.RenderColored | syntax.php:84-131 | One tag renders as its opening span, then whatever its body renders to, then `</span>` |
| Nesting.RenderNestedAll | syntax.php:84-131 | The same for a sequence of pages |
| Nesting.ValidTagRendersItsColor | syntax.php:86-124 | `<fc VALUE>text</fc>` with an accepted value renders as `<span style="color: VALUE">` + escaped text + `</span>` |
| Nesting.InvalidTagFallsBack | syntax.php:86-117 | With a rejected value, the text is still wrapped, in the colour `#ff0` |
| Nesting.PageIsWellNested | syntax.php:84-131 | The token stream of any page never closes a tag that is not open and ends with every tag closed |
| Nesting.HandleAllDeltas | syntax.php:84-101 | The handler turns the i-th token into exactly one call, the i-th, which opens a span for an entry, closes one for an exit, and does neither otherwise |
| Nesting.HandleKeepsNesting | syntax.php:84-101 | For any token stream, with text, matched and special tokens mixed in, the handler's span-opening (entry) and span-closing (exit) calls are well nested exactly when the stream's tags are |
| Nesting.PageSpansBalance | syntax.php:84-131 | The span-opening and span-closing calls the plugin makes for any page balance |

## Left out

- `connectTo` and `postConnect` are left out. They register the lexer patterns, including the `<fc`/`<FC` variants and the lookahead for the closing tag. Splitting a page into tokens is the host lexer's job, so the model starts from a token stream, or from a page tree whose tags are already matched.
- `getType`, `getAllowedTypes`, `getPType` and `getSort` are left out because they are constants with no behaviour.
- The base class's `accepts` is not visible, so it is a parameter of `Accepts`.
- The host handler's `_addCall` side effect is returned as a list of `Cdata` calls.
- The renderer object is a plain document string.
- The host's escaping of text is a parameter of the pipeline in `Nesting`.
- The host is assumed to behave as follows, and these are assumptions rather than proved facts:
  - the handler adds a plugin call only when `handle` returned data;
  - the renderer appends escaped text for a `cdata` call.
- PHP's regular-expression engine is not modelled. The accepted language is defined directly. Once `trim` has removed any final newline, the pattern's `$` can only match at the end of the value.
- Decoding and encoding UTF-8 is left out: a `string` already holds the page's bytes. Characters above U+00FF never occur in a PHP string, and the model does not exclude them by a precondition.
- FontColorPlugin.ColorAttribute: a match shorter than five bytes gives the empty string. Some PHP versions give `false` there. Both are rejected by `_isValid`, so the handler's result is the same.
- `_isValid` returns PHP's `preg_match` count (0 or 1). Here it is a boolean predicate, `IsValid`. A pattern-engine error result is not modelled.
- Normalising colour names to hex values and any output format other than xhtml are left out. Neither appears in `syntax.php`.
