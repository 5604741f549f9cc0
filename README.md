# Formatting: markup to styled text, modelled in Dafny

`NSAttributedString(formatting:style:)` turns a small HTML-like markup
(`Hello <b>World</b>`, `<a href="…">`, `<br>`) into styled text. A style
sheet maps each tag name to an attribute bundle. The conversion has four
stages, and each one is a module here:

- **Preprocessor** (`Preprocessing`):
  - rewrites line-break tags to U+2028;
  - escapes `&` inside anchor `href` values with `Regex.replaceMatches` and the `sanitizeURL` guard;
  - wraps the text in `<body>…</body>`.
- **Tag-stack parser** (`Parsing`): the `XMLParserDelegate` callbacks, as a `Parser` class whose fields `text`, `elements` and `spans` the callbacks update in place. Each callback is proved equal to a pure `Step` on a `ParserState`. Delivering a whole event sequence is proved equal to `Run`.
- **Style resolver** (`Styles`): the table lookup, plus the `Link` key derived from an anchor's `href`.
- **Compositor** (`Composition`): `makeAttributedString` applies the recorded spans in reverse over an array of per-character bundles. `AttributesAt` is its reference definition, and the lemmas state which span wins a key.

`Documents` gives well-formed input its meaning as a tree of tags and
character data. On the event sequence of such a tree, the stack machine
yields the tree's text and one span per tag, recorded inner first. Spans
are properly nested and lie within the text.

`Formatting` is the entry point with its fallback. It also holds the
documented scenarios as lemmas over the events `XMLParser` reports for
them.

Three behaviours of the code worth knowing, which the model follows:

- The pattern `<br ?/?>` is case-sensitive and has four forms: `<br>`, `<br/>`, `<br >` and `<br />`.
- A stray or mismatched end tag does not fail the parse. With assertions off, an empty stack changes nothing. A mismatched name still pops the element but records no span.
- When an anchor's `href` is not a valid URL, the `Link` key is removed from the element's bundle. Swift assigns a nil `URL?` through the dictionary subscript.

## Model

| member | source | states |
|---|---|---|
| Styles.AttributesFor | Source/Formatting.swift:47-49 | a bundle is returned exactly when the tag is in the style sheet, and it is that entry |
| Styles.AttributesForIgnoresMarkup | Source/Formatting.swift:47-49 | the lookup depends on the tag name only, never on the markup attributes |
| Styles.ElementBundle | Source/Formatting.swift:138-141 | a non-anchor tag, or an anchor without `href`, gets the table bundle (empty when unmapped); an anchor with `href` has `Link` exactly when the href is a URL, with that URL as value; every other key is the table's |
| Styles.FallbackBundle | Source/Formatting.swift:35 | the `body` entry when the sheet has one, otherwise no attributes |
| Styles.BodyElementIsFallback | Source/Formatting.swift:138-141 | the `<body>` element added by the preprocessor opens with exactly the fallback bundle |
| Composition.AttributesAt | Source/Formatting.swift:125-131 | defines a character's attributes once the spans are applied from last to first, each merging its bundle over the ones before |
| Composition.KeyPresent | Source/Formatting.swift:125-131 | a character has a key if and only if some span covering it has that key |
| Composition.FirstCoveringSpanWins | Source/Formatting.swift:125-131 | the value of a key at a character is the one of the first-recorded covering span that has the key; later (outer) spans cannot override it |
| Composition.OutermostDefault | Source/Formatting.swift:125-131 | the last-recorded span gives every character it covers all its keys, with its own value unless an earlier covering span sets the key |
| Composition.AddAttributes | Source/Formatting.swift:130 | characters in the range get the bundle merged over their old attributes; all other characters are unchanged |
| Composition.MakeAttributedString | Source/Formatting.swift:123-133 | the text is unchanged, there is one bundle per character, and each equals applying the spans from last to first |
| Preprocessing.BreakTagLength | Source/Formatting.swift:89 | a match at the start of a string lies within it and is one of the four line-break forms |
| Preprocessing.BreakTagAt | Source/Formatting.swift:89 | a string that begins with a line-break form matches exactly that form |
| Preprocessing.ReplaceLineBreaksLeavesNone | Source/Formatting.swift:89 | no line-break tag remains anywhere in the output, including one formed across a replacement |
| Preprocessing.ReplaceLineBreaksIdentity | Source/Formatting.swift:89 | text with no line-break tag passes through unchanged |
| Preprocessing.ReplaceLineBreaksIdempotent | Source/Formatting.swift:89 | rewriting line breaks twice gives the same as once |
| Preprocessing.ReplaceLineBreaks | Source/Formatting.swift:89 | defines the left-to-right, non-overlapping rewrite of `<br ?/?>` to U+2028; the result is never longer than the input |
| Preprocessing.LineBreakInContext | Source/Formatting.swift:89 | a line-break tag anywhere in a text becomes exactly one U+2028, and the text before and after it is rewritten independently of it |
| Preprocessing.LineBreakForms | Tests/FormattingTests.swift:153-155 | `a<br>b`, `a<br/>b`, `a<br />b` (and `a<br >b`) all become `a\u{2028}b` |
| Preprocessing.Spliced | Source/Formatting.swift:198-211 | defines the reference result of `replaceMatches` after its first `n` groups, in the original string's coordinates |
| Preprocessing.Shift | Source/Formatting.swift:198-211 | defines the running `offset`: the sum of `replacement.count - group.count` over the groups replaced so far |
| Preprocessing.SplicedLength | Source/Formatting.swift:208 | the rewritten text is as long as the original plus the accumulated shift |
| Preprocessing.SplicedStep | Source/Formatting.swift:205-208 | after the groups before `i` are replaced, group `i` sits `offset` characters from its original place and still holds its original text; replacing it there gives the result for one more group, and the shift grows by `replacement.count - group.count` |
| Preprocessing.SplicedSkip | Source/Formatting.swift:202-204 | a group whose transform returns nil leaves the string and the offset as they are |
| Preprocessing.SplicedNext | Source/Formatting.swift:201-209 | either branch of the loop body keeps the string and `offset` equal to the reference result and shift |
| Preprocessing.ReplaceMatches | Source/Formatting.swift:198-211 | the loop's result is the reference splice, in original coordinates, of every group's replacement (its own text when the transform returns nil) |
| Preprocessing.SplicedUnchanged | Source/Formatting.swift:202-204 | when the transform returns nil for every group, the output equals the input |
| Preprocessing.SplicedPlacesGroup | Source/Formatting.swift:205-208 | the output starts with the rewritten text before any group followed by that group's replacement, and that prefix is the group's start shifted by the offset so far |
| Preprocessing.SanitizeURL | Source/Formatting.swift:105-120 | a URL without `&` gets nil (no rewrite); a URL with `&` always gets the `URLComponents` re-serialisation, nil when that fails |
| Preprocessing.Preprocess | Source/Formatting.swift:84-96 | the result is the input with line breaks replaced, `href` groups sanitised by the `replaceMatches` loop, then wrapped in `<body>` |
| Preprocessing.PreprocessedWithoutAmpersands | Source/Formatting.swift:98-108 | when no `href` contains `&`, preprocessing changes only the line breaks |
| Parsing.Step | Source/Formatting.swift:137-163 | defines what each delegate callback does to `text`, `elements`, `attributes` and `parseError` |
| Parsing.Run | Source/Formatting.swift:73-75 | defines the callbacks for a whole event sequence, in the order `XMLParser` reports them |
| Parsing.StepKeepsWellFormed | Source/Formatting.swift:137-163 | each callback keeps every open element's offset within the text and offsets growing up the stack, and keeps every span within the text; text and spans only grow; an error stays |
| Parsing.RunAppend | Source/Formatting.swift:73-75 | delivering two event sequences one after the other is delivering their concatenation |
| Parsing.RunKeepsWellFormed | Source/Formatting.swift:137-163 | over any events, offsets stay within the text and only grow (the old text is a prefix), spans are only appended and stay within the text, and an error stays reported |
| Parsing.RunFailed | Source/Formatting.swift:161-163 | the parse has failed exactly when an error was reported before or among the events |
| Parsing.Parser.constructor | Source/Formatting.swift:65-67 | a new parser has empty text, stack and spans and no error |
| Parsing.Parser.DidStartElement | Source/Formatting.swift:137-144 | exactly one element is pushed, opened at the current character count with the resolved bundle; nothing else changes |
| Parsing.Parser.DidEndElement | Source/Formatting.swift:146-155 | an empty stack changes nothing; otherwise the top element is popped, and only when its name matches is `[startOffset, text.count)` recorded with its bundle |
| Parsing.Parser.FoundCharacters | Source/Formatting.swift:157-159 | the characters are appended verbatim; nothing else changes |
| Parsing.Parser.ParseErrorOccurred | Source/Formatting.swift:161-163 | the error is remembered; nothing else changes |
| Parsing.Parser.Deliver | Source/Formatting.swift:73-75 | handing the events to their callbacks in order leaves the state `Run` gives |
| Parsing.Parser.Parse | Source/Formatting.swift:69-80 | the result is absent (the thrown error) exactly when an error was reported, and otherwise is the parsed text with its composed attributes |
| Documents.RunNode | Source/Formatting.swift:137-159 | a tag's events append the tag's character data and its spans (children's first, then its own) and leave the stack as it was |
| Documents.RunForest | Source/Formatting.swift:137-159 | a sequence of trees appends their text and spans in document order |
| Documents.NodeSpansNested | Source/Formatting.swift:146-155 | a tree's spans lie within its text and are properly nested with inner spans first |
| Documents.ForestSpansNested | Source/Formatting.swift:146-155 | the same for a sequence of trees |
| Documents.FirstIsInnermost | Source/Formatting.swift:146-155 | of two nested-order spans covering the same character, the later-recorded one contains the earlier; with `FirstCoveringSpanWins` and `BodyNested`, the innermost tag's value wins |
| Documents.BodyRun | Source/Formatting.swift:95 | a well-formed parse of the wrapped input ends with no open element and no error, and its last span is `[0, text.count)` with the `body` bundle |
| Documents.BodyNested | Source/Formatting.swift:125-126 | the spans of a well-formed parse are properly nested, inner first, and within the text |
| Formatting.Fallback | Source/Formatting.swift:35 | the fallback is the unprocessed input with the `body` bundle on every character |
| Formatting.Format | Source/Formatting.swift:29-37 | the conversion gives the composed parse, or the fallback when the parse failed; one bundle per character |
| Formatting.FormattedOnError | Source/Formatting.swift:31-36 | when `XMLParser` reports an error, the result is the original input with only the `body` bundle: no partial spans survive |
| Formatting.FormattedDocument | Source/Formatting.swift:125-131 | for a well-formed document, the text is its character data, and every character has every `body` key, with the body's value unless a tag covering it sets that key |
| Formatting.BodyScenario | Tests/FormattingTests.swift:10-32 | `Hello` gives `Hello` with the one span `[0, 5)` of the body bundle |
| Formatting.BoldRun | Tests/FormattingTests.swift:34-66 | `Hello <b>World</b>` gives `Hello World` with the spans `[6, 11)` bold then `[0, 11)` body |
| Formatting.OverrideSuffix | Source/Formatting.swift:125-131 | when the inner bundle has every key of the outer one, an inner span over a suffix decides the attributes there entirely, and the outer span's hold before it |
| Formatting.BoldScenario | Tests/FormattingTests.swift:34-66 | once composed, `Hello ` has the body font and `World` the bold font |
| Formatting.LinkRun | Tests/FormattingTests.swift:68-102 | `Tap <a class=… href=…>this</a>` with a valid URL gives `Tap this`, spans `[4, 8)` with the link then `[0, 8)` body |
| Formatting.LinkScenario | Tests/FormattingTests.swift:68-102 | `Tap ` has the body font only; `this` has both the link and the inherited body font |
| Formatting.CharacterOffsetsScenario | Tests/FormattingTests.swift:194-211 | offsets count characters: in `⚠ Text with <t>emoji</t>` the `t` span covers exactly `emoji` |

## Left out

- `XMLParser` is not modelled. Its tokenising, entity decoding and well-formedness checks are foreign code. The events it reports are an input. So the `&amp;` round trip of the ampersand test (Tests/FormattingTests.swift:104-140) is not proved end to end: only the `sanitizeURL` guard and the splice are.
- `NSRegularExpression` and `Regex.matches` are not modelled. The capture groups are an input, assumed in order, non-overlapping and within the string (`Placed`). The `try?` guard on compiling the constant pattern (Source/Formatting.swift:99-101) is left out.
- The `URLComponents` query re-serialisation in `sanitizeURL` (Source/Formatting.swift:109-120) is an opaque function parameter. `URL(string:)` validity is an opaque predicate.
- The `data(using: .utf8)` failure branch of `parse` (Source/Formatting.swift:70-72) is left out: it cannot fail for a Swift string.
- Text is a sequence of Unicode scalars, and offsets count them. Swift's grapheme clusters are not modelled: a Swift `Character` can hold several scalars, and clusters can merge when text is appended. `NSRange` and its UTF-16 conversion (Source/Formatting.swift:127-129) are also left out.
- Preprocessing.ReplaceMatches: the loop is modelled with character offsets. Source/Formatting.swift:205-206 applies indices taken from the original string to the rewritten one, shifted by `offset`. That agrees with the model only while every character the indices step across is a single unit of the string's storage, in practice ASCII. So the proved equality with `Spliced` says nothing about non-ASCII text before a later `href` that contains `&`.
- Attribute values such as fonts and colours are opaque. A URL value is kept as its string.
- `parserDidEndDocument` does nothing and is not modelled.
- The "thread safe" remark is not modelled: the model is sequential, with a fresh parser per conversion.
- The Cyrillic test (Tests/FormattingTests.swift:160-192) is about a Swift `String.Index` crash. The model has no such indices, so it has no scenario for it.
- Parsing.Parser.Parse: requires a fresh parser state, because the converter creates a new `Parser` for every call (Source/Formatting.swift:30).
