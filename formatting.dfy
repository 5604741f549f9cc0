/**
 * The entry point `NSAttributedString(formatting:style:)`: parse the
 * markup, or, when the parse fails, fall back to the original input with
 * the `body` attributes over the whole of it.
 */
module Formatting {
  import opened Optional
  import opened Styles
  import opened Composition
  import opened Parsing
  import opened Documents
  import opened Preprocessing

  /** The fallback: the unprocessed input, every character with the `body` bundle. */
  function Fallback(input: string, style: StyleSheet): (r: StyledText)
    ensures r.text == input && |r.attributes| == |input|
    ensures forall i :: 0 <= i < |input| ==> r.attributes[i] == FallbackBundle(style)
  {
    StyledText(input, seq(|input|, _ => FallbackBundle(style)))
  }

  /** What the conversion produces for `input`. */
  function Formatted(input: string, style: StyleSheet, foundation: Foundation): StyledText
    requires foundation.Valid()
  {
    var parsed := Parsed(style, foundation, input);
    if parsed.failed then Fallback(input, style)
    else StyledText(parsed.text, Composed(|parsed.text|, parsed.spans))
  }

  /** `init(formatting:style:)`: a fresh parser per call, with the fallback when `parse` throws. */
  method Format(input: string, style: StyleSheet, foundation: Foundation) returns (r: StyledText)
    requires foundation.Valid()
    ensures r == Formatted(input, style, foundation)
    ensures |r.attributes| == |r.text|
  {
    var parser := new Parser(style, foundation);
    var output := parser.Parse(input);
    match output {
      case Some(styled) => r := styled;
      case None => r := Fallback(input, style);
    }
  }

  /**
   * When `XMLParser` reports an error, the result is the original input
   * with the `body` bundle on every character and nothing else: no partial
   * spans survive.
   */
  lemma FormattedOnError(input: string, style: StyleSheet, foundation: Foundation)
    requires foundation.Valid()
    requires Error in foundation.events(Wrapped(input, foundation.hrefGroups, foundation.rewriteURL))
    ensures var r := Formatted(input, style, foundation);
      && r.text == input
      && forall i :: 0 <= i < |input| ==> r.attributes[i] == FallbackBundle(style)
  {
    var events := foundation.events(Wrapped(input, foundation.hrefGroups, foundation.rewriteURL));
    RunFailed(style, foundation.isURL, Initial, events);
  }

  /**
   * For input that `XMLParser` reads as a well-formed document, the text is
   * the document's character data, and every character carries every key
   * of the `body` bundle: with the body's own value unless a tag inside it
   * that covers the character sets that key.
   */
  lemma FormattedDocument(input: string, style: StyleSheet, foundation: Foundation, children: seq<Node>)
    requires foundation.Valid()
    requires foundation.events(Wrapped(input, foundation.hrefGroups, foundation.rewriteURL))
          == NodeEvents(Tag("body", map[], children))
    ensures var r := Formatted(input, style, foundation);
      var inner := ForestSpans(style, foundation.isURL, children, 0);
      && r.text == ForestText(children)
      && |r.attributes| == |r.text|
      && forall i, k :: 0 <= i < |r.text| && k in FallbackBundle(style) ==>
           k in r.attributes[i]
           && ((forall j :: 0 <= j < |inner| && Covers(inner[j], i) ==> k !in inner[j].attributes)
               ==> r.attributes[i][k] == FallbackBundle(style)[k])
  {
    var isURL := foundation.isURL;
    BodyRun(style, isURL, children);
    var inner := ForestSpans(style, isURL, children, 0);
    var body := Span(0, |ForestText(children)|, FallbackBundle(style));
    forall i, k | 0 <= i < |ForestText(children)| && k in FallbackBundle(style)
      ensures k in AttributesAt(inner + [body], i)
      ensures (forall j :: 0 <= j < |inner| && Covers(inner[j], i) ==> k !in inner[j].attributes)
              ==> AttributesAt(inner + [body], i)[k] == FallbackBundle(style)[k]
    {
      OutermostDefault(inner, body, i, k);
    }
  }

  // ---------------------------------------------------------------------
  // The documented scenarios, on the events `XMLParser` reports for them.

  const Font := Named("font")
  const Light := map[Font := Opaque(1)]
  const Medium := map[Font := Opaque(2)]

  /** `Hello` gives the text `Hello` and the single span `[0, 5)` with the `body` bundle. */
  lemma BodyScenario(isURL: string -> bool)
    ensures var last := Run(map["body" := Light], isURL, Initial, NodeEvents(Tag("body", map[], [Text("Hello")])));
      last.text == "Hello" && last.spans == [Span(0, 5, Light)]
  {
    var style := map["body" := Light];
    var children := [Text("Hello")];
    BodyRun(style, isURL, children);
    assert ForestText(children) == "Hello";
    assert ForestSpans(style, isURL, children, 0) == [];
  }

  const BoldStyle: StyleSheet := map["body" := Light, "b" := Medium]
  const BoldChildren := [Text("Hello "), Tag("b", map[], [Text("World")])]

  /** The character data of `Hello <b>World</b>`. */
  lemma BoldText()
    ensures ForestText(BoldChildren) == "Hello World"
  {
    assert ForestText(BoldChildren[1..]) == "World";
    assert "Hello " + "World" == "Hello World";
  }

  /** The only span inside the body of `Hello <b>World</b>` is the bold one, `[6, 11)`. */
  lemma BoldSpans(isURL: string -> bool)
    ensures ForestSpans(BoldStyle, isURL, BoldChildren, 0) == [Span(6, 11, Medium)]
  {
    var bold := BoldChildren[1];
    assert ElementBundle(BoldStyle, isURL, "b", map[]) == Medium;
    assert NodeSpans(BoldStyle, isURL, bold, 6) == [Span(6, 11, Medium)] by {
      assert ForestSpans(BoldStyle, isURL, [Text("World")], 6) == [];
    }
    assert ForestSpans(BoldStyle, isURL, BoldChildren[1..], 6) == NodeSpans(BoldStyle, isURL, bold, 6) + [];
  }

  /** The parse of `<body>Hello <b>World</b></body>`: `[6, 11)` closes before `[0, 11)`. */
  lemma BoldRun(isURL: string -> bool)
    ensures Run(BoldStyle, isURL, Initial, NodeEvents(Tag("body", map[], BoldChildren)))
        == ParserState("Hello World", [], [Span(6, 11, Medium), Span(0, 11, Light)], false)
  {
    BodyRun(BoldStyle, isURL, BoldChildren);
    BoldText();
    BoldSpans(isURL);
    assert FallbackBundle(BoldStyle) == Light;
    assert [Span(6, 11, Medium)] + [Span(0, 11, Light)] == [Span(6, 11, Medium), Span(0, 11, Light)];
  }

  /** An inner span over a suffix takes its bundle there; the outer span's bundle holds elsewhere. */
  lemma OverrideSuffix(inner: Bundle, outer: Bundle, mid: nat, length: nat)
    requires mid <= length && inner.Keys >= outer.Keys
    ensures var composed := Composed(length, [Span(mid, length, inner), Span(0, length, outer)]);
      && (forall i :: 0 <= i < mid ==> composed[i] == outer)
      && (forall i :: mid <= i < length ==> composed[i] == inner)
  {
    var spans := [Span(mid, length, inner), Span(0, length, outer)];
    forall i | 0 <= i < length ensures AttributesAt(spans, i) == if i < mid then outer else inner {
      assert spans[1..] == [Span(0, length, outer)];
      assert AttributesAt(spans[1..], i) == map[] + outer;
      assert map[] + outer == outer;
      if mid <= i {
        assert outer + inner == inner;
      }
    }
  }

  /**
   * `Hello <b>World</b>` gives `Hello World` with the spans `[6, 11)` (bold)
   * then `[0, 11)` (body); once composed, `Hello ` has the body font and
   * `World` the bold font.
   */
  lemma BoldScenario(isURL: string -> bool)
    ensures var last := Run(BoldStyle, isURL, Initial, NodeEvents(Tag("body", map[], BoldChildren)));
      && last.text == "Hello World"
      && last.spans == [Span(6, 11, Medium), Span(0, 11, Light)]
      && (forall i :: 0 <= i < 6 ==> Composed(11, last.spans)[i] == Light)
      && (forall i :: 6 <= i < 11 ==> Composed(11, last.spans)[i] == Medium)
  {
    BoldRun(isURL);
    OverrideSuffix(Medium, Light, 6, 11);
  }

  const LinkStyle: StyleSheet := map["body" := Light]

  function LinkChildren(href: string): seq<Node>
  {
    [Text("Tap "), Tag("a", map["class" := "custom-class", "href" := href], [Text("this")])]
  }

  /** The character data of `Tap <a …>this</a>`. */
  lemma LinkText(href: string)
    ensures ForestText(LinkChildren(href)) == "Tap this"
  {
    var anchor := LinkChildren(href)[1];
    assert NodeText(anchor) == "this" by {
      assert ForestText([Text("this")]) == "this" + [];
    }
    assert LinkChildren(href)[1..] == [anchor];
    assert ForestText([anchor]) == NodeText(anchor) + [];
    assert "Tap " + "this" == "Tap this";
  }

  /** With a valid URL, the only span inside the body is `[4, 8)` with the link and nothing else. */
  lemma LinkSpans(isURL: string -> bool, href: string)
    requires isURL(href)
    ensures ForestSpans(LinkStyle, isURL, LinkChildren(href), 0) == [Span(4, 8, map[Link := Url(href)])]
  {
    var anchor := LinkChildren(href)[1];
    var link := map[Link := Url(href)];
    assert ElementBundle(LinkStyle, isURL, "a", anchor.attributes) == link;
    assert NodeSpans(LinkStyle, isURL, anchor, 4) == [Span(4, 8, link)] by {
      assert ForestSpans(LinkStyle, isURL, [Text("this")], 4) == [];
    }
    assert ForestSpans(LinkStyle, isURL, LinkChildren(href)[1..], 4) == NodeSpans(LinkStyle, isURL, anchor, 4) + [];
  }

  /** The parse of `<body>Tap <a class="custom-class" href="…">this</a></body>` when the `href` is a URL. */
  lemma LinkRun(isURL: string -> bool, href: string)
    requires isURL(href)
    ensures Run(LinkStyle, isURL, Initial, NodeEvents(Tag("body", map[], LinkChildren(href))))
        == ParserState("Tap this", [], [Span(4, 8, map[Link := Url(href)]), Span(0, 8, Light)], false)
  {
    BodyRun(LinkStyle, isURL, LinkChildren(href));
    LinkText(href);
    LinkSpans(isURL, href);
    assert FallbackBundle(LinkStyle) == Light;
    var link := map[Link := Url(href)];
    assert [Span(4, 8, link)] + [Span(0, 8, Light)] == [Span(4, 8, link), Span(0, 8, Light)];
  }

  /**
   * `Tap <a href="…">this</a>` with a valid URL gives `Tap this`, and
   * `this` carries both the link and the inherited body font.
   */
  lemma LinkScenario(isURL: string -> bool, href: string)
    requires isURL(href)
    ensures var last := Run(LinkStyle, isURL, Initial, NodeEvents(Tag("body", map[], LinkChildren(href))));
      && last.text == "Tap this"
      && (forall i :: 0 <= i < 4 ==> Composed(8, last.spans)[i] == Light)
      && (forall i :: 4 <= i < 8 ==> Composed(8, last.spans)[i] == map[Font := Opaque(1), Link := Url(href)])
  {
    LinkRun(isURL, href);
    var link := map[Link := Url(href)];
    var spans := [Span(4, 8, link), Span(0, 8, Light)];
    forall i | 0 <= i < 8 ensures AttributesAt(spans, i) == if i < 4 then Light else Light + link {
      assert spans[1..] == [Span(0, 8, Light)];
      assert AttributesAt(spans[1..], i) == map[] + Light;
      assert map[] + Light == Light;
    }
    assert Light + link == map[Font := Opaque(1), Link := Url(href)];
  }

  const EmojiStyle: StyleSheet := map["t" := map[Named("foregroundColor") := Opaque(3)]]
  const EmojiChildren := [Text("⚠ Text with "), Tag("t", map[], [Text("emoji")])]

  /** The character data of `⚠ Text with <t>emoji</t>`: twelve characters, then `emoji`. */
  lemma EmojiText()
    ensures ForestText(EmojiChildren) == "⚠ Text with " + "emoji"
    ensures |"⚠ Text with "| == 12
  {
    assert ForestText(EmojiChildren[1..]) == "emoji";
  }

  /** The only span inside the body is the `t` span, `[12, 17)`. */
  lemma EmojiSpans(isURL: string -> bool)
    ensures ForestSpans(EmojiStyle, isURL, EmojiChildren, 0) == [Span(12, 17, EmojiStyle["t"])]
  {
    var tagged := EmojiChildren[1];
    assert ElementBundle(EmojiStyle, isURL, "t", map[]) == EmojiStyle["t"];
    assert NodeSpans(EmojiStyle, isURL, tagged, 12) == [Span(12, 17, EmojiStyle["t"])] by {
      assert ForestSpans(EmojiStyle, isURL, [Text("emoji")], 12) == [];
    }
    assert ForestSpans(EmojiStyle, isURL, EmojiChildren[1..], 12) == NodeSpans(EmojiStyle, isURL, tagged, 12) + [];
  }

  /**
   * Offsets count characters, not code units: in `⚠ Text with <t>emoji</t>`
   * the `t` span covers exactly `emoji`.
   */
  lemma CharacterOffsetsScenario(isURL: string -> bool)
    ensures var last := Run(EmojiStyle, isURL, Initial, NodeEvents(Tag("body", map[], EmojiChildren)));
      && |last.spans| == 2
      && last.spans[0].start <= last.spans[0].end <= |last.text|
      && last.text[last.spans[0].start..last.spans[0].end] == "emoji"
  {
    BodyRun(EmojiStyle, isURL, EmojiChildren);
    EmojiText();
    EmojiSpans(isURL);
    var text := "⚠ Text with " + "emoji";
    assert text[12..17] == "emoji";
  }
}
