/**
 * The tag-stack parser (`Parser` and its `XMLParserDelegate` callbacks).
 *
 * `XMLParser` itself is not modelled: what it reports to the delegate is an
 * input, a sequence of events. `Step` and `Run` give the meaning of the
 * callbacks as functions on a parser state; the `Parser` class performs
 * them in place, and each of its methods is proved to agree with `Step`.
 */
module Parsing {
  import opened Optional
  import opened Styles
  import opened Composition
  import opened Preprocessing

  /** A delegate callback made by `XMLParser`. */
  datatype Event =
    | Start(name: string, attributes: map<string, string>)  // didStartElement
    | Chars(chars: string)                                  // foundCharacters
    | End(name: string)                                     // didEndElement
    | Error                                                 // parseErrorOccurred

  /** An open element: its tag, the text length when it opened, and its resolved bundle. */
  datatype Element = Element(name: string, startOffset: nat, attributes: Bundle)

  /** The fields the callbacks update: `text`, `elements`, `attributes` (the spans) and whether `parseError` is set. */
  datatype ParserState = ParserState(text: string, elements: seq<Element>, spans: seq<Span>, failed: bool)

  const Initial := ParserState("", [], [], false)

  /**
   * The code the converter calls but does not contain: the `href` groups
   * found by the regular expression, the `URLComponents` rewrite, whether
   * `URL(string:)` accepts a string, and the events `XMLParser` reports for
   * a document.
   */
  datatype Foundation = Foundation(
    hrefGroups: string -> seq<Group>,
    rewriteURL: string -> Option<string>,
    isURL: string -> bool,
    events: string -> seq<Event>)
  {
    /** Regex groups always lie within the string they were found in, in order. */
    ghost predicate Valid()
    {
      forall t :: Placed(hrefGroups(t), |t|)
    }
  }

  /**
   * The state invariant: every open element started within the text, the
   * open elements' offsets grow from the bottom of the stack to the top,
   * and every recorded span lies within the text.
   */
  ghost predicate WellFormed(st: ParserState)
  {
    && (forall i :: 0 <= i < |st.elements| ==> st.elements[i].startOffset <= |st.text|)
    && (forall i, j :: 0 <= i < j < |st.elements| ==> st.elements[i].startOffset <= st.elements[j].startOffset)
    && SpansWithin(st.spans, |st.text|)
  }

  /** What one callback does to the parser state. */
  function Step(style: StyleSheet, isURL: string -> bool, st: ParserState, event: Event): ParserState
  {
    match event
    case Start(name, attributes) =>
      st.(elements := st.elements + [Element(name, |st.text|, ElementBundle(style, isURL, name, attributes))])
    case Chars(chars) =>
      st.(text := st.text + chars)
    case End(name) =>
      if st.elements == [] then st
      else
        var top := st.elements[|st.elements| - 1];
        var rest := st.elements[..|st.elements| - 1];
        if top.name != name then st.(elements := rest)
        else st.(elements := rest, spans := st.spans + [Span(top.startOffset, |st.text|, top.attributes)])
    case Error =>
      st.(failed := true)
  }

  /** The callbacks for a whole event sequence, in order. */
  function Run(style: StyleSheet, isURL: string -> bool, st: ParserState, events: seq<Event>): ParserState
    decreases |events|
  {
    if events == [] then st else Run(style, isURL, Step(style, isURL, st, events[0]), events[1..])
  }

  /**
   * Each callback keeps the invariant, and the text only grows: the old
   * text is a prefix of the new one, and recorded spans are never dropped.
   */
  lemma StepKeepsWellFormed(style: StyleSheet, isURL: string -> bool, st: ParserState, event: Event)
    requires WellFormed(st)
    ensures var next := Step(style, isURL, st, event);
      && WellFormed(next)
      && st.text <= next.text
      && st.spans <= next.spans
      && (st.failed ==> next.failed)
  {
  }

  lemma {:induction false} RunAppend(style: StyleSheet, isURL: string -> bool, st: ParserState, a: seq<Event>, b: seq<Event>)
    ensures Run(style, isURL, st, a + b) == Run(style, isURL, Run(style, isURL, st, a), b)
    decreases |a|
  {
    if a == [] {
      assert a + b == b;
    } else {
      assert (a + b)[0] == a[0] && (a + b)[1..] == a[1..] + b;
      RunAppend(style, isURL, Step(style, isURL, st, a[0]), a[1..], b);
    }
  }

  /**
   * Over any event sequence the invariant holds, offsets only grow (the old
   * text is a prefix of the new), spans are only appended, and an error
   * once reported stays reported.
   */
  lemma {:induction false} RunKeepsWellFormed(style: StyleSheet, isURL: string -> bool, st: ParserState, events: seq<Event>)
    requires WellFormed(st)
    ensures var last := Run(style, isURL, st, events);
      && WellFormed(last)
      && st.text <= last.text
      && st.spans <= last.spans
      && (st.failed ==> last.failed)
    decreases |events|
  {
    if events != [] {
      StepKeepsWellFormed(style, isURL, st, events[0]);
      RunKeepsWellFormed(style, isURL, Step(style, isURL, st, events[0]), events[1..]);
    }
  }

  /** The parse has failed exactly when an error was reported before or during the events. */
  lemma {:induction false} RunFailed(style: StyleSheet, isURL: string -> bool, st: ParserState, events: seq<Event>)
    ensures Run(style, isURL, st, events).failed <==> st.failed || Error in events
    decreases |events|
  {
    if events != [] {
      RunFailed(style, isURL, Step(style, isURL, st, events[0]), events[1..]);
      assert events == [events[0]] + events[1..];
    }
  }

  /** The parser state after `XMLParser` has reported every event of the preprocessed input. */
  function Parsed(style: StyleSheet, foundation: Foundation, input: string): ParserState
    requires foundation.Valid()
  {
    Run(style, foundation.isURL, Initial, foundation.events(Wrapped(input, foundation.hrefGroups, foundation.rewriteURL)))
  }

  /** `Parser`: the `XMLParserDelegate` that turns events into plain text and spans. */
  class Parser {
    const style: StyleSheet
    const foundation: Foundation
    var text: string
    var elements: seq<Element>
    /** `attributes` in the source: the recorded `(range, attributes)` pairs, in the order their tags closed. */
    var spans: seq<Span>
    /** Whether `parseError` has been set. */
    var failed: bool

    function State(): ParserState
      reads this
    {
      ParserState(text, elements, spans, failed)
    }

    ghost predicate Valid()
      reads this
    {
      WellFormed(State()) && foundation.Valid()
    }

    constructor (style: StyleSheet, foundation: Foundation)
      requires foundation.Valid()
      ensures this.style == style && this.foundation == foundation
      ensures State() == Initial && Valid()
    {
      this.style := style;
      this.foundation := foundation;
      text, elements, spans, failed := "", [], [], false;
    }

    /**
     * `didStartElement`: pushes exactly one element, opened at the current
     * character count with the resolved bundle.
     */
    method DidStartElement(name: string, attributes: map<string, string>)
      requires Valid()
      modifies this
      ensures Valid()
      ensures elements == old(elements) + [Element(name, |text|, ElementBundle(style, foundation.isURL, name, attributes))]
      ensures text == old(text) && spans == old(spans) && failed == old(failed)
      ensures State() == Step(style, foundation.isURL, old(State()), Start(name, attributes))
    {
      var bundle := ElementBundle(style, foundation.isURL, name, attributes);
      var element := Element(name, |text|, bundle);
      elements := elements + [element];
    }

    /**
     * `didEndElement`: pops the top element and, when its name matches,
     * records the span from its start to the current character count. With
     * assertions off, an empty stack changes nothing and a mismatched name
     * still pops the element but records no span.
     */
    method DidEndElement(name: string)
      requires Valid()
      modifies this
      ensures Valid()
      ensures text == old(text) && failed == old(failed)
      ensures old(elements) == [] ==> elements == [] && spans == old(spans)
      ensures old(elements) != [] ==> elements == old(elements)[..|old(elements)| - 1]
      ensures old(elements) != [] ==>
        var top := old(elements)[|old(elements)| - 1];
        spans == if top.name == name then old(spans) + [Span(top.startOffset, |text|, top.attributes)] else old(spans)
      ensures State() == Step(style, foundation.isURL, old(State()), End(name))
    {
      if elements == [] {
        return;
      }
      var element := elements[|elements| - 1];
      elements := elements[..|elements| - 1];
      if element.name != name {
        return;
      }
      var range := Span(element.startOffset, |text|, element.attributes);
      spans := spans + [range];
    }

    /** `foundCharacters`: appends the characters verbatim. */
    method FoundCharacters(chars: string)
      requires Valid()
      modifies this
      ensures Valid()
      ensures text == old(text) + chars
      ensures elements == old(elements) && spans == old(spans) && failed == old(failed)
      ensures State() == Step(style, foundation.isURL, old(State()), Chars(chars))
    {
      text := text + chars;
    }

    /** `parseErrorOccurred`: remembers that the parse failed. */
    method ParseErrorOccurred()
      requires Valid()
      modifies this
      ensures Valid()
      ensures failed
      ensures text == old(text) && elements == old(elements) && spans == old(spans)
      ensures State() == Step(style, foundation.isURL, old(State()), Error)
    {
      failed := true;
    }

    /** `XMLParser.parse()` driving the delegate: each event is handed to its callback in order. */
    method Deliver(events: seq<Event>)
      requires Valid()
      modifies this
      ensures Valid()
      ensures State() == Run(style, foundation.isURL, old(State()), events)
    {
      for i := 0 to |events|
        invariant Valid()
        invariant State() == Run(style, foundation.isURL, old(State()), events[..i])
      {
        RunAppend(style, foundation.isURL, old(State()), events[..i], [events[i]]);
        assert events[..i + 1] == events[..i] + [events[i]];
        match events[i] {
          case Start(name, attributes) => DidStartElement(name, attributes);
          case Chars(chars) => FoundCharacters(chars);
          case End(name) => DidEndElement(name);
          case Error => ParseErrorOccurred();
        }
      }
      assert events[..|events|] == events;
    }

    /**
     * `parse`: preprocesses the input, lets `XMLParser` deliver the
     * document's events, and fails (`None`, the thrown error) when an error
     * was reported; otherwise composes the styled text.
     */
    method Parse(input: string) returns (r: Option<StyledText>)
      requires Valid() && State() == Initial
      modifies this
      ensures State() == Parsed(style, foundation, input)
      ensures r.None? <==> failed
      ensures r.Some? ==> r.value == StyledText(text, Composed(|text|, spans))
    {
      var document := Preprocess(input, foundation.hrefGroups, foundation.rewriteURL);
      Deliver(foundation.events(document));
      if failed {
        return None;
      }
      var output := MakeAttributedString(text, spans);
      return Some(output);
    }
  }
}
