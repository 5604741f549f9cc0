/**
 * Well-formed documents. A document that `XMLParser` accepts is a tree of
 * tags and character data, and the events it reports are the tree's
 * start tags, character data and end tags in document order. For such
 * event sequences the stack machine's result is given here directly by the
 * tree: the text is the concatenated character data, and each tag
 * contributes one span over its own text, recorded after the spans of the
 * tags inside it.
 */
module Documents {
  import opened Styles
  import opened Composition
  import opened Parsing
  import Preprocessing

  datatype Node = Tag(name: string, attributes: map<string, string>, children: seq<Node>) | Text(chars: string)

  function NodeEvents(n: Node): seq<Event>
    decreases n
  {
    match n
    case Text(chars) => [Chars(chars)]
    case Tag(name, attributes, children) => [Start(name, attributes)] + ForestEvents(children) + [End(name)]
  }

  function ForestEvents(nodes: seq<Node>): seq<Event>
    decreases nodes
  {
    if nodes == [] then [] else NodeEvents(nodes[0]) + ForestEvents(nodes[1..])
  }

  function NodeText(n: Node): string
    decreases n
  {
    match n
    case Text(chars) => chars
    case Tag(_, _, children) => ForestText(children)
  }

  function ForestText(nodes: seq<Node>): string
    decreases nodes
  {
    if nodes == [] then [] else NodeText(nodes[0]) + ForestText(nodes[1..])
  }

  /** The spans of a tree whose text starts at `offset`: those of its children, then its own. */
  function NodeSpans(style: StyleSheet, isURL: string -> bool, n: Node, offset: nat): seq<Span>
    decreases n
  {
    match n
    case Text(_) => []
    case Tag(name, attributes, children) =>
      ForestSpans(style, isURL, children, offset)
      + [Span(offset, offset + |ForestText(children)|, ElementBundle(style, isURL, name, attributes))]
  }

  function ForestSpans(style: StyleSheet, isURL: string -> bool, nodes: seq<Node>, offset: nat): seq<Span>
    decreases nodes
  {
    if nodes == [] then []
    else NodeSpans(style, isURL, nodes[0], offset) + ForestSpans(style, isURL, nodes[1..], offset + |NodeText(nodes[0])|)
  }

  /**
   * Running a tree's events appends its text and its spans and leaves the
   * stack of open elements (and the error flag) as it was.
   */
  lemma {:induction false} RunNode(style: StyleSheet, isURL: string -> bool, st: ParserState, n: Node)
    ensures Run(style, isURL, st, NodeEvents(n))
         == st.(text := st.text + NodeText(n), spans := st.spans + NodeSpans(style, isURL, n, |st.text|))
    decreases n
  {
    match n
    case Text(chars) =>
      assert Run(style, isURL, st, NodeEvents(n)) == Run(style, isURL, Step(style, isURL, st, Chars(chars)), []);
    case Tag(name, attributes, children) =>
      var open := Start(name, attributes);
      var inner := ForestEvents(children);
      var element := Element(name, |st.text|, ElementBundle(style, isURL, name, attributes));
      var st1 := Step(style, isURL, st, open);
      assert st1 == st.(elements := st.elements + [element]);
      assert Run(style, isURL, st, [open]) == st1 by {
        assert [open][1..] == [];
      }
      RunForest(style, isURL, st1, children);
      var st2 := Run(style, isURL, st1, inner);
      assert st2.elements == st.elements + [element];
      assert Run(style, isURL, st2, [End(name)]) == Step(style, isURL, st2, End(name)) by {
        assert [End(name)][1..] == [];
      }
      assert (st.elements + [element])[..|st.elements|] == st.elements;
      RunAppend(style, isURL, st, [open], inner);
      RunAppend(style, isURL, st, [open] + inner, [End(name)]);
  }

  lemma {:induction false} RunForest(style: StyleSheet, isURL: string -> bool, st: ParserState, nodes: seq<Node>)
    ensures Run(style, isURL, st, ForestEvents(nodes))
         == st.(text := st.text + ForestText(nodes), spans := st.spans + ForestSpans(style, isURL, nodes, |st.text|))
    decreases nodes
  {
    if nodes == [] {
      assert st.text + [] == st.text && st.spans + [] == st.spans;
    } else {
      var first, rest := nodes[0], nodes[1..];
      var st1 := st.(text := st.text + NodeText(first), spans := st.spans + NodeSpans(style, isURL, first, |st.text|));
      assert Run(style, isURL, st, ForestEvents(nodes)) == Run(style, isURL, st1, ForestEvents(rest)) by {
        RunNode(style, isURL, st, first);
        RunAppend(style, isURL, st, NodeEvents(first), ForestEvents(rest));
      }
      RunForest(style, isURL, st1, rest);
      assert st1.text + ForestText(rest) == st.text + ForestText(nodes) by {
        Preprocessing.Associative(st.text, NodeText(first), ForestText(rest));
      }
      assert st1.spans + ForestSpans(style, isURL, rest, |st1.text|) == st.spans + ForestSpans(style, isURL, nodes, |st.text|) by {
        Preprocessing.Associative(st.spans, NodeSpans(style, isURL, first, |st.text|), ForestSpans(style, isURL, rest, |st1.text|));
      }
    }
  }

  /** Every span of a tree whose text starts at `offset` lies within that text. */
  ghost predicate SpansBetween(spans: seq<Span>, lo: nat, hi: nat)
  {
    forall j :: 0 <= j < |spans| ==> lo <= spans[j].start <= spans[j].end <= hi
  }

  /**
   * Inner spans come first: of two recorded spans, the later one either
   * lies wholly after the earlier one or contains it. Spans are therefore
   * properly nested, and the one recorded first at a character is the
   * innermost tag there.
   */
  ghost predicate InnerFirst(spans: seq<Span>)
  {
    forall i, j :: 0 <= i < j < |spans| ==>
      spans[i].end <= spans[j].start || (spans[j].start <= spans[i].start && spans[i].end <= spans[j].end)
  }

  /**
   * Of two recorded spans that cover the same character, the later one
   * contains the earlier: the first span to cover a character is the
   * innermost tag there.
   */
  lemma FirstIsInnermost(spans: seq<Span>, i: nat, j: nat, c: int)
    requires InnerFirst(spans) && i < j < |spans|
    requires Covers(spans[i], c) && Covers(spans[j], c)
    ensures spans[j].start <= spans[i].start && spans[i].end <= spans[j].end
  {
  }

  lemma InnerFirstAppend(a: seq<Span>, b: seq<Span>, lo: nat, mid: nat, hi: nat)
    requires InnerFirst(a) && InnerFirst(b)
    requires lo <= mid <= hi
    requires SpansBetween(a, lo, mid) && SpansBetween(b, mid, hi)
    ensures InnerFirst(a + b) && SpansBetween(a + b, lo, hi)
  {
    forall i, j | 0 <= i < j < |a + b|
      ensures (a + b)[i].end <= (a + b)[j].start
           || ((a + b)[j].start <= (a + b)[i].start && (a + b)[i].end <= (a + b)[j].end)
    {
      if j < |a| {
        assert (a + b)[i] == a[i] && (a + b)[j] == a[j];
      } else if i >= |a| {
        assert (a + b)[i] == b[i - |a|] && (a + b)[j] == b[j - |a|];
      } else {
        assert (a + b)[i] == a[i] && (a + b)[j] == b[j - |a|];
      }
    }
  }

  lemma InnerFirstEnclose(a: seq<Span>, outer: Span)
    requires InnerFirst(a) && SpansBetween(a, outer.start, outer.end)
    ensures InnerFirst(a + [outer])
  {
    forall i, j | 0 <= i < j < |a + [outer]|
      ensures (a + [outer])[i].end <= (a + [outer])[j].start
           || ((a + [outer])[j].start <= (a + [outer])[i].start && (a + [outer])[i].end <= (a + [outer])[j].end)
    {
      assert (a + [outer])[i] == a[i];
      if j < |a| {
        assert (a + [outer])[j] == a[j];
      }
    }
  }

  lemma {:induction false} NodeSpansNested(style: StyleSheet, isURL: string -> bool, n: Node, offset: nat)
    ensures SpansBetween(NodeSpans(style, isURL, n, offset), offset, offset + |NodeText(n)|)
    ensures InnerFirst(NodeSpans(style, isURL, n, offset))
    decreases n
  {
    match n
    case Text(_) =>
    case Tag(name, attributes, children) =>
      ForestSpansNested(style, isURL, children, offset);
      var hi := offset + |ForestText(children)|;
      var own := Span(offset, hi, ElementBundle(style, isURL, name, attributes));
      InnerFirstEnclose(ForestSpans(style, isURL, children, offset), own);
  }

  lemma {:induction false} ForestSpansNested(style: StyleSheet, isURL: string -> bool, nodes: seq<Node>, offset: nat)
    ensures SpansBetween(ForestSpans(style, isURL, nodes, offset), offset, offset + |ForestText(nodes)|)
    ensures InnerFirst(ForestSpans(style, isURL, nodes, offset))
    decreases nodes
  {
    if nodes != [] {
      var first, rest := nodes[0], nodes[1..];
      var mid := offset + |NodeText(first)|;
      var hi := offset + |ForestText(nodes)|;
      var a := NodeSpans(style, isURL, first, offset);
      var b := ForestSpans(style, isURL, rest, mid);
      assert ForestSpans(style, isURL, nodes, offset) == a + b;
      assert hi == mid + |ForestText(rest)|;
      assert InnerFirst(a) && SpansBetween(a, offset, mid) by {
        NodeSpansNested(style, isURL, first, offset);
      }
      assert InnerFirst(b) && SpansBetween(b, mid, hi) by {
        ForestSpansNested(style, isURL, rest, mid);
      }
      InnerFirstAppend(a, b, offset, mid, hi);
    }
  }

  /**
   * The preprocessor wraps the input in `<body>`, so a well-formed parse
   * ends with no open element, no error, and its last span is `[0, |text|)`
   * with the `body` bundle.
   */
  lemma BodyRun(style: StyleSheet, isURL: string -> bool, children: seq<Node>)
    ensures Run(style, isURL, Initial, NodeEvents(Tag("body", map[], children)))
         == ParserState(ForestText(children), [],
              ForestSpans(style, isURL, children, 0) + [Span(0, |ForestText(children)|, FallbackBundle(style))], false)
  {
    RunNode(style, isURL, Initial, Tag("body", map[], children));
    BodyElementIsFallback(style, isURL);
  }

  /** The spans of a well-formed parse are properly nested with inner ones first, and lie within the text. */
  lemma BodyNested(style: StyleSheet, isURL: string -> bool, children: seq<Node>)
    ensures var last := Run(style, isURL, Initial, NodeEvents(Tag("body", map[], children)));
      InnerFirst(last.spans) && SpansWithin(last.spans, |last.text|)
  {
    RunNode(style, isURL, Initial, Tag("body", map[], children));
    NodeSpansNested(style, isURL, Tag("body", map[], children), 0);
  }
}
