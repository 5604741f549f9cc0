/**
 * The compositor (`makeAttributedString`): spans are applied to the plain
 * text in reverse of the order they were recorded, each one merging its
 * bundle key by key into the characters it covers. A span recorded earlier
 * (an inner tag, which closes first) is applied later and so wins.
 *
 * The styled output is modelled as one attribute bundle per character,
 * which is what `NSMutableAttributedString.addAttributes` maintains.
 */
module Composition {
  import opened Styles

  /** A recorded `(NSRange, attributes)` pair: the half-open character range `[start, end)`. */
  datatype Span = Span(start: nat, end: nat, attributes: Bundle)

  /** The final styled text: the plain text and the attributes of each character. */
  datatype StyledText = StyledText(text: string, attributes: seq<Bundle>)

  predicate Covers(span: Span, i: int)
  {
    span.start <= i < span.end
  }

  /** Every span lies within a text of `length` characters. */
  predicate SpansWithin(spans: seq<Span>, length: nat)
  {
    forall j :: 0 <= j < |spans| ==> spans[j].start <= spans[j].end <= length
  }

  /**
   * The attributes at position `i` once `spans` are applied from the last
   * to the first: the later spans lay down their bundles first and the
   * first span merges over them.
   */
  function AttributesAt(spans: seq<Span>, i: int): Bundle
    decreases |spans|
  {
    if spans == [] then map[]
    else
      var under := AttributesAt(spans[1..], i);
      if Covers(spans[0], i) then under + spans[0].attributes else under
  }

  /** The attributes of every character of a text of `length` characters. */
  function Composed(length: nat, spans: seq<Span>): (r: seq<Bundle>)
    ensures |r| == length
    ensures forall i :: 0 <= i < length ==> r[i] == AttributesAt(spans, i)
  {
    seq(length, i => AttributesAt(spans, i))
  }

  /** A character has a key exactly when some span covering it has that key. */
  lemma {:induction false} KeyPresent(spans: seq<Span>, i: int, k: Key)
    ensures k in AttributesAt(spans, i) <==> exists j :: 0 <= j < |spans| && Covers(spans[j], i) && k in spans[j].attributes
    decreases |spans|
  {
    if spans != [] {
      KeyPresent(spans[1..], i, k);
      if exists j :: 0 <= j < |spans| && Covers(spans[j], i) && k in spans[j].attributes {
        var j :| 0 <= j < |spans| && Covers(spans[j], i) && k in spans[j].attributes;
        if j > 0 {
          assert spans[1..][j - 1] == spans[j];
        }
      }
      if exists j :: 0 <= j < |spans[1..]| && Covers(spans[1..][j], i) && k in spans[1..][j].attributes {
        var j :| 0 <= j < |spans[1..]| && Covers(spans[1..][j], i) && k in spans[1..][j].attributes;
        assert spans[j + 1] == spans[1..][j];
      }
    }
  }

  /**
   * Inner spans win: the value of a key at a character is the one given by
   * the first-recorded span that covers the character and has the key;
   * spans recorded after it (outer tags) cannot override it.
   */
  lemma {:induction false} FirstCoveringSpanWins(spans: seq<Span>, i: int, k: Key, j: nat)
    requires j < |spans| && Covers(spans[j], i) && k in spans[j].attributes
    requires forall j' :: 0 <= j' < j && Covers(spans[j'], i) ==> k !in spans[j'].attributes
    ensures k in AttributesAt(spans, i) && AttributesAt(spans, i)[k] == spans[j].attributes[k]
    decreases |spans|
  {
    if j == 0 {
      assert AttributesAt(spans, i) == AttributesAt(spans[1..], i) + spans[0].attributes;
    } else {
      forall j' | 0 <= j' < j - 1 && Covers(spans[1..][j'], i) ensures k !in spans[1..][j'].attributes {
        assert spans[1..][j'] == spans[j' + 1];
      }
      FirstCoveringSpanWins(spans[1..], i, k, j - 1);
    }
  }

  /**
   * A span recorded last (the outermost tag) gives every character it covers
   * all of its keys, and its own value for each key that no earlier span
   * covering the character sets.
   */
  lemma OutermostDefault(inner: seq<Span>, outer: Span, i: int, k: Key)
    requires Covers(outer, i) && k in outer.attributes
    ensures k in AttributesAt(inner + [outer], i)
    ensures (forall j :: 0 <= j < |inner| && Covers(inner[j], i) ==> k !in inner[j].attributes)
            ==> AttributesAt(inner + [outer], i)[k] == outer.attributes[k]
  {
    var spans := inner + [outer];
    assert spans[|inner|] == outer;
    KeyPresent(spans, i, k);
    if forall j :: 0 <= j < |inner| && Covers(inner[j], i) ==> k !in inner[j].attributes {
      forall j | 0 <= j < |inner| && Covers(spans[j], i) ensures k !in spans[j].attributes {
        assert spans[j] == inner[j];
      }
      FirstCoveringSpanWins(spans, i, k, |inner|);
    }
  }

  /** Adds `bundle` to the characters in `[lo, hi)`, overwriting keys they already have (`addAttributes`). */
  method AddAttributes(output: array<Bundle>, bundle: Bundle, lo: nat, hi: nat)
    requires lo <= hi <= output.Length
    modifies output
    ensures forall i :: 0 <= i < output.Length ==>
      output[i] == if lo <= i < hi then old(output[i]) + bundle else old(output[i])
  {
    for i := lo to hi
      invariant forall m :: 0 <= m < output.Length ==>
        output[m] == if lo <= m < i then old(output[m]) + bundle else old(output[m])
    {
      output[i] := output[i] + bundle;
    }
  }

  /**
   * `makeAttributedString`: applies the spans in reverse to the text and
   * gives the attributes of every character.
   */
  method MakeAttributedString(text: string, spans: seq<Span>) returns (r: StyledText)
    requires SpansWithin(spans, |text|)
    ensures r.text == text
    ensures |r.attributes| == |text|
    ensures forall i :: 0 <= i < |text| ==> r.attributes[i] == AttributesAt(spans, i)
  {
    var output := new Bundle[|text|](_ => map[]);
    var n := |spans|;
    for k := 0 to n
      invariant forall i :: 0 <= i < output.Length ==> output[i] == AttributesAt(spans[n - k..], i)
    {
      var span := spans[n - 1 - k];
      assert spans[n - 1 - k..][1..] == spans[n - k..];
      AddAttributes(output, span.attributes, span.start, span.end);
    }
    assert spans[n - n..] == spans;
    r := StyledText(text, output[..]);
  }
}
