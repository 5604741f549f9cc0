/**
 * The preprocessor (`Parser.preprocess`, `preprocessLinks`, `sanitizeURL`
 * and `Regex.replaceMatches`). It rewrites line-break tags to U+2028, escapes
 * `&` inside anchor `href` values, and wraps the text in `<body>…</body>`.
 *
 * The regular-expression engine is not modelled. The match groups of the
 * `href` pattern are an input, and the URL re-serialisation that
 * `sanitizeURL` performs with `URLComponents` is an opaque function.
 */
module Preprocessing {
  import opened Optional

  /** U+2028 LINE SEPARATOR: separates lines, not paragraphs. */
  const LineSeparator: char := '\U{2028}'

  /** The four written forms `<br ?/?>` matches. */
  predicate IsBreakTag(t: string)
  {
    t == "<br>" || t == "<br/>" || t == "<br >" || t == "<br />"
  }

  /**
   * The length of the match of `<br ?/?>` at the start of `s`, or 0 when
   * there is none. The pattern is case-sensitive.
   */
  function BreakTagLength(s: string): (n: nat)
    ensures n <= |s|
    ensures n > 0 ==> IsBreakTag(s[..n])
  {
    if |s| >= 4 && s[..4] == "<br>" then 4
    else if |s| >= 5 && (s[..5] == "<br/>" || s[..5] == "<br >") then 5
    else if |s| >= 6 && s[..6] == "<br />" then 6
    else 0
  }

  /** A string that starts with a line-break tag matches exactly that tag. */
  lemma BreakTagAt(s: string, tag: string)
    requires IsBreakTag(tag) && tag <= s
    ensures BreakTagLength(s) == |tag|
  {
    assert s[..|tag|] == tag;
    if tag == "<br>" {
      assert s[..4] == "<br>";
    } else if tag == "<br/>" {
      assert s[3] == '/' && s[..5] == "<br/>";
    } else if tag == "<br >" {
      assert s[3] == ' ' && s[..5] == "<br >";
    } else {
      assert s[3] == ' ' && s[4] == '/' && s[..6] == "<br />";
    }
  }

  /**
   * `replacingOccurrences(of: "<br ?/?>", with: "\u{2028}")`: matches are
   * found left to right and do not overlap. Each tag has at least four
   * characters and becomes one, so the text never grows.
   */
  function ReplaceLineBreaks(s: string): (r: string)
    ensures |r| <= |s|
    decreases |s|
  {
    if s == [] then []
    else
      var n := BreakTagLength(s);
      if n > 0 then [LineSeparator] + ReplaceLineBreaks(s[n..])
      else [s[0]] + ReplaceLineBreaks(s[1..])
  }

  /** No line-break tag starts at any position of `s`. */
  ghost predicate NoBreakTags(s: string)
  {
    forall i :: 0 <= i <= |s| ==> BreakTagLength(s[i..]) == 0
  }

  /**
   * Where the output starts with `p` characters that are neither `<` nor
   * the line separator, the input starts with the same characters.
   */
  lemma {:induction false} PlainPrefixComesFromInput(t: string, p: nat)
    requires p <= |ReplaceLineBreaks(t)|
    requires forall j :: 0 <= j < p ==> ReplaceLineBreaks(t)[j] != '<' && ReplaceLineBreaks(t)[j] != LineSeparator
    ensures p <= |t| && t[..p] == ReplaceLineBreaks(t)[..p]
  {
    if p > 0 {
      var r := ReplaceLineBreaks(t);
      assert t != [];
      assert r[0] != LineSeparator;
      assert r == [t[0]] + ReplaceLineBreaks(t[1..]);
      forall j | 0 <= j < p - 1
        ensures ReplaceLineBreaks(t[1..])[j] != '<' && ReplaceLineBreaks(t[1..])[j] != LineSeparator
      {
        assert ReplaceLineBreaks(t[1..])[j] == r[j + 1];
      }
      PlainPrefixComesFromInput(t[1..], p - 1);
      assert t[..p] == [t[0]] + t[1..][..p - 1];
      assert r[..p] == [t[0]] + ReplaceLineBreaks(t[1..])[..p - 1];
    }
  }

  /** After its `<`, a line-break tag has no `<` and no line separator. */
  lemma BreakTagPlainAfterOpen(tag: string)
    requires IsBreakTag(tag)
    ensures |tag| >= 4 && tag[0] == '<'
    ensures forall j :: 1 <= j < |tag| ==> tag[j] != '<' && tag[j] != LineSeparator
  {
    if tag == "<br>" {
    } else if tag == "<br/>" {
    } else if tag == "<br >" {
    } else {
      assert tag == "<br />";
    }
  }

  /** When no tag starts the input, none starts the output either. */
  lemma NoBreakTagAtFront(s: string)
    requires s != [] && BreakTagLength(s) == 0
    ensures BreakTagLength(ReplaceLineBreaks(s)) == 0
  {
    var r := ReplaceLineBreaks(s);
    var tail := ReplaceLineBreaks(s[1..]);
    assert r == [s[0]] + tail;
    var m := BreakTagLength(r);
    if m > 0 {
      // The tag's characters after `<` are all plain, so they are copied from the input.
      var tag := r[..m];
      assert s[..m] == tag by {
        BreakTagPlainAfterOpen(tag);
        assert tag == [s[0]] + tail[..m - 1];
        forall j | 0 <= j < m - 1 ensures tail[j] != '<' && tail[j] != LineSeparator {
          assert tail[j] == tag[j + 1];
        }
        PlainPrefixComesFromInput(s[1..], m - 1);
        assert s[..m] == [s[0]] + s[1..][..m - 1];
      }
      BreakTagAt(s, tag);
      assert false;
    }
  }

  /** Every line-break tag is replaced: none is left in the output, not even one formed across a replacement. */
  lemma {:induction false} ReplaceLineBreaksLeavesNone(s: string)
    ensures NoBreakTags(ReplaceLineBreaks(s))
    decreases |s|
  {
    var r := ReplaceLineBreaks(s);
    if s == [] {
      assert BreakTagLength(r[0..]) == 0;
    } else {
      var n := BreakTagLength(s);
      var rest := if n > 0 then s[n..] else s[1..];
      ReplaceLineBreaksLeavesNone(rest);
      var tail := ReplaceLineBreaks(rest);
      assert r == [r[0]] + tail;
      forall i | 0 <= i <= |r| ensures BreakTagLength(r[i..]) == 0 {
        if i > 0 {
          assert r[i..] == tail[i - 1..];
        } else if n == 0 {
          NoBreakTagAtFront(s);
        }
      }
    }
  }

  /** Text without line-break tags passes through unchanged. */
  lemma {:induction false} ReplaceLineBreaksIdentity(s: string)
    requires NoBreakTags(s)
    ensures ReplaceLineBreaks(s) == s
    decreases |s|
  {
    if s != [] {
      assert BreakTagLength(s[0..]) == 0;
      assert s[0..] == s;
      assert NoBreakTags(s[1..]) by {
        forall i | 0 <= i <= |s[1..]| ensures BreakTagLength(s[1..][i..]) == 0 {
          assert s[1..][i..] == s[i + 1..];
        }
      }
      ReplaceLineBreaksIdentity(s[1..]);
    }
  }

  /** Replacing line breaks twice is the same as once. */
  lemma ReplaceLineBreaksIdempotent(s: string)
    ensures ReplaceLineBreaks(ReplaceLineBreaks(s)) == ReplaceLineBreaks(s)
  {
    ReplaceLineBreaksLeavesNone(s);
    ReplaceLineBreaksIdentity(ReplaceLineBreaks(s));
  }

  /** A match at the front of `x` is still the match there when text follows. */
  lemma FrontMatchSurvives(x: string, rest: string)
    requires BreakTagLength(x) > 0
    ensures BreakTagLength(x + rest) == BreakTagLength(x)
  {
    var n := BreakTagLength(x);
    assert (x + rest)[..n] == x[..n];
    BreakTagAt(x + rest, x[..n]);
  }

  /** A match never reaches past a `<` that follows its first character. */
  lemma MatchStopsAtOpen(s: string, p: nat)
    requires 1 <= p < |s| && s[p] == '<'
    ensures BreakTagLength(s) <= p
  {
    var m := BreakTagLength(s);
    if m > p {
      BreakTagPlainAfterOpen(s[..m]);
    }
  }

  /**
   * A non-empty `x` with no match at its front gains none when a
   * line-break tag follows it: a match reaching into the tag would contain
   * the tag's `<` after its own first character.
   */
  lemma NoFrontMatchBeforeTag(x: string, tag: string, y: string)
    requires x != [] && BreakTagLength(x) == 0 && IsBreakTag(tag)
    ensures BreakTagLength(x + tag + y) == 0
  {
    var s := x + tag + y;
    BreakTagPlainAfterOpen(tag);
    assert s[|x|] == tag[0];
    MatchStopsAtOpen(s, |x|);
    var m := BreakTagLength(s);
    if m > 0 {
      assert s[..m] == x[..m];
      BreakTagAt(x, s[..m]);
      assert false;
    }
  }

  /**
   * The first step of the rewrite of `x + tag + y` is the first step of
   * the rewrite of `x`: the same output `head`, the same `k` characters
   * consumed.
   */
  lemma FrontRewrite(x: string, tag: string, y: string, k: nat, head: string)
    requires x != [] && IsBreakTag(tag)
    requires k == if BreakTagLength(x) > 0 then BreakTagLength(x) else 1
    requires head == if BreakTagLength(x) > 0 then [LineSeparator] else [x[0]]
    ensures k <= |x|
    ensures ReplaceLineBreaks(x) == head + ReplaceLineBreaks(x[k..])
    ensures ReplaceLineBreaks(x + tag + y) == head + ReplaceLineBreaks(x[k..] + tag + y)
  {
    var s := x + tag + y;
    assert s == x + (tag + y) by { Associative(x, tag, y); }
    if BreakTagLength(x) > 0 {
      FrontMatchSurvives(x, tag + y);
    } else {
      NoFrontMatchBeforeTag(x, tag, y);
      assert s[0] == x[0];
    }
    assert s[k..] == x[k..] + tag + y by {
      DropFront(x, tag + y, k);
      Associative(x[k..], tag, y);
    }
  }

  /** A line-break tag at the front becomes one separator. */
  lemma TagFirst(tag: string, y: string)
    requires IsBreakTag(tag)
    ensures ReplaceLineBreaks(tag + y) == [LineSeparator] + ReplaceLineBreaks(y)
  {
    var s := tag + y;
    assert s[..|tag|] == tag;
    BreakTagAt(s, tag);
    assert s[|tag|..] == y;
  }

  /**
   * Each line-break tag becomes one separator wherever it stands: the text
   * before it and the text after it are rewritten on their own.
   */
  lemma {:induction false} LineBreakInContext(x: string, tag: string, y: string)
    requires IsBreakTag(tag)
    ensures ReplaceLineBreaks(x + tag + y) == ReplaceLineBreaks(x) + [LineSeparator] + ReplaceLineBreaks(y)
    decreases |x|
  {
    if x == [] {
      assert x + tag + y == tag + y;
      TagFirst(tag, y);
    } else {
      var n := BreakTagLength(x);
      var k := if n > 0 then n else 1;
      var head := if n > 0 then [LineSeparator] else [x[0]];
      FrontRewrite(x, tag, y, k, head);
      LineBreakInContext(x[k..], tag, y);
      Regroup(head, ReplaceLineBreaks(x[k..]), ReplaceLineBreaks(y),
        ReplaceLineBreaks(x), ReplaceLineBreaks(x + tag + y), ReplaceLineBreaks(x[k..] + tag + y));
    }
  }

  lemma Associative<T>(a: seq<T>, b: seq<T>, c: seq<T>)
    ensures a + (b + c) == a + b + c
  {
  }

  /** Both sides of a break start with the same `head` and continue with the rest of their rewrites. */
  lemma Regroup(head: string, before: string, after: string, whole: string, joined: string, rest: string)
    requires whole == head + before
    requires joined == head + rest
    requires rest == before + [LineSeparator] + after
    ensures joined == whole + [LineSeparator] + after
  {
  }

  lemma DropFront<T>(a: seq<T>, b: seq<T>, k: nat)
    requires k <= |a|
    ensures (a + b)[k..] == a[k..] + b
  {
  }

  /** All written forms of a line break give the same single separator: `a<br>b` becomes `a\u{2028}b`. */
  lemma LineBreakForms(tag: string)
    requires IsBreakTag(tag)
    ensures ReplaceLineBreaks("a" + tag + "b") == "a\U{2028}b"
  {
    LineBreakInContext("a", tag, "b");
    Unbroken('a');
    Unbroken('b');
  }

  /** A single character is never a line-break tag. */
  lemma Unbroken(c: char)
    ensures ReplaceLineBreaks([c]) == [c]
  {
    assert [c][1..] == [];
  }

  // ---------------------------------------------------------------------
  // Regex.replaceMatches

  /** A capture group: the half-open character range `[start, end)` of the string it was found in. */
  datatype Group = Group(start: nat, end: nat)

  /**
   * What the regular-expression engine guarantees of the groups it hands to
   * `replaceMatches`: they come in order without overlapping, and the last
   * ends by `limit` (for groups of a string `s`, `limit` is `|s|`).
   */
  predicate Placed(groups: seq<Group>, limit: nat)
  {
    PlacedFirst(groups, |groups|, limit)
  }

  /** The first `n` groups are in order, without overlapping, and end by `limit`. */
  predicate PlacedFirst(groups: seq<Group>, n: nat, limit: nat)
    requires n <= |groups|
  {
    n == 0 ||
      (groups[n - 1].start <= groups[n - 1].end <= limit && PlacedFirst(groups, n - 1, groups[n - 1].start))
  }

  /**
   * Every group among the first `n` lies within the limit, and the groups
   * before it end where it starts.
   */
  lemma {:induction false} PlacedTake(groups: seq<Group>, n: nat, limit: nat, k: nat)
    requires n <= |groups| && PlacedFirst(groups, n, limit) && k < n
    ensures groups[k].start <= groups[k].end <= limit && PlacedFirst(groups, k, groups[k].start)
    decreases n
  {
    if k < n - 1 {
      PlacedTake(groups, n - 1, groups[n - 1].start, k);
    }
  }

  /** What a group becomes: the transform's result, or the group's own text when the transform returns nil. */
  function Replacement(s: string, g: Group, transform: string -> Option<string>): string
    requires g.start <= g.end <= |s|
  {
    match transform(s[g.start..g.end])
    case Some(r) => r
    case None => s[g.start..g.end]
  }

  /**
   * The reference result of `replaceMatches` after its first `n` groups, in
   * the coordinates of the original string: the rewritten text of
   * `s[..limit]` is that of the text before group `n - 1`, then that group's
   * replacement, then the original text after it.
   */
  function Spliced(s: string, groups: seq<Group>, n: nat, limit: nat, transform: string -> Option<string>): string
    requires n <= |groups| && PlacedFirst(groups, n, limit) && limit <= |s|
    decreases n
  {
    if n == 0 then s[..limit]
    else
      var g := groups[n - 1];
      Spliced(s, groups, n - 1, g.start, transform) + Replacement(s, g, transform) + s[g.end..limit]
  }

  /** The running `offset`: how much the first `n` replacements have changed the length. */
  function Shift(s: string, groups: seq<Group>, n: nat, limit: nat, transform: string -> Option<string>): int
    requires n <= |groups| && PlacedFirst(groups, n, limit) && limit <= |s|
    decreases n
  {
    if n == 0 then 0
    else
      var g := groups[n - 1];
      Shift(s, groups, n - 1, g.start, transform) + |Replacement(s, g, transform)| - (g.end - g.start)
  }

  /** The rewritten text is as long as the original plus the shift. */
  lemma {:induction false} SplicedLength(s: string, groups: seq<Group>, n: nat, limit: nat, transform: string -> Option<string>)
    requires n <= |groups| && PlacedFirst(groups, n, limit) && limit <= |s|
    ensures |Spliced(s, groups, n, limit, transform)| == limit + Shift(s, groups, n, limit, transform)
    decreases n
  {
    if n > 0 {
      SplicedLength(s, groups, n - 1, groups[n - 1].start, transform);
    }
  }

  /** Rewriting further into the untouched tail only appends the original text. */
  lemma SplicedWiden(s: string, groups: seq<Group>, n: nat, limit: nat, wider: nat, transform: string -> Option<string>)
    requires n <= |groups| && PlacedFirst(groups, n, limit) && limit <= wider <= |s|
    ensures PlacedFirst(groups, n, wider)
    ensures Spliced(s, groups, n, wider, transform) == Spliced(s, groups, n, limit, transform) + s[limit..wider]
    ensures Shift(s, groups, n, wider, transform) == Shift(s, groups, n, limit, transform)
  {
    if n == 0 {
      assert s[..wider] == s[..limit] + s[limit..wider];
    } else {
      var g := groups[n - 1];
      assert s[g.end..wider] == s[g.end..limit] + s[limit..wider];
    }
  }

  /**
   * Cutting `head + s[start..|s|]` at the end of `head` and `end - start`
   * characters later gives back `head`, `s[start..end]` and `s[end..|s|]`.
   */
  lemma CutAround(head: string, s: string, start: nat, end: nat)
    requires start <= end <= |s|
    ensures (head + s[start..|s|])[..|head|] == head
    ensures (head + s[start..|s|])[|head|..|head| + (end - start)] == s[start..end]
    ensures (head + s[start..|s|])[|head| + (end - start)..] == s[end..|s|]
  {
    var tail := s[start..|s|];
    assert (head + tail)[|head|..|head| + (end - start)] == tail[..end - start];
    assert (head + tail)[|head| + (end - start)..] == tail[end - start..];
  }

  /**
   * One round of `replaceMatches`: once the groups before `i` are replaced,
   * giving `r` with length change `offset`, group `i` sits `offset`
   * characters from where it was and still holds its original text, and
   * replacing it there gives the result for one more group.
   */
  lemma SplicedStep(s: string, groups: seq<Group>, i: nat, transform: string -> Option<string>, r: string, offset: int)
    requires Placed(groups, |s|) && i < |groups| && PlacedFirst(groups, i, |s|)
    requires r == Spliced(s, groups, i, |s|, transform)
    requires offset == Shift(s, groups, i, |s|, transform)
    ensures groups[i].start <= groups[i].end <= |s| && PlacedFirst(groups, i + 1, |s|)
    ensures 0 <= groups[i].start + offset <= groups[i].end + offset <= |r|
    ensures r[groups[i].start + offset..groups[i].end + offset] == s[groups[i].start..groups[i].end]
    ensures Spliced(s, groups, i + 1, |s|, transform) ==
      r[..groups[i].start + offset] + Replacement(s, groups[i], transform) + r[groups[i].end + offset..]
    ensures Shift(s, groups, i + 1, |s|, transform) ==
      offset + |Replacement(s, groups[i], transform)| - (groups[i].end - groups[i].start)
  {
    var g := groups[i];
    PlacedTake(groups, |groups|, |s|, i);
    var head := Spliced(s, groups, i, g.start, transform);
    assert r == head + s[g.start..|s|] && offset == Shift(s, groups, i, g.start, transform) by {
      SplicedWiden(s, groups, i, g.start, |s|, transform);
    }
    assert |head| == g.start + offset by {
      SplicedLength(s, groups, i, g.start, transform);
    }
    CutAround(head, s, g.start, g.end);
  }

  /** A group whose transform returns nil leaves `r` and `offset` as they are. */
  lemma SplicedSkip(s: string, groups: seq<Group>, i: nat, transform: string -> Option<string>, r: string, offset: int)
    requires Placed(groups, |s|) && i < |groups| && PlacedFirst(groups, i, |s|)
    requires groups[i].start <= groups[i].end <= |s| && transform(s[groups[i].start..groups[i].end]).None?
    requires r == Spliced(s, groups, i, |s|, transform)
    requires offset == Shift(s, groups, i, |s|, transform)
    ensures PlacedFirst(groups, i + 1, |s|)
    ensures Spliced(s, groups, i + 1, |s|, transform) == r && Shift(s, groups, i + 1, |s|, transform) == offset
  {
    var g := groups[i];
    SplicedStep(s, groups, i, transform, r, offset);
    SliceRestored(r, g.start + offset, g.end + offset, Replacement(s, g, transform), Spliced(s, groups, i + 1, |s|, transform));
  }

  /**
   * What the loop body of `replaceMatches` does to `r` and `offset` in either
   * case keeps them equal to the reference result and shift.
   */
  lemma SplicedNext(s: string, groups: seq<Group>, i: nat, transform: string -> Option<string>, r: string, offset: int)
    requires Placed(groups, |s|) && i < |groups| && PlacedFirst(groups, i, |s|)
    requires r == Spliced(s, groups, i, |s|, transform)
    requires offset == Shift(s, groups, i, |s|, transform)
    ensures groups[i].start <= groups[i].end <= |s| && PlacedFirst(groups, i + 1, |s|)
    ensures 0 <= groups[i].start + offset <= groups[i].end + offset <= |r|
    ensures transform(s[groups[i].start..groups[i].end]).None? ==>
      Spliced(s, groups, i + 1, |s|, transform) == r && Shift(s, groups, i + 1, |s|, transform) == offset
    ensures transform(s[groups[i].start..groups[i].end]).Some? ==>
      var replacement := transform(s[groups[i].start..groups[i].end]).value;
      && Spliced(s, groups, i + 1, |s|, transform) ==
        r[..groups[i].start + offset] + replacement + r[groups[i].end + offset..]
      && Shift(s, groups, i + 1, |s|, transform) == offset + |replacement| - (groups[i].end - groups[i].start)
  {
    var g := groups[i];
    SplicedStep(s, groups, i, transform, r, offset);
    if transform(s[g.start..g.end]).None? {
      SplicedSkip(s, groups, i, transform, r, offset);
    }
  }

  /** Putting a slice back where it was cut from changes nothing. */
  lemma SliceRestored(r: string, lo: nat, hi: nat, slice: string, whole: string)
    requires lo <= hi <= |r| && slice == r[lo..hi]
    requires whole == r[..lo] + slice + r[hi..]
    ensures whole == r
  {
    assert r == r[..lo] + r[lo..hi] + r[hi..];
  }

  /**
   * `replaceMatches`. Each group is located in the string being rewritten
   * by shifting its original position by the running `offset`; a group
   * whose transform returns nil is skipped.
   */
  method ReplaceMatches(s: string, groups: seq<Group>, transform: string -> Option<string>) returns (r: string)
    requires Placed(groups, |s|)
    ensures r == Spliced(s, groups, |groups|, |s|, transform)
  {
    var offset := 0;
    r := s;
    assert s[..|s|] == s;
    for i := 0 to |groups|
      invariant PlacedFirst(groups, i, |s|)
      invariant r == Spliced(s, groups, i, |s|, transform)
      invariant offset == Shift(s, groups, i, |s|, transform)
    {
      var g := groups[i];
      SplicedNext(s, groups, i, transform, r, offset);
      match transform(s[g.start..g.end]) {
        case None =>
        case Some(replacement) =>
          var startIndex := g.start + offset;
          var endIndex := g.end + offset;
          r := r[..startIndex] + replacement + r[endIndex..];
          offset := offset + |replacement| - (g.end - g.start);
      }
    }
  }

  /** With none of the first `n` groups replaced, the output is the input. */
  lemma {:induction false} SplicedUnchanged(s: string, groups: seq<Group>, n: nat, limit: nat, transform: string -> Option<string>)
    requires n <= |groups| && PlacedFirst(groups, n, limit) && limit <= |s|
    requires forall i :: 0 <= i < n && groups[i].start <= groups[i].end <= |s| ==>
      transform(s[groups[i].start..groups[i].end]).None?
    ensures Spliced(s, groups, n, limit, transform) == s[..limit]
    decreases n
  {
    if n > 0 {
      var g := groups[n - 1];
      SplicedUnchanged(s, groups, n - 1, g.start, transform);
      assert s[..limit] == s[..g.start] + s[g.start..g.end] + s[g.end..limit];
    }
  }

  /**
   * Group `i` lands right after the text produced for everything before it,
   * `offset` characters away from where it was: the output begins with the
   * rewritten text before the group followed by the group's replacement
   * (its own text when the transform returned nil).
   */
  lemma {:induction false} SplicedPlacesGroup(s: string, groups: seq<Group>, n: nat, limit: nat, i: nat, transform: string -> Option<string>)
    requires n <= |groups| && PlacedFirst(groups, n, limit) && limit <= |s| && i < n
    ensures groups[i].start <= groups[i].end <= limit && PlacedFirst(groups, i, groups[i].start)
    ensures var before := Spliced(s, groups, i, groups[i].start, transform);
      && |before| == groups[i].start + Shift(s, groups, i, groups[i].start, transform)
      && before + Replacement(s, groups[i], transform) <= Spliced(s, groups, n, limit, transform)
    decreases n
  {
    PlacedTake(groups, n, limit, i);
    SplicedLength(s, groups, i, groups[i].start, transform);
    if i < n - 1 {
      SplicedPlacesGroup(s, groups, n - 1, groups[n - 1].start, i, transform);
    }
  }

  // ---------------------------------------------------------------------
  // Link sanitising and the whole preprocessing step

  /**
   * `sanitizeURL`: nil (leave the `href` alone) when the URL has no `&`;
   * otherwise whatever the `URLComponents` re-serialisation `rewrite` gives,
   * which is nil when the URL cannot be parsed.
   */
  function SanitizeURL(rewrite: string -> Option<string>, url: string): (r: Option<string>)
    ensures '&' !in url ==> r == None
    ensures '&' in url ==> r == rewrite(url)
    ensures r.Some? ==> '&' in url
  {
    if '&' !in url then None else rewrite(url)
  }

  /** The body of `preprocess` before wrapping: line breaks, then `href` sanitising over the given groups. */
  function Preprocessed(input: string, hrefGroups: string -> seq<Group>, rewrite: string -> Option<string>): string
    requires forall t :: Placed(hrefGroups(t), |t|)
  {
    var broken := ReplaceLineBreaks(input);
    var groups := hrefGroups(broken);
    assert Placed(groups, |broken|);
    Spliced(broken, groups, |groups|, |broken|, url => SanitizeURL(rewrite, url))
  }

  /** `preprocess`: the rewritten text enclosed in `<body>` so that it is one XML document. */
  function Wrapped(input: string, hrefGroups: string -> seq<Group>, rewrite: string -> Option<string>): string
    requires forall t :: Placed(hrefGroups(t), |t|)
  {
    "<body>" + Preprocessed(input, hrefGroups, rewrite) + "</body>"
  }

  /** `preprocess`, computed with the `replaceMatches` loop. */
  method Preprocess(input: string, hrefGroups: string -> seq<Group>, rewrite: string -> Option<string>) returns (r: string)
    requires forall t :: Placed(hrefGroups(t), |t|)
    ensures r == Wrapped(input, hrefGroups, rewrite)
  {
    var text := ReplaceLineBreaks(input);
    text := ReplaceMatches(text, hrefGroups(text), url => SanitizeURL(rewrite, url));
    r := "<body>" + text + "</body>";
  }

  /** No group's text contains `&`. */
  predicate AmpersandFree(s: string, groups: seq<Group>)
  {
    forall i, j :: 0 <= i < |groups| && groups[i].start <= j < groups[i].end && j < |s| ==> s[j] != '&'
  }

  /** Links without `&` are left alone: only the line breaks change. */
  lemma PreprocessedWithoutAmpersands(input: string, hrefGroups: string -> seq<Group>, rewrite: string -> Option<string>)
    requires forall t :: Placed(hrefGroups(t), |t|)
    requires AmpersandFree(ReplaceLineBreaks(input), hrefGroups(ReplaceLineBreaks(input)))
    ensures Preprocessed(input, hrefGroups, rewrite) == ReplaceLineBreaks(input)
  {
    var broken := ReplaceLineBreaks(input);
    var groups := hrefGroups(broken);
    var sanitize := url => SanitizeURL(rewrite, url);
    forall i | 0 <= i < |groups| && groups[i].start <= groups[i].end <= |broken|
      ensures sanitize(broken[groups[i].start..groups[i].end]).None?
    {
      var seg := broken[groups[i].start..groups[i].end];
      assert forall k :: 0 <= k < |seg| ==> seg[k] == broken[groups[i].start + k];
      assert '&' !in seg;
    }
    SplicedUnchanged(broken, groups, |groups|, |broken|, sanitize);
    assert broken[..|broken|] == broken;
  }
}
