/** The second scan of `parser_source` (scripts/codegen/idf_wifi_api_map.py), for function
    bodies. */
module FunctionBodies {
  import opened Wire
  import opened SourceEdits
  import opened ParserSource

  /** Opened minus closed braces among the first `k` tokens; negative if unbalanced. */
  function Depth(toks: seq<Token>, k: nat): int
    requires k <= |toks|
  {
    if k == 0 then 0
    else Depth(toks, k - 1) + if toks[k - 1].text == "{" then 1 else if toks[k - 1].text == "}" then -1 else 0
  }

  /** A top-level brace after a closing parenthesis, and everything up to token `i` inside. */
  predicate BodyOpen(toks: seq<Token>, b: nat, i: nat) {
    && 0 < b < i <= |toks| && toks[b].text == "{" && toks[b - 1].text == ")" && Depth(toks, b) == 0
    && forall k :: b < k <= i ==> Depth(toks, k) > 0
  }

  /** A function body: from such a brace to the one that brings the depth back to zero. */
  predicate BodyAt(toks: seq<Token>, r: Span) {
    && r.start + 1 < r.end <= |toks| && BodyOpen(toks, r.start, r.end - 1)
    && toks[r.end - 1].text == "}" && Depth(toks, r.end) == 0
  }

  /** Exactly the bodies that end within the first `upto` tokens, in order. */
  ghost predicate Bodies(toks: seq<Token>, ranges: seq<Span>, upto: nat) {
    && upto <= |toks| && InOrder(ranges, 0, upto)
    && forall r: Span :: r in ranges <==> BodyAt(toks, r) && r.end <= upto
  }

  lemma BodyShape(toks: seq<Token>, r: Span)
    requires BodyAt(toks, r)
    ensures r.start < r.end <= |toks|
  {
  }

  lemma DepthNext(toks: seq<Token>, k: nat)
    requires k < |toks|
    ensures Depth(toks, k + 1) == Depth(toks, k) + if toks[k].text == "{" then 1 else if toks[k].text == "}" then -1 else 0
  {
  }

  /** Two bodies that end at the same token are the same. */
  lemma OneOpen(toks: seq<Token>, b: nat, c: nat, i: nat)
    requires BodyOpen(toks, b, i) && BodyOpen(toks, c, i)
    ensures b == c
  {
    hide Depth;
    if b < c {
      InsidePositive(toks, b, i, c);
    } else if c < b {
      InsidePositive(toks, c, i, b);
    }
  }

  lemma InsidePositive(toks: seq<Token>, b: nat, i: nat, k: nat)
    requires BodyOpen(toks, b, i) && b < k <= i
    ensures Depth(toks, k) > 0
  {
    hide Depth;
  }

  lemma BodiesSame(toks: seq<Token>, ranges: seq<Span>, i: nat)
    requires Bodies(toks, ranges, i) && i < |toks|
    requires forall r :: BodyAt(toks, r) ==> r.end != i + 1
    ensures Bodies(toks, ranges, i + 1)
  {
    hide BodyAt;
    InOrderTo(ranges, 0, i, i + 1);
  }

  lemma BodiesMore(toks: seq<Token>, ranges: seq<Span>, i: nat, b: nat)
    requires Bodies(toks, ranges, i) && i < |toks| && BodyAt(toks, Span(b, i + 1))
    requires forall k :: 0 <= k < |ranges| ==> ranges[k].end <= b
    ensures Bodies(toks, ranges + [Span(b, i + 1)], i + 1)
  {
    hide BodyAt;
    var r := Span(b, i + 1);
    BodyStarts(toks, r);
    OrderedUpTo(ranges, 0, i, b);
    InOrderSnoc(ranges, r, 0, b, i + 1);
    forall s: Span
      ensures s in ranges + [r] <==> BodyAt(toks, s) && s.end <= i + 1
    {
      if BodyAt(toks, s) && s.end == i + 1 {
        SameBody(toks, r, s);
      }
    }
  }

  lemma BodyStarts(toks: seq<Token>, r: Span)
    requires BodyAt(toks, r)
    ensures r.start + 1 < r.end <= |toks|
  {
  }

  lemma SameBody(toks: seq<Token>, r: Span, s: Span)
    requires BodyAt(toks, r) && BodyAt(toks, s) && r.end == s.end
    ensures r == s
  {
    hide BodyOpen;
    OneOpen(toks, r.start, s.start, r.end - 1);
  }

  lemma {:induction false} OrderedUpTo(edits: seq<Span>, from: nat, to: nat, b: nat)
    requires InOrder(edits, from, to) && from <= b && forall k :: 0 <= k < |edits| ==> edits[k].end <= b
    ensures InOrder(edits, from, b)
    decreases |edits|
  {
    if edits != [] {
      OrderedUpTo(edits[1..], edits[0].end, to, b);
    }
  }

  /** A body that ends at token `i` was open there. */
  lemma EndsOpen(toks: seq<Token>, i: nat, r: Span)
    requires BodyAt(toks, r) && r.end == i + 1
    ensures BodyOpen(toks, r.start, i) && toks[i].text == "}" && Depth(toks, i + 1) == 0
  {
    hide Depth;
  }

  lemma OpenStays(toks: seq<Token>, b: nat, i: nat)
    requires BodyOpen(toks, b, i) && i < |toks| && Depth(toks, i + 1) > 0
    ensures BodyOpen(toks, b, i + 1)
  {
    hide Depth;
  }

  lemma OpenBefore(toks: seq<Token>, b: nat, i: nat)
    requires BodyOpen(toks, b, i + 1) && b < i
    ensures BodyOpen(toks, b, i)
  {
    hide Depth;
  }

  /** What the loop's `start` holds: the only open body, if there is one. */
  ghost predicate Tracks(toks: seq<Token>, start: Option<nat>, i: nat) {
    && i <= |toks|
    && (start.Some? ==> BodyOpen(toks, start.value, i))
    && (start.None? ==> forall b: nat :: !BodyOpen(toks, b, i))
  }

  /** The loop's step at a token that ends no body. */
  lemma TracksNext(toks: seq<Token>, start: Option<nat>, i: nat, next: Option<nat>)
    requires Tracks(toks, start, i) && i < |toks|
    requires !(toks[i].text == "}" && Depth(toks, i + 1) == 0 && start.Some?)
    requires next == if toks[i].text == "{" && Depth(toks, i) == 0 && i > 0 && toks[i - 1].text == ")" then Some(i) else start
    ensures Tracks(toks, next, i + 1)
    ensures forall r :: BodyAt(toks, r) ==> r.end != i + 1
  {
    hide Depth, BodyAt;
    DepthNext(toks, i);
    forall r | BodyAt(toks, r)
      ensures r.end != i + 1
    {
      if r.end == i + 1 {
        EndsOpen(toks, i, r);
      }
    }
    if start.Some? {
      OpenDepth(toks, start.value, i);
      OpenStays(toks, start.value, i);
    } else if next.None? {
      var j := i + 1;
      forall b: nat
        ensures !BodyOpen(toks, b, j)
      {
        if BodyOpen(toks, b, j) && b < i {
          OpenBefore(toks, b, i);
        }
      }
    }
  }

  lemma OpenDepth(toks: seq<Token>, b: nat, i: nat)
    requires BodyOpen(toks, b, i)
    ensures Depth(toks, i) > 0
  {
    hide Depth;
  }

  lemma TracksClosed(toks: seq<Token>, b: nat, i: nat)
    requires BodyOpen(toks, b, i) && i < |toks| && toks[i].text == "}" && Depth(toks, i + 1) == 0
    ensures BodyAt(toks, Span(b, i + 1)) && Tracks(toks, None, i + 1)
  {
    hide Depth;
  }

  /** Bodies already found end before the open one starts. */
  lemma FoundBefore(toks: seq<Token>, ranges: seq<Span>, b: nat, i: nat)
    requires Bodies(toks, ranges, i) && BodyOpen(toks, b, i)
    ensures forall k :: 0 <= k < |ranges| ==> ranges[k].end <= b
  {
    hide Depth, InOrder;
    forall k | 0 <= k < |ranges|
      ensures ranges[k].end <= b
    {
      assert ranges[k] in ranges;
      BodyShape(toks, ranges[k]);
      var end := ranges[k].end;
      if b < end {
        InsidePositive(toks, b, i, end);
      }
    }
  }

  /** The third loop of `parser_source`: exactly the function bodies, whatever the input. */
  method FindBodies(source: string, toks: seq<Token>) returns (edits: seq<Span>, ghost ranges: seq<Span>)
    requires TokensOf(source, toks)
    ensures Bodies(toks, ranges, |toks|) && Ranges(toks, ranges) && edits == CharSpans(toks, ranges)
    ensures InOrder(edits, 0, |source|)
  {
    hide Bodies, BodyAt, BodyOpen, Depth, Tracks, Ranges, CharSpans, TokensOf, InOrder;
    var depth := 0;
    var start: Option<nat> := None;
    edits, ranges := [], [];
    NoRanges(toks);
    NoBodies(toks);
    for index := 0 to |toks|
      invariant depth == Depth(toks, index) && Tracks(toks, start, index)
      invariant Bodies(toks, ranges, index) && Ranges(toks, ranges) && edits == CharSpans(toks, ranges)
    {
      DepthNext(toks, index);
      TrackedOpen(toks, start, index);
      ghost var before := start;
      if toks[index].text == "{" {
        if depth == 0 && index > 0 && toks[index - 1].text == ")" {
          start := Some(index);
        }
        depth := depth + 1;
      } else if toks[index].text == "}" {
        depth := depth - 1;
        if depth == 0 && start.Some? {
          TracksClosed(toks, start.value, index);
          FoundBefore(toks, ranges, start.value, index);
          BodiesMore(toks, ranges, index, start.value);
          CharSpansSnoc(toks, ranges, Span(start.value, index + 1));
          edits := edits + [Span(toks[start.value].start, toks[index].end)];
          ranges := ranges + [Span(start.value, index + 1)];
          start := None;
          continue;
        }
      }
      TracksNext(toks, before, index, start);
      BodiesSame(toks, ranges, index);
    }
    BodySpans(source, toks, ranges);
  }

  lemma NoBodies(toks: seq<Token>)
    ensures Bodies(toks, [], 0) && Tracks(toks, None, 0) && Depth(toks, 0) == 0
  {
  }

  lemma TrackedOpen(toks: seq<Token>, start: Option<nat>, i: nat)
    requires Tracks(toks, start, i)
    ensures start.Some? ==> start.value < i <= |toks| && BodyOpen(toks, start.value, i)
  {
    hide Depth;
  }

  lemma BodySpans(source: string, toks: seq<Token>, ranges: seq<Span>)
    requires TokensOf(source, toks) && Bodies(toks, ranges, |toks|) && Ranges(toks, ranges)
    ensures InOrder(CharSpans(toks, ranges), 0, |source|)
  {
    hide BodyAt, TokensOf, CharSpans, InOrder;
    CharSpansOrdered(source, toks, ranges, |toks|);
    InOrderTo(CharSpans(toks, ranges), 0, CharsEnd(toks, ranges), |source|);
  }
}
