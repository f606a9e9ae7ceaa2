/** Line-preserving edits of a C translation unit (`parser_source` in
    scripts/codegen/idf_wifi_api_map.py): spans are replaced by as many line breaks as they
    held, so that line numbers given to the C parser stay true. */
module SourceEdits {
  datatype Span = Span(start: nat, end: nat)

  function Newlines(s: string): nat {
    if s == "" then 0 else (if s[0] == '\n' then 1 else 0) + Newlines(s[1..])
  }

  /** `blank` */
  function Blank(s: string): (b: string)
    ensures |b| == Newlines(s)
  {
    seq(Newlines(s), _ => '\n')
  }

  /** The number of the line a position is on, from 0. */
  function LineOf(s: string, p: nat): nat
    requires p <= |s|
  {
    Newlines(s[..p])
  }

  lemma {:induction false} NewlinesAppend(a: string, b: string)
    ensures Newlines(a + b) == Newlines(a) + Newlines(b)
  {
    if a == "" {
      assert a + b == b;
    } else {
      NewlinesAppend(a[1..], b);
      assert (a + b)[1..] == a[1..] + b;
    }
  }

  lemma {:induction false} NewlinesOnly(n: nat)
    ensures Newlines(seq(n, _ => '\n')) == n
  {
    if n > 0 {
      NewlinesOnly(n - 1);
      assert seq(n, _ => '\n')[1..] == seq(n - 1, _ => '\n');
    }
  }

  lemma BlankKeepsLines(s: string)
    ensures Newlines(Blank(s)) == Newlines(s)
  {
    NewlinesOnly(Newlines(s));
  }

  /** The spans follow each other between `from` and `to`. */
  predicate InOrder(edits: seq<Span>, from: nat, to: nat) {
    if edits == [] then from <= to
    else from <= edits[0].start <= edits[0].end && InOrder(edits[1..], edits[0].end, to)
  }

  /** The text from `from` on with all spans replaced at once: everything outside them is
      copied from the source, each span becomes `lead` and its line breaks. */
  function Replaced(source: string, edits: seq<Span>, lead: string, from: nat): string
    requires InOrder(edits, from, |source|)
    decreases |edits|
  {
    if edits == [] then source[from..]
    else
      InOrderEnd(edits[1..], edits[0].end, |source|);
      var e := edits[0];
      source[from..e.start] + lead + Blank(source[e.start..e.end]) + Replaced(source, edits[1..], lead, e.end)
  }

  lemma {:induction false} InOrderEnd(edits: seq<Span>, from: nat, to: nat)
    requires InOrder(edits, from, to)
    ensures from <= to
    decreases |edits|
  {
    if edits != [] {
      InOrderEnd(edits[1..], edits[0].end, to);
    }
  }

  lemma {:induction false} InOrderSnoc(edits: seq<Span>, e: Span, from: nat, mid: nat, to: nat)
    requires InOrder(edits, from, mid) && mid <= e.start <= e.end <= to
    ensures InOrder(edits + [e], from, to)
    decreases |edits|
  {
    if edits == [] {
      assert edits + [e] == [e];
      assert [e][1..] == [];
    } else {
      InOrderSnoc(edits[1..], e, edits[0].end, mid, to);
      assert (edits + [e])[1..] == edits[1..] + [e];
    }
  }

  lemma {:induction false} InOrderTo(edits: seq<Span>, from: nat, mid: nat, to: nat)
    requires InOrder(edits, from, mid) && mid <= to
    ensures InOrder(edits, from, to)
    decreases |edits|
  {
    if edits != [] {
      InOrderTo(edits[1..], edits[0].end, mid, to);
    }
  }

  lemma {:induction false} InOrderPrefix(edits: seq<Span>, k: nat, from: nat, to: nat)
    requires InOrder(edits, from, to) && k < |edits|
    ensures InOrder(edits[..k], from, edits[k].start) && edits[k].start <= edits[k].end <= to
    decreases |edits|
  {
    if k > 0 {
      InOrderPrefix(edits[1..], k - 1, edits[0].end, to);
      assert edits[..k][1..] == edits[1..][..k - 1];
    } else {
      InOrderEnd(edits[1..], edits[0].end, to);
    }
  }

  lemma {:induction false} InOrderFrom(edits: seq<Span>, i: nat, from: nat, to: nat)
    requires InOrder(edits, from, to) && i < |edits|
    ensures edits[i].start <= edits[i].end <= to && InOrder(edits[i + 1..], edits[i].end, to)
    decreases i
  {
    if i > 0 {
      InOrderFrom(edits[1..], i - 1, edits[0].end, to);
      assert edits[1..][i..] == edits[i + 1..];
    } else {
      InOrderEnd(edits[1..], edits[0].end, to);
    }
  }

  lemma InOrderEarlier(edits: seq<Span>, from: nat, later: nat, to: nat)
    requires InOrder(edits, later, to) && from <= later
    ensures InOrder(edits, from, to)
  {
  }

  lemma Regroup(a: string, b: string, c: string, d: string, e: string)
    ensures (a + b) + c + d + e == a + (b + c + d + e)
  {
  }

  /** What stands before the first span is not touched. */
  lemma ReplacedFrom(source: string, edits: seq<Span>, lead: string, later: nat)
    requires InOrder(edits, later, |source|)
    ensures later <= |source| && InOrder(edits, 0, |source|)
    ensures Replaced(source, edits, lead, 0) == source[..later] + Replaced(source, edits, lead, later)
  {
    hide Blank;
    InOrderEnd(edits, later, |source|);
    InOrderEarlier(edits, 0, later, |source|);
    if edits != [] {
      var e := edits[0];
      InOrderEnd(edits[1..], e.end, |source|);
      assert source[0..e.start] == source[..later] + source[later..e.start];
      Regroup(source[..later], source[later..e.start], lead, Blank(source[e.start..e.end]), Replaced(source, edits[1..], lead, e.end));
    } else {
      assert source[0..] == source[..later] + source[later..];
    }
  }

  /** One span more in front. */
  lemma ReplacedStep(source: string, edits: seq<Span>, i: nat, lead: string)
    requires InOrder(edits, 0, |source|) && i < |edits|
    ensures edits[i].start <= edits[i].end <= |source|
    ensures InOrder(edits[i + 1..], 0, |source|) && InOrder(edits[i..], 0, |source|)
    ensures var e, out := edits[i], Replaced(source, edits[i + 1..], lead, 0);
            && e.end <= |out|
            && out[..e.start] + lead + Blank(out[e.start..e.end]) + out[e.end..] == Replaced(source, edits[i..], lead, 0)
  {
    hide Blank;
    var e := edits[i];
    InOrderFrom(edits, i, 0, |source|);
    ReplacedFrom(source, edits[i + 1..], lead, e.end);
    assert edits[i..][1..] == edits[i + 1..];
    var out, rest := Replaced(source, edits[i + 1..], lead, 0), Replaced(source, edits[i + 1..], lead, e.end);
    assert out[..e.start] == source[0..e.start] && out[e.start..e.end] == source[e.start..e.end] && out[e.end..] == rest;
  }

  /** The two loops that apply edits: last span first, in place. The result is the
      simultaneous replacement of all of them. */
  method ApplyInReverse(source: string, edits: seq<Span>, lead: string) returns (out: string)
    requires InOrder(edits, 0, |source|)
    ensures out == Replaced(source, edits, lead, 0)
  {
    hide Blank, Replaced, InOrder;
    out := source;
    var i := |edits|;
    assert edits[i..] == [];
    ReplacedNone(source, lead);
    while i > 0
      invariant 0 <= i <= |edits| && InOrder(edits[i..], 0, |source|)
      invariant out == Replaced(source, edits[i..], lead, 0)
    {
      i := i - 1;
      ReplacedStep(source, edits, i, lead);
      var e := edits[i];
      out := out[..e.start] + lead + Blank(out[e.start..e.end]) + out[e.end..];
    }
    assert edits[0..] == edits;
  }

  lemma ReplacedNone(s: string, lead: string)
    ensures InOrder([], 0, |s|) && Replaced(s, [], lead, 0) == s
  {
  }

  // ------------------------------------------------------------------- line numbers

  /** No span holds the position. */
  predicate Kept(edits: seq<Span>, p: nat) {
    forall e :: e in edits ==> !(e.start <= p < e.end)
  }

  /** Where a kept position of the source ends up, counted from `from`. */
  function NewPosition(source: string, edits: seq<Span>, lead: string, from: nat, p: nat): nat
    requires InOrder(edits, from, |source|) && from <= p <= |source|
    decreases |edits|
  {
    if edits == [] || p < edits[0].end then p - from
    else
      InOrderEnd(edits[1..], edits[0].end, |source|);
      var e := edits[0];
      e.start - from + |lead| + Newlines(source[e.start..e.end]) + NewPosition(source, edits[1..], lead, e.end, p)
  }

  lemma SliceNewlines(s: string, a: nat, b: nat, c: nat)
    requires a <= b <= c <= |s|
    ensures Newlines(s[a..c]) == Newlines(s[a..b]) + Newlines(s[b..c])
  {
    assert s[a..c] == s[a..b] + s[b..c];
    NewlinesAppend(s[a..b], s[b..c]);
  }

  /** Every kept character is still there, and on the line it was on. */
  lemma {:induction false} KeptStays(source: string, edits: seq<Span>, lead: string, from: nat, p: nat)
    requires InOrder(edits, from, |source|) && from <= p < |source| && Kept(edits, p) && Newlines(lead) == 0
    ensures var out := Replaced(source, edits, lead, from);
            var q := NewPosition(source, edits, lead, from, p);
            q < |out| && out[q] == source[p] && Newlines(out[..q]) == Newlines(source[from..p])
    decreases |edits|
  {
    hide Blank, Newlines;
    var out := Replaced(source, edits, lead, from);
    if edits == [] {
      assert out[..p - from] == source[from..p];
    } else {
      var e := edits[0];
      InOrderEnd(edits[1..], e.end, |source|);
      var rest := Replaced(source, edits[1..], lead, e.end);
      var head := source[from..e.start] + lead + Blank(source[e.start..e.end]);
      assert out == head + rest;
      if p < e.end {
        assert e in edits;
        assert p < e.start;
        assert out[..p - from] == source[from..p];
      } else {
        KeptStays(source, edits[1..], lead, e.end, p);
        var q := NewPosition(source, edits[1..], lead, e.end, p);
        assert out[..|head| + q] == head + rest[..q];
        HeadLines(source, e, lead, from);
        NewlinesAppend(head, rest[..q]);
        SliceNewlines(source, from, e.end, p);
      }
    }
  }

  lemma HeadLines(source: string, e: Span, lead: string, from: nat)
    requires from <= e.start <= e.end <= |source| && Newlines(lead) == 0
    ensures Newlines(source[from..e.start] + lead + Blank(source[e.start..e.end])) == Newlines(source[from..e.end])
  {
    NewlinesAppend(source[from..e.start] + lead, Blank(source[e.start..e.end]));
    NewlinesAppend(source[from..e.start], lead);
    BlankKeepsLines(source[e.start..e.end]);
    SliceNewlines(source, from, e.start, e.end);
  }

  /** Kept characters keep their order. */
  lemma {:induction false} KeptInOrder(source: string, edits: seq<Span>, lead: string, from: nat, p: nat, r: nat)
    requires InOrder(edits, from, |source|) && from <= p < r <= |source|
    requires Kept(edits, p) && Kept(edits, r)
    ensures NewPosition(source, edits, lead, from, p) < NewPosition(source, edits, lead, from, r)
    decreases |edits|
  {
    if edits != [] {
      var e := edits[0];
      assert e in edits;
      InOrderEnd(edits[1..], e.end, |source|);
      if p >= e.end {
        KeptInOrder(source, edits[1..], lead, e.end, p, r);
      }
    }
  }

  /** The text as a whole keeps its number of lines. */
  lemma {:induction false} LinesKept(source: string, edits: seq<Span>, lead: string, from: nat)
    requires InOrder(edits, from, |source|) && from <= |source| && Newlines(lead) == 0
    ensures Newlines(Replaced(source, edits, lead, from)) == Newlines(source[from..])
    decreases |edits|
  {
    hide Blank, Newlines;
    if edits != [] {
      var e := edits[0];
      InOrderEnd(edits[1..], e.end, |source|);
      assert source[from..] == source[from..|source|] && source[e.end..] == source[e.end..|source|];
      LinesKept(source, edits[1..], lead, e.end);
      HeadLines(source, e, lead, from);
      NewlinesAppend(source[from..e.start] + lead + Blank(source[e.start..e.end]), Replaced(source, edits[1..], lead, e.end));
      SliceNewlines(source, from, e.end, |source|);
    }
  }
}
