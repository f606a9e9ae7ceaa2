/** Python's `str.splitlines`, which breaks lines at more than newlines. */
module TextLines {
  /** The characters `str.splitlines` breaks after. */
  predicate IsBreak(c: char) {
    c in {'\n', '\r', '\U{000B}', '\U{000C}', '\U{001C}', '\U{001D}', '\U{001E}', '\U{0085}', '\U{2028}', '\U{2029}'}
  }

  /** A line ends after position `k`: a carriage return and a newline are one break. */
  predicate BreaksAt(t: string, k: nat)
    requires k < |t|
  {
    IsBreak(t[k]) && !(t[k] == '\r' && k + 1 < |t| && t[k + 1] == '\n')
  }

  /** The length of the first line, break included. */
  function FirstLine(t: string): (n: nat)
    requires t != []
    ensures 1 <= n <= |t|
  {
    if BreaksAt(t, 0) || |t| == 1 then 1 else 1 + FirstLine(t[1..])
  }

  /** `splitlines(keepends=True)` */
  function SplitLines(t: string): (ls: seq<string>)
    ensures forall i :: 0 <= i < |ls| ==> ls[i] != []
  {
    if t == [] then [] else [t[..FirstLine(t)]] + SplitLines(t[FirstLine(t)..])
  }

  predicate EndsBroken(t: string) {
    t != [] && IsBreak(t[|t| - 1])
  }

  predicate EndsReturn(t: string) {
    t != [] && t[|t| - 1] == '\r'
  }

  /** No break before the end. */
  predicate OneLine(t: string) {
    t != [] && forall k :: 0 <= k < |t| - 1 ==> !BreaksAt(t, k)
  }

  lemma BreaksNext(t: string)
    requires t != []
    ensures forall k :: 0 <= k < |t| - 1 ==> BreaksAt(t[1..], k) == BreaksAt(t, k + 1)
  {
    hide IsBreak;
    assert forall k :: 0 <= k < |t| - 1 ==> t[1..][k] == t[k + 1];
  }

  lemma {:induction false} FirstLineOf(t: string, n: nat)
    requires 1 <= n <= |t| && (n < |t| ==> BreaksAt(t, n - 1))
    requires forall k :: 0 <= k < n - 1 ==> !BreaksAt(t, k)
    ensures FirstLine(t) == n
  {
    hide BreaksAt;
    if n > 1 {
      BreaksNext(t);
      FirstLineOf(t[1..], n - 1);
    }
  }

  lemma {:induction false} FirstLineIs(t: string)
    requires t != []
    ensures forall k :: 0 <= k < FirstLine(t) - 1 ==> !BreaksAt(t, k)
    ensures FirstLine(t) < |t| ==> BreaksAt(t, FirstLine(t) - 1)
  {
    hide BreaksAt;
    if !BreaksAt(t, 0) && |t| > 1 {
      FirstLineIs(t[1..]);
      BreaksNext(t);
      assert forall k :: 1 <= k < |t| ==> BreaksAt(t, k) == BreaksAt(t[1..], k - 1);
    }
  }

  /** Without carriage returns every break ends a line. */
  lemma PlainBreaks(t: string)
    requires '\r' !in t
    ensures forall k :: 0 <= k < |t| ==> BreaksAt(t, k) == IsBreak(t[k])
  {
    hide IsBreak;
  }

  /** The first line as a text of its own. */
  lemma FirstLineAlone(t: string)
    requires t != []
    ensures OneLine(t[..FirstLine(t)]) && (FirstLine(t) < |t| ==> EndsBroken(t[..FirstLine(t)]))
  {
    hide IsBreak, FirstLine;
    FirstLineIs(t);
    var n := FirstLine(t);
    assert forall k :: 0 <= k < n - 1 ==> BreaksAt(t[..n], k) == BreaksAt(t, k);
  }

  /** A line of a file has no break inside, and only the last may have none at its end. */
  lemma {:induction false} LinesShape(t: string, i: nat)
    requires i < |SplitLines(t)|
    ensures OneLine(SplitLines(t)[i]) && (i < |SplitLines(t)| - 1 ==> EndsBroken(SplitLines(t)[i]))
    ensures '\r' !in t ==> '\r' !in SplitLines(t)[i]
    decreases |t|
  {
    hide IsBreak, BreaksAt, OneLine, EndsBroken;
    FirstLineAlone(t);
    var n := FirstLine(t);
    if i > 0 {
      LinesShape(t[n..], i - 1);
    } else if |SplitLines(t)| > 1 {
      assert n < |t|;
    }
  }

  lemma SplitFirst(t: string, n: nat, rest: string)
    requires 1 <= n <= |t| && FirstLine(t) == n && rest == t[n..]
    ensures SplitLines(t) == [t[..n]] + SplitLines(rest)
  {
  }

  lemma OneLineSplits(t: string)
    requires OneLine(t)
    ensures SplitLines(t) == [t]
  {
    hide BreaksAt, FirstLine;
    FirstLineOf(t, |t|);
    SplitFirst(t, |t|, "");
    assert t[..|t|] == t;
  }

  lemma BreaksBefore(a: string, b: string)
    requires a != [] && !EndsReturn(a)
    ensures forall k :: 0 <= k < |a| ==> BreaksAt(a + b, k) == BreaksAt(a, k)
    ensures EndsBroken(a) ==> BreaksAt(a, |a| - 1)
  {
    hide IsBreak;
  }

  lemma {:induction false} SplitAppend(a: string, b: string)
    requires EndsBroken(a) && !EndsReturn(a)
    ensures SplitLines(a + b) == SplitLines(a) + SplitLines(b)
    decreases |a|
  {
    hide IsBreak, BreaksAt, FirstLine, SplitLines;
    var n := FirstLine(a);
    FirstLineIs(a);
    BreaksBefore(a, b);
    FirstLineOf(a + b, n);
    assert (a + b)[..n] == a[..n];
    SplitFirst(a, n, a[n..]);
    if n < |a| {
      SplitAppend(a[n..], b);
      SplitFirst(a + b, n, a[n..] + b);
    } else {
      SplitFirst(a + b, n, b);
      NothingSplits(a[n..]);
    }
  }

  lemma NothingSplits(t: string)
    requires t == ""
    ensures SplitLines(t) == []
  {
  }

  /** A text that breaks before its end has more than one line. */
  lemma ManyLines(t: string, k: nat)
    requires k < |t| - 1 && BreaksAt(t, k)
    ensures |SplitLines(t)| > 1
  {
    hide BreaksAt;
    FirstLineIs(t);
  }

  /** The last line of a text ends as the text does. */
  lemma {:induction false} LastLineEnds(t: string)
    requires t != []
    ensures SplitLines(t) != [] && SplitLines(t)[|SplitLines(t)| - 1] != []
    ensures var line := SplitLines(t)[|SplitLines(t)| - 1]; line[|line| - 1] == t[|t| - 1]
    decreases |t|
  {
    hide IsBreak, FirstLine;
    var n := FirstLine(t);
    if n < |t| {
      LastLineEnds(t[n..]);
    }
  }
}
