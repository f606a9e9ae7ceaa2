/** The scans of `parser_source` (scripts/codegen/idf_wifi_api_map.py): where the compiler
    annotations and the function bodies of a translation unit stand. */
module ParserSource {
  import opened Wire
  import opened SourceEdits

  datatype Token = Token(text: string, start: nat, end: nat)

  /** What a scan with `TOKEN.finditer` gives: nonempty matches, one after the other. */
  predicate TokensOf(source: string, toks: seq<Token>) {
    && (forall i :: 0 <= i < |toks| ==> toks[i].start < toks[i].end <= |source|)
    && (forall i, j :: 0 <= i < j < |toks| ==> toks[i].end <= toks[j].start)
  }

  predicate Annotation(text: string) {
    text in {"__attribute__", "__attribute", "__asm__", "asm"}
  }

  predicate Qualifier(text: string) {
    text in {"volatile", "__volatile__", "inline", "goto"}
  }

  /** Opened minus closed parentheses among the tokens from `from` up to `to`. */
  function Level(toks: seq<Token>, from: nat, to: nat): int
    requires from <= to <= |toks|
  {
    if from == to then 0
    else
      Level(toks, from, to - 1)
      + if toks[to - 1].text == "(" then 1 else if toks[to - 1].text == ")" then -1 else 0
  }

  /** The parenthesis that follows an annotation word and its qualifiers. */
  predicate Opens(toks: seq<Token>, i: nat, o: nat) {
    && i < o < |toks| && toks[o].text == "("
    && forall k :: i < k < o ==> Qualifier(toks[k].text)
  }

  /** The parenthesis at `o` is closed by the last token before `end`. */
  predicate Closes(toks: seq<Token>, o: nat, end: nat) {
    && o < end <= |toks| && Level(toks, o, end) == 0
    && forall k :: o < k < end ==> Level(toks, o, k) > 0
  }

  /** A whole annotation: its word, qualifiers and balanced parentheses. */
  ghost predicate AnnotationAt(toks: seq<Token>, r: Span) {
    r.start < r.end <= |toks| && Annotation(toks[r.start].text) && exists o :: Opens(toks, r.start, o) && Closes(toks, o, r.end)
  }

  /** Among the first `upto` tokens, exactly the annotations in sequence: each word that
      can start one does, or stands inside an earlier one. */
  ghost predicate Annotations(toks: seq<Token>, ranges: seq<Span>, upto: nat) {
    && upto <= |toks| && InOrder(ranges, 0, upto)
    && (forall r :: r in ranges ==> AnnotationAt(toks, r))
    && (forall j :: 0 <= j < upto && Annotation(toks[j].text) ==> !Kept(ranges, j))
  }

  /** The characters that a range of tokens spans. */
  function CharSpan(toks: seq<Token>, r: Span): Span
    requires r.start < r.end <= |toks|
  {
    Span(toks[r.start].start, toks[r.end - 1].end)
  }

  predicate Ranges(toks: seq<Token>, ranges: seq<Span>) {
    forall r :: r in ranges ==> r.start < r.end <= |toks|
  }

  function CharSpans(toks: seq<Token>, ranges: seq<Span>): (spans: seq<Span>)
    requires Ranges(toks, ranges)
    ensures |spans| == |ranges|
  {
    if ranges == [] then []
    else
      assert forall r :: r in ranges[..|ranges| - 1] ==> r in ranges;
      CharSpans(toks, ranges[..|ranges| - 1]) + [CharSpan(toks, ranges[|ranges| - 1])]
  }

  /** The words of an annotation: exactly these with one of these qualifiers are blanked. */
  lemma AnnotationWords(toks: seq<Token>)
    requires |toks| == 4 && toks[2].text == "(" && toks[3].text == ")"
    ensures AnnotationAt(toks, Span(0, 4)) <==>
            && (toks[0].text == "__attribute__" || toks[0].text == "__attribute" || toks[0].text == "__asm__"
                || toks[0].text == "asm")
            && (toks[1].text == "volatile" || toks[1].text == "__volatile__" || toks[1].text == "inline"
                || toks[1].text == "goto")
  {
    assert Level(toks, 2, 3) == Level(toks, 2, 2) + 1 && Level(toks, 2, 4) == Level(toks, 2, 3) - 1;
    if toks[1].text == "(" {
      assert Level(toks, 1, 2) == Level(toks, 1, 1) + 1 && Level(toks, 1, 3) == Level(toks, 1, 2) + 1;
      assert Level(toks, 1, 4) == Level(toks, 1, 3) - 1;
    }
    forall o | Opens(toks, 0, o) && Closes(toks, o, 4)
      ensures o == 2 && Qualifier(toks[1].text)
    {
    }
    if Qualifier(toks[1].text) {
      assert Opens(toks, 0, 2) && Closes(toks, 2, 4);
    }
  }

  // -------------------------------------------------------------- annotation ranges

  lemma OpensUnique(toks: seq<Token>, i: nat, o: nat, n: nat)
    requires Opens(toks, i, o) && Opens(toks, i, n)
    ensures o == n
  {
    NotQualifier("(");
  }

  lemma NotQualifier(text: string)
    requires text == "("
    ensures !Qualifier(text)
  {
  }

  lemma ClosesUnique(toks: seq<Token>, o: nat, d: nat, e: nat)
    requires Closes(toks, o, d) && Closes(toks, o, e)
    ensures d == e
  {
    hide Level;
  }

  lemma AnnotationUnique(toks: seq<Token>, r: Span, s: Span)
    requires AnnotationAt(toks, r) && AnnotationAt(toks, s) && r.start == s.start
    ensures r == s
  {
    hide Opens, Closes, Annotation;
    var o :| Opens(toks, r.start, o) && Closes(toks, o, r.end);
    var n :| Opens(toks, s.start, n) && Closes(toks, n, s.end);
    OpensUnique(toks, r.start, o, n);
    ClosesUnique(toks, o, r.end, s.end);
  }

  lemma {:induction false} InOrderAt(edits: seq<Span>, from: nat, to: nat, i: nat, j: nat)
    requires InOrder(edits, from, to) && i < j < |edits|
    ensures edits[i].end <= edits[j].start
    decreases |edits|
  {
    if i > 0 {
      InOrderAt(edits[1..], edits[0].end, to, i - 1, j - 1);
    } else if j > 1 {
      InOrderAt(edits[1..], edits[0].end, to, 0, j - 1);
    }
  }

  lemma InOrderWithin(edits: seq<Span>, from: nat, to: nat, i: nat)
    requires InOrder(edits, from, to) && i < |edits|
    ensures edits[i].start <= edits[i].end <= to
  {
    InOrderFrom(edits, i, from, to);
  }

  lemma NotKept(edits: seq<Span>, p: nat) returns (m: nat)
    requires !Kept(edits, p)
    ensures m < |edits| && edits[m].start <= p < edits[m].end
  {
    var e :| e in edits && e.start <= p < e.end;
    m :| 0 <= m < |edits| && edits[m] == e;
  }

  /** A later scan repeats an earlier one: the next range starts where the earlier scan's
      next range does. */
  lemma SameStart(toks: seq<Token>, ranges: seq<Span>, upto: nat, others: seq<Span>, n: nat, k: nat, s: nat)
    requires Annotations(toks, ranges, upto) && Annotations(toks, others, n) && s < n
    requires k <= |ranges| && k <= |others| && ranges[..k] == others[..k]
    requires s < |toks| && Annotation(toks[s].text) && (forall i :: 0 <= i < k ==> ranges[i].end <= s)
    requires if k < |ranges| then s == ranges[k].start else s == upto
    ensures k < |others| && others[k].start == s
  {
    hide Annotation, AnnotationAt;
    var m := NotKept(others, s);
    if m < k {
      SameElement(ranges, others, k, m);
    }
    if k < m {
      InOrderAt(others, 0, n, k, m);
    }
    InOrderWithin(others, 0, n, k);
    assert others[k] in others;
    RangeShape(toks, others[k]);
    var t := others[k].start;
    if t < s {
      if k < |ranges| {
        InOrderWithin(ranges, 0, upto, k);
      }
      var j := NotKept(ranges, t);
      if j < k {
        SameElement(ranges, others, k, j);
        InOrderAt(others, 0, n, j, k);
      } else if j > k {
        InOrderAt(ranges, 0, upto, k, j);
      }
    }
  }

  lemma SameElement(a: seq<Span>, b: seq<Span>, k: nat, m: nat)
    requires k <= |a| && k <= |b| && a[..k] == b[..k] && m < k
    ensures a[m] == b[m]
  {
    assert a[m] == a[..k][m];
  }

  lemma RangeIn(toks: seq<Token>, ranges: seq<Span>, n: nat, k: nat)
    requires Annotations(toks, ranges, n) && k < |ranges|
    ensures AnnotationAt(toks, ranges[k])
  {
    hide AnnotationAt;
  }

  lemma RangeShape(toks: seq<Token>, r: Span)
    requires AnnotationAt(toks, r)
    ensures r.start < r.end <= |toks| && Annotation(toks[r.start].text)
  {
  }

  lemma {:induction false} SamePrefix(toks: seq<Token>, ranges: seq<Span>, upto: nat, others: seq<Span>, n: nat, k: nat)
    requires Annotations(toks, ranges, upto) && Annotations(toks, others, n) && upto <= n && k <= |ranges|
    ensures k <= |others| && ranges[..k] == others[..k]
  {
    hide Annotation, AnnotationAt;
    if k > 0 {
      SamePrefix(toks, ranges, upto, others, n, k - 1);
      var r := ranges[k - 1];
      assert r in ranges;
      InOrderWithin(ranges, 0, upto, k - 1);
      RangeShape(toks, r);
      forall i | 0 <= i < k - 1
        ensures ranges[i].end <= r.start
      {
        InOrderAt(ranges, 0, upto, i, k - 1);
      }
      SameStart(toks, ranges, upto, others, n, k - 1, r.start);
      assert others[k - 1] in others;
      AnnotationUnique(toks, r, others[k - 1]);
      assert ranges[..k] == ranges[..k - 1] + [r];
      assert others[..k] == others[..k - 1] + [r];
    }
  }

  /** There is at most one way to read a text's annotations. */
  lemma AnnotationsUnique(toks: seq<Token>, ranges: seq<Span>, others: seq<Span>)
    requires Annotations(toks, ranges, |toks|) && Annotations(toks, others, |toks|)
    ensures ranges == others
  {
    hide Annotations;
    SamePrefix(toks, ranges, |toks|, others, |toks|, |ranges|);
    SamePrefix(toks, others, |toks|, ranges, |toks|, |others|);
    assert ranges[..|ranges|] == ranges && others[..|others|] == others;
  }

  /** If the scan is stuck at a word, the text has no reading at all. */
  lemma Stuck(toks: seq<Token>, ranges: seq<Span>, i: nat, others: seq<Span>)
    requires Annotations(toks, ranges, i) && i < |toks| && Annotation(toks[i].text)
    requires forall r :: AnnotationAt(toks, r) ==> r.start != i
    ensures !Annotations(toks, others, |toks|)
  {
    hide Annotation, AnnotationAt;
    if Annotations(toks, others, |toks|) {
      SamePrefix(toks, ranges, i, others, |toks|, |ranges|);
      forall k | 0 <= k < |ranges|
        ensures ranges[k].end <= i
      {
        InOrderWithin(ranges, 0, i, k);
      }
      SameStart(toks, ranges, i, others, |toks|, |ranges|, i);
      RangeIn(toks, others, |toks|, |ranges|);
    }
  }

  // ----------------------------------------------------------------- the first scan

  lemma AnnotationEnds(toks: seq<Token>, i: nat, o: nat, end: nat)
    requires i < end <= |toks| && Annotation(toks[i].text) && Opens(toks, i, o) && Closes(toks, o, end)
    ensures AnnotationAt(toks, Span(i, end))
  {
    hide Annotation, Opens, Closes;
  }

  /** Past the qualifiers there is no parenthesis, or it never closes. */
  lemma NoAnnotation(toks: seq<Token>, i: nat, o: nat)
    requires i < o <= |toks| && forall k :: i < k < o ==> Qualifier(toks[k].text)
    requires o == |toks| || (!Qualifier(toks[o].text) && (toks[o].text == "(" ==> forall end :: !Closes(toks, o, end)))
    ensures forall r :: AnnotationAt(toks, r) ==> r.start != i
  {
    hide Closes, Annotation, Qualifier;
    NotQualifier("(");
    forall r | AnnotationAt(toks, r)
      ensures r.start != i
    {
    }
  }

  lemma NeverCloses(toks: seq<Token>, o: nat)
    requires o < |toks| && forall k :: o < k <= |toks| ==> Level(toks, o, k) > 0
    ensures forall end :: !Closes(toks, o, end)
  {
    hide Level;
  }

  lemma LevelOne(toks: seq<Token>, o: nat)
    requires o < |toks| && toks[o].text == "("
    ensures Level(toks, o, o + 1) == 1
  {
  }

  lemma AnnotationsPast(toks: seq<Token>, ranges: seq<Span>, i: nat)
    requires Annotations(toks, ranges, i) && i < |toks| && !Annotation(toks[i].text)
    ensures Annotations(toks, ranges, i + 1)
  {
    hide AnnotationAt, Annotation;
    InOrderTo(ranges, 0, i, i + 1);
  }

  lemma AnnotationsMore(toks: seq<Token>, ranges: seq<Span>, i: nat, r: Span)
    requires Annotations(toks, ranges, i) && r.start == i && AnnotationAt(toks, r)
    ensures Annotations(toks, ranges + [r], r.end)
  {
    hide AnnotationAt, Annotation;
    RangeShape(toks, r);
    InOrderSnoc(ranges, r, 0, i, r.end);
    forall j | 0 <= j < r.end && Annotation(toks[j].text)
      ensures !Kept(ranges + [r], j)
    {
      if j < i {
        var m := NotKept(ranges, j);
        assert ranges[m] in ranges + [r];
      } else {
        assert r in ranges + [r];
      }
    }
  }

  lemma CharSpansSnoc(toks: seq<Token>, ranges: seq<Span>, r: Span)
    requires Ranges(toks, ranges) && r.start < r.end <= |toks|
    ensures Ranges(toks, ranges + [r]) && CharSpans(toks, ranges + [r]) == CharSpans(toks, ranges) + [CharSpan(toks, r)]
  {
    assert (ranges + [r])[..|ranges|] == ranges;
  }

  lemma RangeChars(source: string, toks: seq<Token>, r: Span)
    requires TokensOf(source, toks) && r.start < r.end <= |toks|
    ensures CharSpan(toks, r).start <= CharSpan(toks, r).end <= |source|
  {
    if r.start < r.end - 1 {
      assert toks[r.start].end <= toks[r.end - 1].start;
    }
  }

  lemma RangesApart(source: string, toks: seq<Token>, r: Span, s: Span)
    requires TokensOf(source, toks) && r.start < r.end <= s.start < s.end <= |toks|
    ensures CharSpan(toks, r).end <= CharSpan(toks, s).start
  {
  }

  /** Where the characters of some ranges end. */
  function CharsEnd(toks: seq<Token>, ranges: seq<Span>): nat
    requires Ranges(toks, ranges)
  {
    if ranges == [] then 0 else CharSpan(toks, ranges[|ranges| - 1]).end
  }

  lemma CharsApart(source: string, toks: seq<Token>, ranges: seq<Span>, r: Span, n: nat)
    requires TokensOf(source, toks) && Ranges(toks, ranges + [r]) && InOrder(ranges + [r], 0, n)
    ensures Ranges(toks, ranges) && CharsEnd(toks, ranges) <= CharSpan(toks, r).start
  {
    hide TokensOf;
    assert forall x :: x in ranges ==> x in ranges + [r];
    assert r in ranges + [r];
    if ranges != [] {
      InOrderAt(ranges + [r], 0, n, |ranges| - 1, |ranges|);
      RangesApart(source, toks, ranges[|ranges| - 1], r);
    }
  }

  lemma {:induction false} CharSpansOrdered(source: string, toks: seq<Token>, ranges: seq<Span>, n: nat)
    requires TokensOf(source, toks) && Ranges(toks, ranges) && InOrder(ranges, 0, n) && n <= |toks|
    ensures InOrder(CharSpans(toks, ranges), 0, CharsEnd(toks, ranges)) && CharsEnd(toks, ranges) <= |source|
  {
    hide TokensOf, CharSpan;
    if ranges != [] {
      var k := |ranges| - 1;
      var before, r := ranges[..k], ranges[k];
      assert ranges == before + [r];
      InOrderPrefix(ranges, k, 0, n);
      CharsApart(source, toks, before, r, n);
      CharSpansOrdered(source, toks, before, r.start);
      CharSpansSnoc(toks, before, r);
      RangeChars(source, toks, r);
      InOrderSnoc(CharSpans(toks, before), CharSpan(toks, r), 0, CharsEnd(toks, before), CharSpan(toks, r).end);
    }
  }

  /** The first loop of `parser_source`: it succeeds exactly when every annotation word is
      followed by balanced parentheses, and then finds exactly the annotations. */
  method FindAnnotations(source: string, toks: seq<Token>) returns (r: Result<seq<Span>>, ghost ranges: seq<Span>)
    requires TokensOf(source, toks)
    ensures r.Ok? ==> Annotations(toks, ranges, |toks|) && Ranges(toks, ranges) && r.value == CharSpans(toks, ranges)
    ensures r.Ok? ==> InOrder(r.value, 0, |source|)
    ensures r.Err? ==> forall others :: !Annotations(toks, others, |toks|)
  {
    hide Annotation, Qualifier, Annotations, AnnotationAt, Opens, Closes, Level, Ranges, CharSpans, TokensOf, InOrder;
    ranges := [];
    var edits: seq<Span> := [];
    var index := 0;
    NoRanges(toks);
    while index < |toks|
      invariant index <= |toks| && Annotations(toks, ranges, index)
      invariant Ranges(toks, ranges) && edits == CharSpans(toks, ranges)
    {
      if Annotation(toks[index].text) {
        var end := index + 1;
        while end < |toks| && Qualifier(toks[end].text)
          invariant index < end <= |toks| && forall k :: index < k < end ==> Qualifier(toks[k].text)
        {
          end := end + 1;
        }
        ghost var o: nat := end;
        if end == |toks| || toks[end].text != "(" {
          NoAnnotation(toks, index, o);
          AllStuck(toks, ranges, index);
          return Err, ranges;
        }
        OpensAt(toks, index, o);
        LevelOne(toks, o);
        var depth := 1;
        end := end + 1;
        while depth != 0
          invariant o < end <= |toks| && depth == Level(toks, o, end)
          invariant forall k :: o < k < end ==> Level(toks, o, k) > 0
          invariant depth >= 0
          decreases |toks| - end
        {
          if end == |toks| {
            NeverCloses(toks, o);
            NotQualifier(toks[o].text);
            NoAnnotation(toks, index, o);
            AllStuck(toks, ranges, index);
            return Err, ranges;
          }
          LevelNext(toks, o, end);
          if toks[end].text == "(" {
            depth := depth + 1;
          } else if toks[end].text == ")" {
            depth := depth - 1;
          }
          end := end + 1;
        }
        ClosesAt(toks, o, end);
        AnnotationEnds(toks, index, o, end);
        AnnotationsMore(toks, ranges, index, Span(index, end));
        CharSpansSnoc(toks, ranges, Span(index, end));
        edits := edits + [Span(toks[index].start, toks[end - 1].end)];
        ranges := ranges + [Span(index, end)];
        index := end;
      } else {
        AnnotationsPast(toks, ranges, index);
        index := index + 1;
      }
    }
    SpansInSource(source, toks, ranges);
    return Ok(edits), ranges;
  }

  lemma NoRanges(toks: seq<Token>)
    ensures Annotations(toks, [], 0) && Ranges(toks, []) && CharSpans(toks, []) == []
  {
  }

  lemma OpensAt(toks: seq<Token>, i: nat, o: nat)
    requires i < o < |toks| && toks[o].text == "(" && forall k :: i < k < o ==> Qualifier(toks[k].text)
    ensures Opens(toks, i, o)
  {
    hide Qualifier;
  }

  lemma ClosesAt(toks: seq<Token>, o: nat, end: nat)
    requires o < end <= |toks| && Level(toks, o, end) == 0 && forall k :: o < k < end ==> Level(toks, o, k) > 0
    ensures Closes(toks, o, end)
  {
    hide Level;
  }

  lemma LevelNext(toks: seq<Token>, o: nat, k: nat)
    requires o <= k < |toks|
    ensures Level(toks, o, k + 1) == Level(toks, o, k) + if toks[k].text == "(" then 1 else if toks[k].text == ")" then -1 else 0
  {
  }

  lemma AllStuck(toks: seq<Token>, ranges: seq<Span>, i: nat)
    requires Annotations(toks, ranges, i) && i < |toks| && Annotation(toks[i].text)
    requires forall r :: AnnotationAt(toks, r) ==> r.start != i
    ensures forall others :: !Annotations(toks, others, |toks|)
  {
    hide Annotation, AnnotationAt, Annotations;
    forall others
      ensures !Annotations(toks, others, |toks|)
    {
      Stuck(toks, ranges, i, others);
    }
  }

  lemma SpansInSource(source: string, toks: seq<Token>, ranges: seq<Span>)
    requires TokensOf(source, toks) && Annotations(toks, ranges, |toks|) && Ranges(toks, ranges)
    ensures InOrder(CharSpans(toks, ranges), 0, |source|)
  {
    hide AnnotationAt, Annotation, TokensOf, CharSpans, InOrder;
    CharSpansOrdered(source, toks, ranges, |toks|);
    InOrderTo(CharSpans(toks, ranges), 0, CharsEnd(toks, ranges), |source|);
  }
}
