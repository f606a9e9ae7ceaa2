/** `parser_source` as a whole (scripts/codegen/idf_wifi_api_map.py), and the line numbers
    it promises to keep. */
module SourceRewrite {
  import opened TextLines
  import opened Wire

  import opened FunctionBodies
  import opened ParserSource
  import opened SourceEdits

  // ------------------------------------------------------------ preprocessor lines

  /** A line of `splitlines()` once lines that start with `#` and mark no file are emptied. */
  function FilterLine(line: string, isMarker: string -> bool): string {
    if line != "" && line[0] == '#' && !isMarker(line) then "" else line
  }

  /** `splitlines()` drops the break at the end of a line. */
  function LineText(line: string): (t: string)
    ensures |t| <= |line| && t == line[..|t|]
  {
    if |line| >= 2 && line[|line| - 2..] == "\r\n" then line[..|line| - 2]
    else if EndsBroken(line) then line[..|line| - 1]
    else line
  }

  /** The filtered lines, joined by newlines again. */
  function FilterText(s: string, isMarker: string -> bool): string {
    if s == "" then ""
    else
      var n := FirstLine(s);
      var line := FilterLine(LineText(s[..n]), isMarker);
      if n == |s| then line else line + "\n" + FilterText(s[n..], isMarker)
  }

  /** Where a character of a line that is not emptied comes out; breaks have no place. */
  function FilterPosition(s: string, isMarker: string -> bool, p: nat): (q: Option<nat>)
    requires p < |s|
    ensures q.Some? ==> q.value < |FilterText(s, isMarker)|
  {
    var n := FirstLine(s);
    var text := LineText(s[..n]);
    if p < n then
      if p < |text| && FilterLine(text, isMarker) == text then Some(p) else None
    else
      match FilterPosition(s[n..], isMarker, p - n)
      case None => None
      case Some(q) => Some(|FilterLine(text, isMarker)| + 1 + q)
  }

  /** Line breaks in the sense of `splitlines`. */
  function Breaks(s: string): nat {
    if s == "" then 0 else (if BreaksAt(s, 0) then 1 else 0) + Breaks(s[1..])
  }

  lemma {:induction false} BreaksAppend(a: string, b: string)
    requires !(EndsReturn(a) && b != "" && b[0] == '\n')
    ensures Breaks(a + b) == Breaks(a) + Breaks(b)
  {
    hide IsBreak;
    if a == "" {
      assert a + b == b;
    } else {
      BreaksAppend(a[1..], b);
      assert (a + b)[1..] == a[1..] + b;
      assert BreaksAt(a + b, 0) == BreaksAt(a, 0);
    }
  }

  lemma {:induction false} NoBreaks(s: string)
    requires forall k :: 0 <= k < |s| ==> !IsBreak(s[k])
    ensures Breaks(s) == 0 && Newlines(s) == 0
  {
    if s != "" {
      NoBreaks(s[1..]);
    }
  }

  /** The text of a first line holds no break character. */
  lemma TextPlain(line: string)
    requires OneLine(line)
    ensures forall k :: 0 <= k < |LineText(line)| ==> !IsBreak(LineText(line)[k])
  {
    hide IsBreak;
    assert |line| >= 2 ==> line[|line| - 2..] == [line[|line| - 2], line[|line| - 1]];
    forall k | 0 <= k < |line| - 1 && IsBreak(line[k])
      ensures line[k] == '\r' && line[k + 1] == '\n' && k == |line| - 2
    {
      var here := BreaksAt(line, k);
      NewlineLast(line, k + 1);
    }
  }

  lemma NewlineLast(line: string, k: nat)
    requires OneLine(line) && k < |line| && line[k] == '\n'
    ensures k == |line| - 1
  {
    var here := BreaksAt(line, k);
  }

  /** The filter puts every character on the line that `splitlines` counts it on. */
  lemma {:induction false} FilterStays(s: string, isMarker: string -> bool, p: nat)
    requires p < |s| && FilterPosition(s, isMarker, p).Some?
    ensures var q := FilterPosition(s, isMarker, p).value;
            FilterText(s, isMarker)[q] == s[p] && LineOf(FilterText(s, isMarker), q) == Breaks(s[..p])
    decreases |s|
  {
    hide IsBreak, BreaksAt, FirstLine, Newlines, Breaks, FilterLine, LineText;
    var n := FirstLine(s);
    FirstLineIs(s);
    var line := FilterLine(LineText(s[..n]), isMarker);
    if p < n {
      FilterFirst(s, isMarker, p);
    } else {
      FilterStays(s[n..], isMarker, p - n);
      PlainFilterLine(s, n, isMarker);
      NextLine(s, n, line, FilterText(s[n..], isMarker), p, FilterPosition(s[n..], isMarker, p - n).value);
    }
  }

  lemma FilterFirst(s: string, isMarker: string -> bool, p: nat)
    requires p < |s| && p < FirstLine(s) && FilterPosition(s, isMarker, p).Some?
    ensures FilterPosition(s, isMarker, p) == Some(p) && FilterText(s, isMarker)[p] == s[p]
    ensures LineOf(FilterText(s, isMarker), p) == Breaks(s[..p]) == 0
  {
    hide IsBreak, FirstLine, Newlines, Breaks, LineText;
    FirstLineAlone(s);
    var text := LineText(s[..FirstLine(s)]);
    TextPlain(s[..FirstLine(s)]);
    assert FilterText(s, isMarker)[..p] == s[..p] == text[..p];
    NoBreaks(s[..p]);
  }

  lemma PlainFilterLine(s: string, n: nat, isMarker: string -> bool)
    requires s != "" && n == FirstLine(s)
    ensures Newlines(FilterLine(LineText(s[..n]), isMarker)) == 0
  {
    hide IsBreak, FirstLine, Newlines, Breaks, LineText;
    FirstLineAlone(s);
    TextPlain(s[..n]);
    NoBreaks(LineText(s[..n]));
    NoBreaks("");
  }

  /** One line more in front, on both sides. */
  lemma NextLine(s: string, n: nat, line: string, rest: string, p: nat, q: nat)
    requires 1 <= n <= p < |s| && BreaksAt(s, n - 1) && (forall k :: 0 <= k < n - 1 ==> !BreaksAt(s, k))
    requires Newlines(line) == 0 && q < |rest| && rest[q] == s[n..][p - n] && Newlines(rest[..q]) == Breaks(s[n..][..p - n])
    ensures var out := line + "\n" + rest;
            out[|line| + 1 + q] == s[p] && Newlines(out[..|line| + 1 + q]) == Breaks(s[..p])
  {
    hide IsBreak, Newlines, Breaks;
    assert (line + "\n" + rest)[..|line| + 1 + q] == line + "\n" + rest[..q];
    OneNewline(line, rest[..q]);
    assert forall k :: 0 <= k < n - 1 ==> BreaksAt(s[..n], k) == BreaksAt(s, k);
    OneBreak(s[..n]);
    assert s[..p] == s[..n] + s[n..][..p - n];
    BreaksAppend(s[..n], s[n..][..p - n]);
  }

  lemma {:induction false} OneBreak(s: string)
    requires s != "" && IsBreak(s[|s| - 1]) && forall k :: 0 <= k < |s| - 1 ==> !BreaksAt(s, k)
    ensures Breaks(s) == 1
  {
    hide IsBreak;
    if |s| == 1 {
      assert s[1..] == "";
    } else {
      assert s[1..][|s| - 2] == s[|s| - 1];
      BreaksNext(s);
      OneBreak(s[1..]);
    }
  }

  lemma OneNewline(a: string, b: string)
    requires Newlines(a) == 0
    ensures Newlines(a + "\n" + b) == 1 + Newlines(b)
  {
    NewlinesAppend(a + "\n", b);
    NewlinesAppend(a, "\n");
    assert Newlines("\n") == 1 + Newlines("\n"[1..]);
  }

  /** Breaks that a C compiler does not count as line ends. */
  function OddBreaks(s: string): nat {
    if s == "" then 0 else (if BreaksAt(s, 0) && s[0] != '\n' then 1 else 0) + OddBreaks(s[1..])
  }

  lemma {:induction false} BreaksAre(s: string)
    ensures Breaks(s) == Newlines(s) + OddBreaks(s)
  {
    if s != "" {
      BreaksAre(s[1..]);
    }
  }

  /** So the filter keeps a character's line number exactly if no form feed or other
      break that is not a newline stands before it; each one moves it down a line. */
  lemma FilterKeepsLine(s: string, isMarker: string -> bool, p: nat)
    requires p < |s| && FilterPosition(s, isMarker, p).Some?
    ensures var q := FilterPosition(s, isMarker, p).value;
            && FilterText(s, isMarker)[q] == s[p]
            && LineOf(FilterText(s, isMarker), q) == LineOf(s, p) + OddBreaks(s[..p])
  {
    hide IsBreak, FirstLine, Newlines, Breaks, FilterText, FilterPosition, OddBreaks;
    FilterStays(s, isMarker, p);
    BreaksAre(s[..p]);
  }

  lemma FormFeedCounts()
    ensures OddBreaks("a\U{000C}") == 1
  {
    assert OddBreaks("a\U{000C}") == OddBreaks("a\U{000C}"[1..]);
    assert "a\U{000C}"[1..] == "\U{000C}";
    assert OddBreaks("\U{000C}") == 1 + OddBreaks("\U{000C}"[1..]);
  }

  lemma FormFeedPlaces(s: string)
    requires s == "a\U{000C}b"
    ensures FilterPosition(s, _ => false, 2).Some? && s[..2] == "a\U{000C}"
  {
    hide FirstLine;
    FirstLineOf(s, 2);
    assert s[2..] == "b" && s[..2] == "a\U{000C}";
    assert LineText(s[..2]) == "a";
    FirstLineOf("b", 1);
    assert "b"[..1] == "b";
  }

  /** A form feed in the text is enough. */
  lemma FormFeedMovesLines()
    ensures var s := "a\U{000C}b";
            && FilterPosition(s, _ => false, 2).Some?
            && LineOf(FilterText(s, _ => false), FilterPosition(s, _ => false, 2).value) != LineOf(s, 2)
  {
    hide FilterPosition, FilterText, OddBreaks, Newlines, FirstLine, BreaksAt;
    var s := "a\U{000C}b";
    FormFeedPlaces(s);
    FilterKeepsLine(s, _ => false, 2);
    FormFeedCounts();
  }

  // ------------------------------------------------------------- the whole rewriting

  /** One replacement sweep: every span becomes `lead` and its own line breaks. */
  datatype Sweep = Sweep(edits: seq<Span>, lead: string)

  /** Each sweep applies to what the sweeps before it left. */
  predicate Fits(source: string, sweeps: seq<Sweep>)
    decreases |sweeps|, 0
  {
    sweeps != [] ==>
      var before, last := sweeps[..|sweeps| - 1], sweeps[|sweeps| - 1];
      Fits(source, before) && Newlines(last.lead) == 0 && InOrder(last.edits, 0, |Through(source, before)|)
  }

  function Through(source: string, sweeps: seq<Sweep>): string
    requires Fits(source, sweeps)
    decreases |sweeps|, 1
  {
    if sweeps == [] then source
    else
      var before, last := sweeps[..|sweeps| - 1], sweeps[|sweeps| - 1];
      Replaced(Through(source, before), last.edits, last.lead, 0)
  }

  /** Where a position of the source is after the sweeps, if none of them replaces it. */
  function Position(source: string, sweeps: seq<Sweep>, p: nat): (q: Option<nat>)
    requires Fits(source, sweeps) && p < |source|
    ensures q.Some? ==> q.value < |Through(source, sweeps)|
    decreases |sweeps|
  {
    if sweeps == [] then Some(p)
    else
      var before, last := sweeps[..|sweeps| - 1], sweeps[|sweeps| - 1];
      var q := Position(source, before, p);
      if q.None? || !Kept(last.edits, q.value) then None
      else
        var text := Through(source, before);
        KeptStays(text, last.edits, last.lead, 0, q.value);
        Some(NewPosition(text, last.edits, last.lead, 0, q.value))
  }

  /** A character that no sweep replaces comes out unchanged, on its own line. */
  lemma {:induction false} CharacterStays(source: string, sweeps: seq<Sweep>, p: nat)
    requires Fits(source, sweeps) && p < |source| && Position(source, sweeps, p).Some?
    ensures var q := Position(source, sweeps, p).value;
            Through(source, sweeps)[q] == source[p] && LineOf(Through(source, sweeps), q) == LineOf(source, p)
    decreases |sweeps|
  {
    hide Replaced, NewPosition, Kept, InOrder, Newlines;
    if sweeps != [] {
      var before, last := sweeps[..|sweeps| - 1], sweeps[|sweeps| - 1];
      CharacterStays(source, before, p);
      var text, q := Through(source, before), Position(source, before, p).value;
      KeptStays(text, last.edits, last.lead, 0, q);
      assert text[0..q] == text[..q];
    }
  }

  /** No line is added or lost. */
  lemma {:induction false} AllLinesStay(source: string, sweeps: seq<Sweep>)
    requires Fits(source, sweeps)
    ensures Newlines(Through(source, sweeps)) == Newlines(source)
    decreases |sweeps|
  {
    hide Replaced, InOrder, Newlines;
    if sweeps != [] {
      var before, last := sweeps[..|sweeps| - 1], sweeps[|sweeps| - 1];
      AllLinesStay(source, before);
      LinesKept(Through(source, before), last.edits, last.lead, 0);
      assert Through(source, before)[0..] == Through(source, before);
    }
  }

  lemma FitsMore(source: string, sweeps: seq<Sweep>, sweep: Sweep)
    requires Fits(source, sweeps) && Newlines(sweep.lead) == 0 && InOrder(sweep.edits, 0, |Through(source, sweeps)|)
    ensures Fits(source, sweeps + [sweep])
    ensures Through(source, sweeps + [sweep]) == Replaced(Through(source, sweeps), sweep.edits, sweep.lead, 0)
  {
    hide Replaced, InOrder, Newlines;
    assert (sweeps + [sweep])[..|sweeps|] == sweeps;
  }

  function VaList(): string {
    "typedef int __builtin_va_list;"
  }

  function BoolType(): string {
    "typedef _Bool bool;"
  }

  /** The text put in front of the translation unit. */
  function Prelude(usesBool: bool): (s: string)
    ensures Newlines(s) == if usesBool then 2 else 1
  {
    hide VaList, BoolType, Newlines;
    VaListPlain();
    BoolTypePlain();
    PlainLine(VaList());
    PlainLine(BoolType());
    NewlinesAppend(VaList() + "\n", BoolType() + "\n");
    if usesBool then (VaList() + "\n") + (BoolType() + "\n") else VaList() + "\n"
  }

  lemma VaListPlain()
    ensures '\n' !in VaList()
  {
  }

  lemma BoolTypePlain()
    ensures '\n' !in BoolType()
  {
  }

  lemma {:induction false} PlainLine(s: string)
    requires '\n' !in s
    ensures Newlines(s) == 0 && Newlines(s + "\n") == 1
  {
    if s == "" {
      assert s + "\n" == "\n";
    } else {
      PlainLine(s[1..]);
      assert (s + "\n")[1..] == s[1..] + "\n";
    }
  }

  /** Every character below the prelude is moved down by the prelude's lines. */
  lemma BelowPrelude(prelude: string, text: string, q: nat)
    requires q < |text|
    ensures (prelude + text)[|prelude| + q] == text[q]
    ensures LineOf(prelude + text, |prelude| + q) == Newlines(prelude) + LineOf(text, q)
  {
    assert (prelude + text)[..|prelude| + q] == prelude + text[..q];
    NewlinesAppend(prelude, text[..q]);
  }

  // --------------------------------------------------------------------- the method

  /** The occurrences of a word as a regular expression scan or `str.replace` finds them. */
  predicate Occurrences(word: string, text: string, spans: seq<Span>) {
    && InOrder(spans, 0, |text|)
    && forall e :: e in spans ==> e.start <= e.end <= |text| && text[e.start..e.end] == word
  }

  /** The words that `parser_source` rewrites between its two scans. */
  function Words(): seq<(string, string)> {
    [("__extension__", ""), ("__inline", "inline"), ("thread_local", "_Thread_local"), ("__typeof__(nullptr)", "void *")]
  }

  lemma WordPlain(i: nat)
    requires i < 4
    ensures Newlines(Words()[i].1) == 0
  {
    hide Newlines;
    if i == 0 {
      PlainLine("");
    } else if i == 1 {
      PlainLine("inline");
    } else if i == 2 {
      PlainLine("_Thread_local");
    } else {
      PlainLine("void *");
    }
  }

  /** The rewriting sweeps: annotations, then words, then function bodies; every sweep but
      the words' reads its spans off the tokens of the text it is given. */
  ghost predicate RewriteSweeps(source: string, tokenize: string -> seq<Token>, find: (string, string) -> seq<Span>,
                                sweeps: seq<Sweep>) {
    && |sweeps| == 6 && Fits(source, sweeps)
    && (exists ranges :: Annotations(tokenize(source), ranges, |tokenize(source)|) && Ranges(tokenize(source), ranges)
                         && sweeps[0] == Sweep(CharSpans(tokenize(source), ranges), ""))
    && (forall i :: 0 <= i < 4 ==> WordSweep(source, find, sweeps, i))
    && BodySweep(source, tokenize, sweeps)
  }

  ghost predicate WordSweep(source: string, find: (string, string) -> seq<Span>, sweeps: seq<Sweep>, i: nat)
    requires i < 4 && i + 1 < |sweeps|
  {
    Fits(source, sweeps[..i + 1]) && sweeps[i + 1] == Sweep(find(Words()[i].0, Through(source, sweeps[..i + 1])), Words()[i].1)
  }

  ghost predicate BodySweep(source: string, tokenize: string -> seq<Token>, sweeps: seq<Sweep>)
    requires |sweeps| == 6
  {
    && Fits(source, sweeps[..5])
    && var toks := tokenize(Through(source, sweeps[..5]));
       exists ranges :: Bodies(toks, ranges, |toks|) && Ranges(toks, ranges) && sweeps[5] == Sweep(CharSpans(toks, ranges), ";")
  }

  /** The tokens can be read as a sequence of annotations with balanced parentheses. */
  ghost predicate Readable(toks: seq<Token>) {
    exists ranges :: Annotations(toks, ranges, |toks|)
  }

  /** `parser_source`, on the filtered text. */
  method Rewrite(source: string, tokenize: string -> seq<Token>, find: (string, string) -> seq<Span>, usesBool: string -> bool)
    returns (r: Result<string>, ghost sweeps: seq<Sweep>)
    requires forall s :: TokensOf(s, tokenize(s))
    requires forall w, s :: Occurrences(w, s, find(w, s))
    ensures r.Ok? <==> Readable(tokenize(source))
    ensures r.Ok? ==> RewriteSweeps(source, tokenize, find, sweeps)
    ensures r.Ok? ==> r.value == Prelude(usesBool(Through(source, sweeps))) + Through(source, sweeps)
  {
    hide TokensOf, Occurrences, Annotations, Bodies, CharSpans, Ranges, Fits, Through, InOrder, Newlines, Prelude, Replaced, Words;
    sweeps := [];
    var toks := tokenize(source);
    var edits, ranges := FindAnnotations(source, toks);
    if edits.Err? {
      return Err, sweeps;
    }
    var text := ApplyInReverse(source, edits.value, "");
    FirstSweep(source, edits.value);
    sweeps := [Sweep(edits.value, "")];
    var words := Words();
    FourWords();
    for i := 0 to 4
      invariant |sweeps| == i + 1 && Fits(source, sweeps) && text == Through(source, sweeps)
      invariant sweeps[0] == Sweep(edits.value, "")
      invariant forall k :: 0 <= k < i ==> WordSweep(source, find, sweeps, k)
    {
      var spans := find(words[i].0, text);
      OccurrencesOrdered(words[i].0, text, spans);
      WordPlain(i);
      FitsMore(source, sweeps, Sweep(spans, words[i].1));
      WordSweepsKept(source, find, sweeps, Sweep(spans, words[i].1), i);
      text := ApplyInReverse(text, spans, words[i].1);
      sweeps := sweeps + [Sweep(spans, words[i].1)];
    }
    var bodies, found := FindBodies(text, tokenize(text));
    PlainLine(";");
    FitsMore(source, sweeps, Sweep(bodies, ";"));
    WordSweepsKept(source, find, sweeps, Sweep(bodies, ";"), 4);
    text := ApplyInReverse(text, bodies, ";");
    LastSweep(source, tokenize, sweeps, bodies, found);
    sweeps := sweeps + [Sweep(bodies, ";")];
    return Ok(Prelude(usesBool(text)) + text), sweeps;
  }

  lemma FourWords()
    ensures |Words()| == 4
  {
  }

  lemma OccurrencesOrdered(word: string, text: string, spans: seq<Span>)
    requires Occurrences(word, text, spans)
    ensures InOrder(spans, 0, |text|)
  {
  }

  lemma FirstSweep(source: string, edits: seq<Span>)
    requires InOrder(edits, 0, |source|)
    ensures Fits(source, [Sweep(edits, "")]) && Through(source, [Sweep(edits, "")]) == Replaced(source, edits, "", 0)
  {
    hide Replaced, InOrder;
    FitsMore(source, [], Sweep(edits, ""));
    assert [] + [Sweep(edits, "")] == [Sweep(edits, "")];
  }

  lemma WordSweepsKept(source: string, find: (string, string) -> seq<Span>, sweeps: seq<Sweep>, sweep: Sweep, n: nat)
    requires n <= 4 && n < |sweeps| && forall k :: 0 <= k < n ==> WordSweep(source, find, sweeps, k)
    ensures forall k :: 0 <= k < n ==> WordSweep(source, find, sweeps + [sweep], k)
    ensures n < 4 && |sweeps| == n + 1 && Fits(source, sweeps) && sweep == Sweep(find(Words()[n].0, Through(source, sweeps)), Words()[n].1)
            ==> WordSweep(source, find, sweeps + [sweep], n)
  {
    hide Fits, Through, Words;
    forall k | 0 <= k < n
      ensures WordSweep(source, find, sweeps + [sweep], k)
    {
      assert WordSweep(source, find, sweeps, k);
      assert (sweeps + [sweep])[..k + 1] == sweeps[..k + 1] && (sweeps + [sweep])[k + 1] == sweeps[k + 1];
    }
    if |sweeps| == n + 1 {
      assert (sweeps + [sweep])[..n + 1] == sweeps;
    }
  }

  lemma LastSweep(source: string, tokenize: string -> seq<Token>, sweeps: seq<Sweep>, edits: seq<Span>, ranges: seq<Span>)
    requires |sweeps| == 5 && Fits(source, sweeps)
    requires var toks := tokenize(Through(source, sweeps));
             Bodies(toks, ranges, |toks|) && Ranges(toks, ranges) && edits == CharSpans(toks, ranges)
    ensures BodySweep(source, tokenize, sweeps + [Sweep(edits, ";")])
  {
    hide Fits, Through, Bodies, Ranges, CharSpans;
    assert (sweeps + [Sweep(edits, ";")])[..5] == sweeps;
  }

  /** The promise of `parser_source`: whatever it does not replace comes out unchanged, on
      its own line, moved down only by the prelude's one or two lines. */
  lemma RewriteKeepsLines(source: string, sweeps: seq<Sweep>, usesBool: bool, p: nat)
    requires Fits(source, sweeps) && p < |source| && Position(source, sweeps, p).Some?
    ensures var out := Prelude(usesBool) + Through(source, sweeps);
            var q := |Prelude(usesBool)| + Position(source, sweeps, p).value;
            out[q] == source[p] && LineOf(out, q) == LineOf(source, p) + if usesBool then 2 else 1
  {
    hide Fits, Through, Prelude, Position, Newlines;
    CharacterStays(source, sweeps, p);
    BelowPrelude(Prelude(usesBool), Through(source, sweeps), Position(source, sweeps, p).value);
  }

  // ------------------------------------------------------------ parser_source as a whole

  /** `parser_source`: the directive filter, then the rewriting. */
  method ParseSource(source: string, isMarker: string -> bool, tokenize: string -> seq<Token>,
                     find: (string, string) -> seq<Span>, usesBool: string -> bool)
    returns (r: Result<string>, ghost sweeps: seq<Sweep>)
    requires forall s :: TokensOf(s, tokenize(s))
    requires forall w, s :: Occurrences(w, s, find(w, s))
    ensures var text := FilterText(source, isMarker);
            && (r.Ok? <==> Readable(tokenize(text)))
            && (r.Ok? ==>
                  && RewriteSweeps(text, tokenize, find, sweeps)
                  && r.value == Prelude(usesBool(Through(text, sweeps))) + Through(text, sweeps))
  {
    hide TokensOf, Occurrences, Readable, RewriteSweeps, Through, Prelude, FilterText;
    var text := FilterText(source, isMarker);
    r, sweeps := Rewrite(text, tokenize, find, usesBool);
  }

  /** Where a character that neither the filter nor a sweep replaces comes out. */
  function OutPosition(source: string, isMarker: string -> bool, sweeps: seq<Sweep>, usesBool: bool, p: nat): Option<nat>
    requires p < |source| && Fits(FilterText(source, isMarker), sweeps)
  {
    match FilterPosition(source, isMarker, p)
    case None => None
    case Some(f) =>
      match Position(FilterText(source, isMarker), sweeps, f)
      case None => None
      case Some(q) => Some(|Prelude(usesBool)| + q)
  }

  /** The promise of `parser_source`, end to end: such a character comes out unchanged, moved
      down by the prelude and by the breaks before it that are not newlines; so it is on
      its own line below the prelude if and only if there is no such break. */
  lemma ParserKeepsLines(source: string, isMarker: string -> bool, sweeps: seq<Sweep>, usesBool: bool, p: nat)
    requires p < |source| && Fits(FilterText(source, isMarker), sweeps)
    requires OutPosition(source, isMarker, sweeps, usesBool, p).Some?
    ensures var out := Prelude(usesBool) + Through(FilterText(source, isMarker), sweeps);
            var q, lines := OutPosition(source, isMarker, sweeps, usesBool, p).value, if usesBool then 2 else 1;
            && q < |out| && out[q] == source[p] && LineOf(out, q) == LineOf(source, p) + lines + OddBreaks(source[..p])
            && (LineOf(out, q) == LineOf(source, p) + lines
                <==> forall k :: 0 <= k < p && BreaksAt(source[..p], k) ==> source[k] == '\n')
  {
    hide Fits, Through, Prelude, Position, Newlines, FilterText, FilterPosition, OddBreaks, BreaksAt;
    var f := FilterPosition(source, isMarker, p).value;
    FilterKeepsLine(source, isMarker, p);
    RewriteKeepsLines(FilterText(source, isMarker), sweeps, usesBool, f);
    NoOddBreaks(source[..p]);
  }

  lemma {:induction false} NoOddBreaks(s: string)
    ensures OddBreaks(s) == 0 <==> forall k :: 0 <= k < |s| && BreaksAt(s, k) ==> s[k] == '\n'
  {
    hide BreaksAt;
    if s != "" {
      NoOddBreaks(s[1..]);
      BreaksNext(s);
      if OddBreaks(s) == 0 {
        forall k | 0 <= k < |s| && BreaksAt(s, k)
          ensures s[k] == '\n'
        {
          if k > 0 {
            assert BreaksAt(s[1..], k - 1);
          }
        }
      } else if OddBreaks(s[1..]) > 0 {
        var k :| 0 <= k < |s| - 1 && BreaksAt(s[1..], k) && s[1..][k] != '\n';
        assert BreaksAt(s, k + 1);
      }
    }
  }

  // ---------------------------------------------------------- what is left and replaced

  /** A source as the lines before, one line, and the lines after. */
  predicate LineAt(s: string, before: string, line: string, after: string) {
    && s == before + (line + after) && OneLine(line)
    && (before != "" ==> EndsBroken(before) && !(EndsReturn(before) && line[0] == '\n'))
    && (after != "" ==> EndsBroken(line) && !(EndsReturn(line) && after[0] == '\n'))
  }

  lemma FirstOf(s: string, line: string, after: string)
    requires LineAt(s, "", line, after)
    ensures FirstLine(s) == |line| && s[..|line|] == line && s[|line|..] == after
  {
    hide IsBreak, FirstLine;
    assert s == line + after;
    assert forall k :: 0 <= k < |line| - 1 ==> BreaksAt(s, k) == BreaksAt(line, k);
    FirstLineOf(s, |line|);
  }

  /** The lines before begin with a line of their own. */
  lemma BeforeFirst(s: string, before: string, line: string, after: string)
    requires LineAt(s, before, line, after) && before != ""
    ensures FirstLine(s) == FirstLine(before) && LineAt(s[FirstLine(s)..], before[FirstLine(before)..], line, after)
  {
    hide IsBreak, FirstLine;
    var n := FirstLine(before);
    FirstLineIs(before);
    assert s == before + (line + after);
    assert forall k :: 0 <= k < |before| - 1 ==> BreaksAt(s, k) == BreaksAt(before, k);
    assert BreaksAt(before, |before| - 1) && BreaksAt(s, |before| - 1);
    FirstLineOf(s, n);
    assert s[n..] == before[n..] + (line + after);
  }

  /** The directive filter keeps the text of a line unless it begins with `#` and marks no
      file; then nothing of it is left. */
  lemma {:induction false} FilterKeepsText(s: string, isMarker: string -> bool, before: string, line: string, after: string, p: nat)
    requires LineAt(s, before, line, after) && |before| <= p < |before| + |line|
    ensures FilterPosition(s, isMarker, p).Some?
            <==> p < |before| + |LineText(line)| && (line[0] != '#' || isMarker(LineText(line)))
    decreases |before|
  {
    hide IsBreak, FirstLine, LineText, LineAt;
    if before == "" {
      FirstOf(s, line, after);
      TextStarts(line);
    } else {
      BeforeFirst(s, before, line, after);
      FilterKeepsText(s[FirstLine(s)..], isMarker, before[FirstLine(before)..], line, after, p - FirstLine(s));
    }
  }

  lemma TextStarts(line: string)
    requires line != ""
    ensures LineText(line) != "" ==> LineText(line)[0] == line[0]
    ensures LineText(line) == "" ==> line[0] != '#'
  {
  }

  /** The words between the two scans and what becomes of them. */
  lemma WordsReplaced(source: string, tokenize: string -> seq<Token>, find: (string, string) -> seq<Span>, sweeps: seq<Sweep>)
    requires RewriteSweeps(source, tokenize, find, sweeps) && (forall w, s :: Occurrences(w, s, find(w, s)))
    ensures Fits(source, sweeps[..1]) && Fits(source, sweeps[..2]) && Fits(source, sweeps[..3]) && Fits(source, sweeps[..4])
    ensures sweeps[1] == Sweep(find("__extension__", Through(source, sweeps[..1])), "")
    ensures sweeps[2] == Sweep(find("__inline", Through(source, sweeps[..2])), "inline")
    ensures sweeps[3] == Sweep(find("thread_local", Through(source, sweeps[..3])), "_Thread_local")
    ensures sweeps[4] == Sweep(find("__typeof__(nullptr)", Through(source, sweeps[..4])), "void *")
    ensures sweeps[0].lead == "" && sweeps[5].lead == ";"
  {
    hide Fits, Through, Annotations, Ranges, CharSpans, Bodies, Occurrences;
    assert WordSweep(source, find, sweeps, 0) && WordSweep(source, find, sweeps, 1);
    assert WordSweep(source, find, sweeps, 2) && WordSweep(source, find, sweeps, 3);
  }

  /** The lines in front of the translation unit. */
  lemma PreludeSays(usesBool: bool)
    ensures Prelude(usesBool) == "typedef int __builtin_va_list;\n" + if usesBool then "typedef _Bool bool;\n" else ""
  {
  }
}
