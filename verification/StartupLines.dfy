/** The bundle read back as a file: its lines are the comments and the executed lines, and
    running it executes what the entry's run executes. */
module StartupLines {
  import opened TextLines
  import opened Wire

  import opened Startup
  import opened StartupBundler
  import StartupTree

  function Rendered(events: seq<Event>): (ps: seq<string>)
    ensures |ps| == |events|
  {
    if events == [] then [] else Rendered(events[..|events| - 1]) + [Render(events[|events| - 1])]
  }

  /** The entry's comment, then what each event of the run puts into the bundle. */
  function Pieces(entry: string, events: seq<Event>): (ps: seq<string>)
    ensures |ps| == |events| + 1
  {
    [Banner(entry)] + Rendered(events)
  }

  // ------------------------------------------------------------------ the load line

  lemma {:induction false} StripEndIs(s: string) returns (m: nat)
    ensures m <= |s| && StripEnd(s) == s[..m]
    ensures m < |s| ==> s[|s| - 1] in {'\r', '\n'}
    ensures m > 0 ==> s[m - 1] !in {'\r', '\n'}
  {
    m := |s|;
    if s != [] && s[|s| - 1] in {'\r', '\n'} {
      m := StripEndIs(s[..|s| - 1]);
      assert s[..|s| - 1][..m] == s[..m];
    }
  }

  lemma {:induction false} SkipBlanksIs(s: string) returns (j: nat)
    ensures j <= |s| && SkipBlanks(s) == s[j..]
    ensures forall k :: 0 <= k < j ==> s[k] in {' ', '\t'}
  {
    j := 0;
    if s != [] && s[0] in {' ', '\t'} {
      var i := SkipBlanksIs(s[1..]);
      j := i + 1;
      assert s[1..][i..] == s[j..];
      assert forall k :: 0 <= k < |s| - 1 ==> s[1..][k] == s[k + 1];
    }
  }

  predicate NoBreak(t: string) {
    forall k :: 0 <= k < |t| ==> !IsBreak(t[k])
  }

  /** The target within the stripped line. */
  lemma TargetQuoted(s: string, n: nat, i: nat, rest: string)
    requires |s| >= 6 && n + 3 <= |s| - 6 && rest == s[6..][n + 3..]
    requires s[6..][n + 1..n + 3] == ");" && i <= |rest| && rest[i..] == ""
    requires forall k :: 0 <= k < i ==> rest[k] in {' ', '\t'}
    ensures s[6..][..n] == s[6..6 + n] && s[|s| - 1] in {' ', '\t', ';'}
  {
    if rest != "" {
      assert s[|s| - 1] == rest[|rest| - 1];
    } else {
      assert s[|s| - 1] == s[6..][n + 1..n + 3][1];
    }
  }

  /** Where the target stands in its line, and what follows it. */
  lemma TargetAt(line: string) returns (o: nat)
    requires LoadTarget(line).Some?
    ensures var q := LoadTarget(line).value; o + |q| + 3 <= |line| && line[o..o + |q|] == q
    ensures line[|line| - 1] in {'\r', '\n', ' ', '\t', ';'}
  {
    hide LoadTarget, StripEnd, SkipBlanks;
    var s, n := LoadParts(line);
    var m := StripEndIs(line);
    var j := SkipBlanksIs(line[..m]);
    assert s == line[j..m];
    var i := SkipBlanksIs(s[6..][n + 3..]);
    TargetQuoted(s, n, i, s[6..][n + 3..]);
    o := j + 6;
    assert s[6..6 + n] == line[o..o + n];
    if m == |line| {
      assert s[|s| - 1] == line[|line| - 1];
    }
  }

  lemma LoadParts(line: string) returns (s: string, n: nat)
    requires LoadTarget(line).Some?
    ensures s == SkipBlanks(StripEnd(line)) && |s| >= 6 && n + 3 <= |s| - 6 && LoadTarget(line).value == s[6..][..n]
    ensures s[6..][n + 1..n + 3] == ");" && SkipBlanks(s[6..][n + 3..]) == ""
  {
    hide StripEnd, SkipBlanks, PathLength;
    s := SkipBlanks(StripEnd(line));
    n := PathLength(s[6..]);
  }

  lemma TargetPlain(line: string)
    requires OneLine(line) && '\r' !in line && LoadTarget(line).Some?
    ensures NoBreak(LoadTarget(line).value)
    ensures EndsBroken(line) ==> EndsLine(line)
  {
    hide LoadTarget;
    PlainBreaks(line);
    var q := LoadTarget(line).value;
    var o := TargetAt(line);
    forall k | 0 <= k < |q|
      ensures !IsBreak(q[k])
    {
      assert q[k] == line[o..o + |q|][k];
    }
  }

  lemma NewlineKeepsLoad(line: string)
    ensures LoadTarget(line + "\n") == LoadTarget(line)
  {
    assert (line + "\n")[..|line|] == line;
  }

  lemma BannerNotLoad(path: string)
    ensures LoadTarget(Banner(path)).None?
  {
    var m := StripEndIs(Banner(path));
    if m > 0 {
      assert StripEnd(Banner(path))[0] == '/';
    }
  }

  lemma BannerLines(path: string)
    ensures EndsBroken(Banner(path)) && !EndsReturn(Banner(path)) && (OneLine(Banner(path)) <==> NoBreak(path))
  {
    var b := Banner(path);
    assert b == "/* bundled from " + path + " */\n";
    if NoBreak(path) {
      forall k | 0 <= k < |b| - 1
        ensures !BreaksAt(b, k)
      {
        if 16 <= k < 16 + |path| {
          assert b[k] == path[k - 16];
        }
      }
    } else {
      var k :| 0 <= k < |path| && IsBreak(path[k]);
      assert b[16 + k] == path[k];
      assert BreaksAt(b, 16 + k) || BreaksAt(b, 17 + k);
    }
  }

  // -------------------------------------------------------- the pieces of a bundle

  /** A line that is completed, although it ends with a break that is not a newline. */
  predicate Untidy(e: Event) {
    e.Emit? && e.last && EndsBroken(e.line) && !EndsLine(e.line)
  }

  lemma RenderedLines(files: Files, inlined: set<string>, e: Event)
    requires StartupTree.OfSource(files, inlined, e) && ReadTexts(files)
    ensures EndsBroken(Render(e)) && !EndsReturn(Render(e)) && (OneLine(Render(e)) <==> !Untidy(e))
  {
    hide Loads, LoadTarget, Banner, IsBreak, BreaksAt, SplitLines;
    var line := LinesOf(files, e.from)[e.index];
    LinesShape(files[e.from], e.index);
    NewlineBreaks();
    PlainBreaks(line);
    PlainBreaks(line + "\n");
    if e.Load? {
      LoadedPlain(inlined, line);
      BannerLines(e.target);
    } else if Untidy(e) {
      assert (line + "\n")[|line| - 1] == line[|line| - 1];
    }
  }

  lemma NewlineBreaks()
    ensures IsBreak('\n')
  {
  }

  lemma LoadedPlain(inlined: set<string>, line: string)
    requires OneLine(line) && '\r' !in line && Loads(inlined, line).Some?
    ensures NoBreak(Loads(inlined, line).value)
  {
    hide LoadTarget;
    TargetPlain(line);
  }

  predicate AllOfSource(files: Files, inlined: set<string>, events: seq<Event>) {
    forall e :: e in events ==> StartupTree.OfSource(files, inlined, e)
  }

  lemma RunOfSource(files: Files, inlined: set<string>, path: string, events: seq<Event>)
    requires Runs(files, inlined, path, events)
    ensures AllOfSource(files, inlined, events)
  {
    hide Trace, StartupTree.OfSource, StartupTree.Reaches;
    var fuel: nat :| Trace(files, inlined, path, fuel) == Some(events);
    forall e | e in events
      ensures StartupTree.OfSource(files, inlined, e)
    {
      var k: nat :| k < |events| && events[k] == e;
      var c := StartupTree.RunReaches(files, inlined, path, fuel, k);
    }
  }

  predicate AllTidy(events: seq<Event>) {
    forall e :: e in events ==> !Untidy(e)
  }

  function LinesOfAll(events: seq<Event>): seq<string> {
    if events == [] then [] else LinesOfAll(events[..|events| - 1]) + SplitLines(Render(events[|events| - 1]))
  }

  lemma {:induction false} BundleSplits(files: Files, inlined: set<string>, entry: string, events: seq<Event>)
    requires AllOfSource(files, inlined, events) && ReadTexts(files)
    ensures EndsBroken(Banner(entry) + RenderAll(events)) && !EndsReturn(Banner(entry) + RenderAll(events))
    ensures SplitLines(Banner(entry) + RenderAll(events)) == SplitLines(Banner(entry)) + LinesOfAll(events)
  {
    hide Banner, Render, RenderAll, LinesOfAll, SplitLines, EndsBroken, EndsReturn, ReadTexts, StartupTree.OfSource;
    BannerLines(entry);
    if events == [] {
      NothingRendered();
      assert Banner(entry) + RenderAll(events) == Banner(entry);
    } else {
      var before, e := events[..|events| - 1], events[|events| - 1];
      BundleSplits(files, inlined, entry, before);
      RenderedLines(files, inlined, e);
      RenderedLast(events);
      var text := Banner(entry) + RenderAll(before);
      SplitAppend(text, Render(e));
      EndsBrokenAppend(text, Render(e));
      Regroup(Banner(entry), RenderAll(before), Render(e));
    }
  }

  lemma NothingRendered()
    ensures RenderAll([]) == "" && LinesOfAll([]) == []
  {
  }

  lemma RenderedLast(events: seq<Event>)
    requires events != []
    ensures var before, e := events[..|events| - 1], events[|events| - 1];
            RenderAll(events) == RenderAll(before) + Render(e) && LinesOfAll(events) == LinesOfAll(before) + SplitLines(Render(e))
  {
    hide Render, SplitLines;
  }

  lemma EndsBrokenAppend(a: string, b: string)
    requires EndsBroken(b) && !EndsReturn(b)
    ensures EndsBroken(a + b) && !EndsReturn(a + b)
  {
  }

  lemma Regroup(a: string, b: string, c: string)
    ensures a + (b + c) == (a + b) + c
  {
  }

  lemma {:induction false} LinesAreRendered(files: Files, inlined: set<string>, events: seq<Event>)
    requires AllOfSource(files, inlined, events) && ReadTexts(files)
    ensures AllTidy(events) ==> LinesOfAll(events) == Rendered(events)
    ensures |LinesOfAll(events)| >= |events| && (|LinesOfAll(events)| == |events| ==> AllTidy(events))
  {
    hide Render, SplitLines, StartupTree.OfSource, Untidy, ReadTexts, EndsReturn;
    if events != [] {
      var before, e := events[..|events| - 1], events[|events| - 1];
      LinesAreRendered(files, inlined, before);
      RenderedLines(files, inlined, e);
      LineCount(Render(e));
      assert AllTidy(events) <==> AllTidy(before) && !Untidy(e) by {
        assert events == before + [e];
      }
    }
  }

  lemma LineCount(t: string)
    requires EndsBroken(t)
    ensures OneLine(t) ==> SplitLines(t) == [t]
    ensures |SplitLines(t)| >= 1 && (|SplitLines(t)| == 1 ==> OneLine(t))
  {
    hide SplitLines, IsBreak, BreaksAt;
    LastLineEnds(t);
    if OneLine(t) {
      OneLineSplits(t);
    } else {
      var k :| 0 <= k < |t| - 1 && BreaksAt(t, k);
      ManyLines(t, k);
    }
  }

  /** The bundle's lines are the comments and the run's lines, one for each event, exactly
      when no comment and no completed line breaks inside. */
  lemma BundleLines(files: Files, inlined: set<string>, entry: string, events: seq<Event>)
    requires Runs(files, inlined, entry, events) && ReadTexts(files)
    ensures SplitLines(Banner(entry) + RenderAll(events)) == Pieces(entry, events) <==> NoBreak(entry) && AllTidy(events)
  {
    hide Runs, SplitLines, Banner, Rendered, RenderAll, AllOfSource, AllTidy, LinesOfAll, ReadTexts;
    RunOfSource(files, inlined, entry, events);
    BundleSplits(files, inlined, entry, events);
    LinesAreRendered(files, inlined, events);
    BannerLines(entry);
    LineCount(Banner(entry));
  }

  lemma FirstLineRun(files: Files, inlined: set<string>, path: string, e: Event)
    requires path in files && |LinesOf(files, path)| == 1 && TraceLine(files, inlined, path, 0, 0) == Some([e])
    ensures Runs(files, inlined, path, [e])
  {
    hide LinesOf, TraceLine;
    assert TraceTo(files, inlined, path, 0, 0) == Some([]);
    assert [] + [e] == [e];
    assert TraceTo(files, inlined, path, 1, 0) == Some([e]);
    assert Trace(files, inlined, path, 1) == Some([e]);
  }

  /** A run of a one-line file. */
  lemma OneLineRun(name: string, line: string) returns (files: Files, events: seq<Event>)
    requires OneLine(line) && LoadTarget(line).None? && '\r' !in line
    ensures files == map[name := line] && events == [Emit(name, 0, line, true)] && ReadTexts(files)
    ensures Runs(files, {}, name, events) && LoadsEachOnce({}, events)
  {
    hide SplitLines, LoadTarget, OneLine;
    files, events := map[name := line], [Emit(name, 0, line, true)];
    OneLineSplits(line);
    assert LinesOf(files, name) == [line];
    EmitStep(files, {}, name, 0, 0);
    FirstLineRun(files, {}, name, events[0]);
  }

  /** A file may end with a form feed; completing that line splits it in the bundle. */
  lemma FormFeedSplits() returns (files: Files, events: seq<Event>)
    ensures Runs(files, {}, "main.js", events) && LoadsEachOnce({}, events) && ReadTexts(files)
    ensures SplitLines(Banner("main.js") + RenderAll(events)) != Pieces("main.js", events)
  {
    hide SplitLines, Runs;
    files, events := OneLineRun("main.js", "a\U{000C}");
    assert events[0] in events && Untidy(events[0]);
    BundleLines(files, {}, "main.js", events);
  }

  /** So does an entry name with a carriage return, whatever the files hold. */
  lemma CarriageReturnSplits() returns (files: Files, events: seq<Event>)
    ensures Runs(files, {}, "a\rb.js", events) && LoadsEachOnce({}, events) && ReadTexts(files) && AllTidy(events)
    ensures SplitLines(Banner("a\rb.js") + RenderAll(events)) != Pieces("a\rb.js", events)
  {
    hide SplitLines, Runs;
    files, events := OneLineRun("a\rb.js", "x\n");
    assert IsBreak("a\rb.js"[1]);
    BundleLines(files, {}, "a\rb.js", events);
  }

  // ------------------------------------------------------- a check on the files alone

  /** The text does not end with a break that is not a newline. */
  predicate Tidy(t: string) {
    EndsBroken(t) ==> EndsLine(t)
  }

  predicate TidySources(files: Files, inlined: set<string>, entry: string) {
    && NoBreak(entry)
    && forall f :: f in files && StartupTree.Node(inlined, entry, f) ==> Tidy(files[f])
  }

  lemma UntidyFile(files: Files, inlined: set<string>, f: string)
    requires f in files && !Tidy(files[f]) && ReadTexts(files)
    ensures LinesOf(files, f) != [] && Untidy(StartupTree.LineEvent(files, inlined, f, |LinesOf(files, f)| - 1))
  {
    hide SplitLines, LoadTarget, IsBreak;
    LastLineEnds(files[f]);
    var i := |LinesOf(files, f)| - 1;
    LinesShape(files[f], i);
    if Loads(inlined, LinesOf(files, f)[i]).Some? {
      TargetPlain(LinesOf(files, f)[i]);
    }
  }

  lemma UntidyEvent(files: Files, inlined: set<string>, e: Event)
    requires StartupTree.OfSource(files, inlined, e) && Untidy(e)
    ensures !Tidy(files[e.from])
  {
    hide SplitLines, Loads, IsBreak;
    if files[e.from] == "" {
      NothingSplits("");
    }
    LastLineEnds(files[e.from]);
  }

  /** The same condition, as one that can be checked before bundling. */
  lemma TidyRuns(files: Files, inlined: set<string>, entry: string, events: seq<Event>)
    requires Runs(files, inlined, entry, events) && LoadsEachOnce(inlined, events) && ReadTexts(files)
    ensures NoBreak(entry) && AllTidy(events) <==> TidySources(files, inlined, entry)
  {
    hide Trace, StartupTree.OfSource, StartupTree.Reaches, StartupTree.Node, StartupTree.LineEvent, Untidy, Tidy, LoadsEachOnce,
      NoBreak, LinesOf, ReadTexts;
    var fuel: nat :| Trace(files, inlined, entry, fuel) == Some(events);
    forall f | f in files && StartupTree.Node(inlined, entry, f) && !Tidy(files[f])
      ensures !AllTidy(events)
    {
      UntidyFile(files, inlined, f);
      var c := StartupTree.NodeReached(files, inlined, entry, fuel, f);
      StartupTree.RunCovers(files, inlined, entry, fuel, c, f, |LinesOf(files, f)| - 1);
    }
    forall e | e in events && Untidy(e)
      ensures !TidySources(files, inlined, entry)
    {
      var k: nat :| k < |events| && events[k] == e;
      var c := StartupTree.RunReaches(files, inlined, entry, fuel, k);
      StartupTree.ChainNode(files, inlined, entry, c, e.from);
      SourceThere(files, inlined, e);
      UntidyEvent(files, inlined, e);
    }
  }

  lemma SourceThere(files: Files, inlined: set<string>, e: Event)
    requires StartupTree.OfSource(files, inlined, e)
    ensures e.from in files
  {
  }

  // ------------------------------------------------------- running the bundle again

  /** The text would end a block comment. */
  predicate HasEnd(t: string) {
    exists k :: 0 <= k < |t| - 1 && EndsAt(t, k)
  }

  predicate EndsAt(t: string, k: nat)
    requires k + 1 < |t|
  {
    t[k] == '*' && t[k + 1] == '/'
  }

  /** One block comment and nothing else: its first end is the end of the line. */
  predicate ClosedComment(line: string) {
    && |line| >= 5 && line[0] == '/' && line[1] == '*' && EndsAt(line, |line| - 3) && line[|line| - 1] == '\n'
    && forall k :: 2 <= k < |line| - 3 ==> !EndsAt(line, k)
  }

  predicate IsComment(line: string) {
    |line| >= 20 && line[..16] == "/* bundled from " && ClosedComment(line)
  }

  /** The lines without the `bundled from` comments. */
  function Uncommented(lines: seq<string>): seq<string> {
    if lines == [] then []
    else
      Uncommented(lines[..|lines| - 1]) + if IsComment(lines[|lines| - 1]) then [] else [lines[|lines| - 1]]
  }

  /** The lines a run executes, the last line of a file completed. */
  function Executed(events: seq<Event>): seq<string> {
    if events == [] then []
    else
      Executed(events[..|events| - 1])
      + if events[|events| - 1].Emit? then [Render(events[|events| - 1])] else []
  }

  /** The comment that introduces a file is one if and only if the file's name ends none. */
  lemma BannerIsComment(path: string)
    ensures IsComment(Banner(path)) <==> !HasEnd(path)
  {
    var b := Banner(path);
    assert b == "/* bundled from " + path + " */\n";
    assert b[..16] == "/* bundled from ";
    assert forall k :: 16 <= k < 16 + |path| ==> b[k] == path[k - 16];
    if HasEnd(path) {
      var k :| 0 <= k < |path| - 1 && EndsAt(path, k);
      assert EndsAt(b, k + 16);
    } else {
      forall k | 2 <= k < |b| - 3
        ensures !EndsAt(b, k)
      {
        assert 16 <= k < 15 + |path| ==> !EndsAt(path, k - 16);
      }
    }
  }

  lemma UncommentedSnoc(lines: seq<string>, line: string)
    ensures Uncommented(lines + [line]) == Uncommented(lines) + if IsComment(line) then [] else [line]
  {
    hide IsComment;
    assert (lines + [line])[..|lines|] == lines;
  }

  /** The loads whose comment does not stay one. */
  function OpenLoads(events: seq<Event>): nat {
    if events == [] then 0
    else
      OpenLoads(events[..|events| - 1])
      + if events[|events| - 1].Load? && HasEnd(events[|events| - 1].target) then 1 else 0
  }

  lemma {:induction false} PiecesUncommented(entry: string, events: seq<Event>)
    ensures var open := (if HasEnd(entry) then 1 else 0) + OpenLoads(events);
            && |Uncommented(Pieces(entry, events))| == |Uncommented(Executed(events))| + open
            && (open == 0 ==> Uncommented(Pieces(entry, events)) == Uncommented(Executed(events)))
  {
    hide Banner, IsComment, Uncommented, HasEnd;
    if events == [] {
      assert Pieces(entry, events) == [] + [Banner(entry)];
      UncommentedSnoc([], Banner(entry));
      BannerIsComment(entry);
      NothingUncommented();
    } else {
      var before, e := events[..|events| - 1], events[|events| - 1];
      PiecesUncommented(entry, before);
      assert Pieces(entry, events) == Pieces(entry, before) + [Render(e)];
      UncommentedSnoc(Pieces(entry, before), Render(e));
      if e.Load? {
        BannerIsComment(e.target);
        assert Executed(events) == Executed(before);
      } else {
        UncommentedSnoc(Executed(before), Render(e));
      }
    }
  }

  lemma NothingUncommented()
    ensures Uncommented([]) == []
  {
  }

  /** No name that gets a comment ends one. */
  predicate NamesClosed(inlined: set<string>, entry: string) {
    !HasEnd(entry) && forall f :: f in inlined ==> !HasEnd(f)
  }

  lemma {:induction false} OpenLoad(events: seq<Event>, k: nat)
    requires k < |events| && events[k].Load? && HasEnd(events[k].target)
    ensures OpenLoads(events) > 0
  {
    hide HasEnd;
    if k < |events| - 1 {
      OpenLoad(events[..|events| - 1], k);
    }
  }

  lemma {:induction false} NoOpenLoad(files: Files, inlined: set<string>, events: seq<Event>)
    requires AllOfSource(files, inlined, events) && forall f :: f in inlined ==> !HasEnd(f)
    ensures OpenLoads(events) == 0
  {
    hide HasEnd, LoadTarget, LinesOf;
    if events != [] {
      assert events[|events| - 1] in events;
      NoOpenLoad(files, inlined, events[..|events| - 1]);
    }
  }

  lemma {:induction false} LoadFound(events: seq<Event>, q: string) returns (k: nat)
    requires LoadCount(events, q) > 0
    ensures k < |events| && events[k].Load? && events[k].target == q
  {
    k := |events| - 1;
    if !(events[k].Load? && events[k].target == q) {
      k := LoadFound(events[..|events| - 1], q);
    }
  }

  /** A bundle without its comments is what the run executes, without such comments of its
      own, exactly when no name of a bundled file ends a comment. */
  lemma OnlyCommentsAdded(files: Files, inlined: set<string>, entry: string, events: seq<Event>)
    requires Runs(files, inlined, entry, events) && LoadsEachOnce(inlined, events)
    ensures Uncommented(Pieces(entry, events)) == Uncommented(Executed(events)) <==> NamesClosed(inlined, entry)
  {
    hide Runs, Uncommented, Pieces, Executed, HasEnd, OpenLoads, AllOfSource;
    RunOfSource(files, inlined, entry, events);
    PiecesUncommented(entry, events);
    if NamesClosed(inlined, entry) {
      NoOpenLoad(files, inlined, events);
    } else if !HasEnd(entry) {
      var f :| f in inlined && HasEnd(f);
      var k := LoadFound(events, f);
      OpenLoad(events, k);
    }
  }

  // The name "a*/b.js" makes code of the rest of its comment.
  lemma NameEndsComment() returns (files: Files, events: seq<Event>)
    ensures Runs(files, {}, "a*/b.js", events) && LoadsEachOnce({}, events) && TidySources(files, {}, "a*/b.js")
    ensures !ClosedComment(Banner("a*/b.js")) && Uncommented(Pieces("a*/b.js", events)) != Uncommented(Executed(events))
  {
    hide Runs, Uncommented, Pieces, Executed, ClosedComment;
    files, events := OneLineRun("a*/b.js", "x\n");
    assert EndsAt("a*/b.js", 1);
    BannerIsComment("a*/b.js");
    assert Banner("a*/b.js")[..16] == "/* bundled from ";
    OnlyCommentsAdded(files, {}, "a*/b.js", events);
  }

  /** A run stops at the last line of some file, or at a comment. */
  lemma {:induction false} LastEvent(files: Files, inlined: set<string>, path: string, fuel: nat)
    requires Trace(files, inlined, path, fuel).Some? && Trace(files, inlined, path, fuel).value != []
    ensures var events := Trace(files, inlined, path, fuel).value;
            events[|events| - 1].Emit? ==> events[|events| - 1].last
    decreases fuel
  {
    hide LinesOf, Loads;
    var n := |LinesOf(files, path)|;
    LineEnds(files, inlined, path, n, n - 1, fuel - 1);
    LineTarget(files, inlined, path, n - 1, fuel - 1);
    var target := Loads(inlined, LinesOf(files, path)[n - 1]);
    if target.Some? && Trace(files, inlined, target.value, fuel - 1).value != [] {
      LastEvent(files, inlined, target.value, fuel - 1);
    }
  }

  lemma {:induction false} PieceAt(entry: string, events: seq<Event>, k: nat)
    requires k <= |events|
    ensures Pieces(entry, events)[k] == if k == 0 then Banner(entry) else Render(events[k - 1])
  {
    hide Banner, Render;
    if 0 < k < |events| {
      var before := events[..|events| - 1];
      PieceAt(entry, before, k);
      assert Pieces(entry, events) == Pieces(entry, before) + [Render(events[|events| - 1])];
    }
  }

  /** Nothing in a bundle is a load line any more. */
  lemma PieceNotLoad(files: Files, inlined: set<string>, entry: string, events: seq<Event>, k: nat)
    requires AllOfSource(files, inlined, events) && k <= |events|
    ensures Loads(inlined, Pieces(entry, events)[k]).None?
  {
    hide LoadTarget, Banner, LinesOf, Pieces;
    PieceAt(entry, events, k);
    BannerNotLoad(entry);
    if k > 0 {
      var e := events[k - 1];
      assert e in events;
      match e
      case Load(_, _, target) => BannerNotLoad(target);
      case Emit(_, _, line, _) => NewlineKeepsLoad(line);
    }
  }

  lemma {:induction false} PlainRun(files: Files, inlined: set<string>, name: string, n: nat)
    requires name in files && n <= |LinesOf(files, name)|
    requires forall k :: 0 <= k < |LinesOf(files, name)| ==> Loads(inlined, LinesOf(files, name)[k]).None?
    requires forall k :: k == |LinesOf(files, name)| - 1 && k >= 0 ==> EndsLine(LinesOf(files, name)[k])
    ensures TraceTo(files, inlined, name, n, 0).Some? && Executed(TraceTo(files, inlined, name, n, 0).value) == LinesOf(files, name)[..n]
  {
    hide LinesOf, Loads, EndsLine, TraceLine, Executed, Render, RenderAll;
    NothingExecuted();
    if n > 0 {
      PlainRun(files, inlined, name, n - 1);
      var before := TraceTo(files, inlined, name, n - 1, 0).value;
      var line := LinesOf(files, name)[n - 1];
      var e := Emit(name, n - 1, line, n - 1 == |LinesOf(files, name)| - 1);
      EmitStep(files, inlined, name, n - 1, 0);
      ExecutedSnoc(before, e);
      RenderWhole(e);
      assert LinesOf(files, name)[..n] == LinesOf(files, name)[..n - 1] + [line];
    }
  }

  lemma NothingExecuted()
    ensures Executed([]) == []
  {
  }

  lemma RenderWhole(e: Event)
    requires e.Emit? && (e.last ==> EndsLine(e.line))
    ensures Render(e) == e.line
  {
  }

  lemma ExecutedSnoc(before: seq<Event>, e: Event)
    requires e.Emit?
    ensures Executed(before + [e]) == Executed(before) + [Render(e)]
  {
    hide Render;
    assert (before + [e])[..|before|] == before;
  }

  /** Meaning kept: the bundle, put anywhere and run as one file, executes the lines the
      entry's run executes, in the same order; only closed comments are added. */
  lemma BundlePreservesMeaning(files: Files, inlined: set<string>, entry: string, events: seq<Event>, name: string) returns (again: seq<Event>)
    requires Runs(files, inlined, entry, events) && LoadsEachOnce(inlined, events)
    requires ReadTexts(files) && TidySources(files, inlined, entry) && NamesClosed(inlined, entry)
    ensures Runs(files[name := Banner(entry) + RenderAll(events)], inlined, name, again)
    ensures Executed(again) == Pieces(entry, events)
    ensures Uncommented(Executed(again)) == Uncommented(Executed(events))
  {
    hide Trace, SplitLines, Loads, Banner, RenderAll, Pieces, Executed, Uncommented, EndsLine, TidySources, LoadsEachOnce,
      AllOfSource, AllTidy, NoBreak, Render, ReadTexts, NamesClosed;
    var bundle := Banner(entry) + RenderAll(events);
    var placed := files[name := bundle];
    TidyRuns(files, inlined, entry, events);
    BundleLines(files, inlined, entry, events);
    RunOfSource(files, inlined, entry, events);
    forall k | 0 <= k < |LinesOf(placed, name)|
      ensures Loads(inlined, LinesOf(placed, name)[k]).None?
    {
      PieceNotLoad(files, inlined, entry, events, k);
    }
    LastPiece(files, inlined, entry, events);
    PlainRun(placed, inlined, name, |events| + 1);
    again := TraceTo(placed, inlined, name, |events| + 1, 0).value;
    WholeRun(placed, inlined, name);
    OnlyCommentsAdded(files, inlined, entry, events);
    assert Pieces(entry, events)[..|events| + 1] == Pieces(entry, events);
  }

  lemma WholeRun(files: Files, inlined: set<string>, name: string)
    requires name in files && TraceTo(files, inlined, name, |LinesOf(files, name)|, 0).Some?
    ensures Runs(files, inlined, name, TraceTo(files, inlined, name, |LinesOf(files, name)|, 0).value)
  {
    hide LinesOf, TraceTo;
    assert Trace(files, inlined, name, 1).Some?;
  }

  lemma LastPiece(files: Files, inlined: set<string>, entry: string, events: seq<Event>)
    requires Runs(files, inlined, entry, events)
    ensures EndsLine(Pieces(entry, events)[|events|])
  {
    hide Trace, Pieces;
    var fuel: nat :| Trace(files, inlined, entry, fuel) == Some(events);
    PieceAt(entry, events, |events|);
    if events != [] {
      LastEvent(files, inlined, entry, fuel);
    }
  }
}
