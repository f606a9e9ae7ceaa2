/** `bundle_startup` and its inner `expand` (scripts/codegen/startup.py): a recursive
    expansion that shares one `included` counter. */
module StartupBundler {
  import opened Wire

  import opened Startup

  /** `"".join` */
  function JoinStrings(ss: seq<string>): string {
    if ss == [] then "" else JoinStrings(ss[..|ss| - 1]) + ss[|ss| - 1]
  }

  function Finish(s: string): string {
    if EndsLine(s) then s else s + "\n"
  }

  /** The output list with its last entry completed by a newline. */
  function FinishLast(ss: seq<string>): seq<string>
    requires ss != []
  {
    ss[..|ss| - 1] + [Finish(ss[|ss| - 1])]
  }

  lemma FinishIs(raw: seq<string>, done: seq<string>)
    requires raw != []
    requires done == if EndsLine(raw[|raw| - 1]) then raw else raw[|raw| - 1 := raw[|raw| - 1] + "\n"]
    ensures done == FinishLast(raw)
  {
  }

  lemma JoinAppend(ss: seq<string>, s: string)
    ensures JoinStrings(ss + [s]) == JoinStrings(ss) + s
  {
    assert (ss + [s])[..|ss|] == ss;
  }

  lemma FinishAppend(ss: seq<string>, s: string)
    ensures JoinStrings(FinishLast(ss + [s])) == JoinStrings(ss) + Finish(s)
    ensures EndsLine(JoinStrings(FinishLast(ss + [s])))
  {
    assert (ss + [s])[..|ss|] == ss;
    JoinAppend(ss, Finish(s));
    assert FinishLast(ss + [s]) == ss + [Finish(s)];
  }

  function CountOf(included: map<string, nat>, q: string): nat {
    if q in included then included[q] else 0
  }

  /** The counters moved from `before` to `after` by exactly the loads of a run. */
  ghost predicate Counted(before: map<string, nat>, after: map<string, nat>, events: seq<Event>) {
    forall q :: CountOf(after, q) == CountOf(before, q) + LoadCount(events, q)
  }

  predicate Positive(included: map<string, nat>, inlined: set<string>) {
    forall q :: q in included ==> q in inlined && included[q] >= 1
  }

  lemma CountedAppend(a: map<string, nat>, b: map<string, nat>, c: map<string, nat>, x: seq<Event>, y: seq<Event>)
    requires Counted(a, b, x) && Counted(b, c, y)
    ensures Counted(a, c, x + y)
  {
    forall q
      ensures CountOf(c, q) == CountOf(a, q) + LoadCount(x + y, q)
    {
      LoadCountAppend(x, y, q);
    }
  }

  lemma CountLoad(before: map<string, nat>, path: string, i: nat, target: string)
    ensures Counted(before, before[target := CountOf(before, target) + 1], [Load(path, i, target)])
  {
    var e := Load(path, i, target);
    forall q
      ensures LoadCount([e], q) == if q == target then 1 else 0
    {
      assert LoadCount([e], q) == LoadCount([e][..0], q) + if q == target then 1 else 0;
    }
  }

  lemma CountEmit(before: map<string, nat>, e: Event)
    requires e.Emit?
    ensures Counted(before, before, [e])
  {
    forall q
      ensures LoadCount([e], q) == 0
    {
      assert LoadCount([e], q) == LoadCount([e][..0], q);
    }
  }

  function Elements(stack: seq<string>): set<string> {
    set s | s in stack
  }

  /** The expansion state of one file after some of its lines. */
  ghost predicate Expanded(files: Files, inlined: set<string>, path: string, i: nat, fuel: nat, events: seq<Event>,
                           output: seq<string>)
    requires path in files && i <= |LinesOf(files, path)|
  {
    && output != []
    && TraceTo(files, inlined, path, i, fuel) == Some(events)
    && (i < |LinesOf(files, path)| ==> JoinStrings(output) == Banner(path) + RenderAll(events))
    && (i == |LinesOf(files, path)| ==>
          JoinStrings(FinishLast(output)) == Banner(path) + RenderAll(events) && EndsLine(JoinStrings(FinishLast(output))))
  }

  lemma StartExpanded(files: Files, inlined: set<string>, path: string)
    requires path in files
    ensures Expanded(files, inlined, path, 0, 0, [], [Banner(path)])
  {
    hide LinesOf, Banner;
    JoinAppend([], Banner(path));
    FinishAppend([], Banner(path));
    assert [] + [Banner(path)] == [Banner(path)];
    BannerEnds(path);
  }

  lemma BannerEnds(path: string)
    ensures EndsLine(Banner(path)) && RenderAll([]) == ""
  {
  }

  /** One more line: its events, and the text put into the output for it. */
  lemma StepExpanded(files: Files, inlined: set<string>, path: string, i: nat, fuel: nat, events: seq<Event>,
                     output: seq<string>, more: nat, added: seq<Event>, piece: string)
    requires path in files && i < |LinesOf(files, path)|
    requires Expanded(files, inlined, path, i, fuel, events, output)
    requires fuel <= more && TraceLine(files, inlined, path, i, more) == Some(added)
    requires RenderAll(added) == if i == |LinesOf(files, path)| - 1 then Finish(piece) else piece
    ensures Expanded(files, inlined, path, i + 1, more, events + added, output + [piece])
  {
    hide LinesOf, Banner, TraceLine, RenderAll, Finish, FinishLast, JoinStrings;
    TraceToMore(files, inlined, path, i, fuel, more);
    RenderAppend(events, added);
    JoinAppend(output, piece);
    FinishAppend(output, piece);
  }

  lemma EmitStep(files: Files, inlined: set<string>, path: string, i: nat, fuel: nat)
    requires path in files && i < |LinesOf(files, path)| && Loads(inlined, LinesOf(files, path)[i]).None?
    ensures var line, last := LinesOf(files, path)[i], i == |LinesOf(files, path)| - 1;
            var e := Emit(path, i, line, last);
            && TraceLine(files, inlined, path, i, fuel) == Some([e])
            && RenderAll([e]) == if last then Finish(line) else line
  {
    hide LinesOf, Loads;
    var line, last := LinesOf(files, path)[i], i == |LinesOf(files, path)| - 1;
    RenderOne(Emit(path, i, line, last));
  }

  lemma LoadStep(files: Files, inlined: set<string>, path: string, i: nat, fuel: nat, inner: seq<Event>, text: string)
    requires path in files && i < |LinesOf(files, path)| && Loads(inlined, LinesOf(files, path)[i]).Some?
    requires Trace(files, inlined, Loads(inlined, LinesOf(files, path)[i]).value, fuel) == Some(inner)
    requires text == Banner(Loads(inlined, LinesOf(files, path)[i]).value) + RenderAll(inner) && EndsLine(text)
    ensures var load := Load(path, i, Loads(inlined, LinesOf(files, path)[i]).value);
            && TraceLine(files, inlined, path, i, fuel) == Some([load] + inner)
            && RenderAll([load] + inner) == text && Finish(text) == text
  {
    hide LinesOf, Loads, Trace, Banner;
    var load := Load(path, i, Loads(inlined, LinesOf(files, path)[i]).value);
    RenderOne(load);
    RenderAppend([load], inner);
  }

  lemma DoneExpanded(files: Files, inlined: set<string>, path: string, fuel: nat, events: seq<Event>, output: seq<string>)
    requires path in files && Expanded(files, inlined, path, |LinesOf(files, path)|, fuel, events, output)
    ensures Runs(files, inlined, path, events)
    ensures JoinStrings(FinishLast(output)) == Banner(path) + RenderAll(events) && EndsLine(JoinStrings(FinishLast(output)))
  {
    hide LinesOf, Banner, RenderAll;
    assert Trace(files, inlined, path, fuel + 1) == Some(events);
  }

  /** A load line: the counter moves by one, then by the target's own run. */
  lemma AfterLoad(files: Files, inlined: set<string>, path: string, i: nat, fuel: nat, events: seq<Event>,
                  output: seq<string>, start: map<string, nat>, before: map<string, nat>, after: map<string, nat>,
                  inner: seq<Event>, text: string) returns (more: nat)
    requires path in files && i < |LinesOf(files, path)| && Loads(inlined, LinesOf(files, path)[i]).Some?
    requires Expanded(files, inlined, path, i, fuel, events, output) && Counted(start, before, events)
    requires var target := Loads(inlined, LinesOf(files, path)[i]).value;
             && Counted(before[target := CountOf(before, target) + 1], after, inner)
             && Runs(files, inlined, target, inner)
             && text == Banner(target) + RenderAll(inner) && EndsLine(text)
    ensures var added := [Load(path, i, Loads(inlined, LinesOf(files, path)[i]).value)] + inner;
            && Expanded(files, inlined, path, i + 1, more, events + added, output + [text])
            && Counted(start, after, events + added)
  {
    hide LinesOf, Loads, Trace, TraceTo, TraceLine, Expanded, Banner, RenderAll, Counted, Runs;
    var target := Loads(inlined, LinesOf(files, path)[i]).value;
    var load := [Load(path, i, target)];
    var counted := before[target := CountOf(before, target) + 1];
    CountLoad(before, path, i, target);
    CountedAppend(before, counted, after, load, inner);
    CountedAppend(start, before, after, events, load + inner);
    more := EnoughFuel(files, inlined, target, inner, fuel);
    LoadStep(files, inlined, path, i, more, inner, text);
    StepExpanded(files, inlined, path, i, fuel, events, output, more, load + inner, text);
  }

  /** Any other line: copied, and nothing counted. */
  lemma AfterEmit(files: Files, inlined: set<string>, path: string, i: nat, fuel: nat, events: seq<Event>,
                  output: seq<string>, start: map<string, nat>, before: map<string, nat>)
    requires path in files && i < |LinesOf(files, path)| && Loads(inlined, LinesOf(files, path)[i]).None?
    requires Expanded(files, inlined, path, i, fuel, events, output) && Counted(start, before, events)
    ensures var line := LinesOf(files, path)[i];
            var e := Emit(path, i, line, i == |LinesOf(files, path)| - 1);
            && Expanded(files, inlined, path, i + 1, fuel, events + [e], output + [line])
            && Counted(start, before, events + [e])
  {
    hide LinesOf, Loads, Trace, TraceTo, TraceLine, Expanded, RenderAll, Counted;
    var line := LinesOf(files, path)[i];
    var e := Emit(path, i, line, i == |LinesOf(files, path)| - 1);
    EmitStep(files, inlined, path, i, fuel);
    StepExpanded(files, inlined, path, i, fuel, events, output, fuel, [e], line);
    CountEmit(before, e);
    CountedAppend(start, before, before, events, [e]);
  }

  class Bundler {
    const files: Files
    const inlined: set<string>
    var included: map<string, nat>

    constructor (files: Files, inlined: set<string>)
      ensures this.files == files && this.inlined == inlined && included == map[]
    {
      this.files, this.inlined, included := files, inlined, map[];
    }

    /** `expand`: succeeds exactly when the file's run ends, and then returns the banner
        followed by the rendered run, counting every load on the way. */
    method Expand(relative: string, stack: seq<string>, ghost universe: set<string>)
      returns (r: Result<string>, ghost events: seq<Event>)
      requires WaitingFor(files, inlined, stack, relative)
      requires Elements(stack) <= universe && relative in universe && inlined <= universe
      requires Positive(included, inlined)
      modifies this`included
      ensures r.Ok? ==> Runs(files, inlined, relative, events)
      ensures r.Ok? ==> r.value == Banner(relative) + RenderAll(events) && EndsLine(r.value)
      ensures r.Ok? ==> Counted(old(included), included, events)
      ensures r.Err? ==> !Ends(files, inlined, relative)
      ensures Positive(included, inlined)
      decreases |universe - Elements(stack)|
    {
      hide LinesOf, Loads, Trace, TraceTo, TraceLine, Expanded, Banner, RenderAll, Counted, JoinStrings, WaitingFor, LoadCount, Runs;
      hide Elements, FinishLast, EndsLine;
      events := [];
      if relative in stack {
        forall fuel: nat
          ensures Trace(files, inlined, relative, fuel).None?
        {
          CycleNeverEnds(files, inlined, stack, relative, fuel);
        }
        return Err, events;
      }
      if relative !in files {
        MissingNeverEnds(files, inlined, relative);
        return Err, events;
      }
      StackGrows(stack, relative, universe);
      var lines := LinesOf(files, relative);
      var output := [Banner(relative)];
      ghost var fuel: nat := 0;
      StartExpanded(files, inlined, relative);
      NothingCounted(included);
      for i := 0 to |lines|
        invariant Expanded(files, inlined, relative, i, fuel, events, output) && output != []
        invariant Counted(old(included), included, events) && Positive(included, inlined)
      {
        var loaded := Loads(inlined, lines[i]);
        if loaded.Some? {
          var target := loaded.value;
          LoadsInlined(inlined, lines[i]);
          ghost var before := included;
          included := included[target := CountOf(included, target) + 1];
          WaitingExtends(files, inlined, stack, relative, i);
          var inner, innerEvents := Expand(target, stack + [relative], universe);
          if inner.Err? {
            LoadBlocks(files, inlined, relative, i);
            return Err, events;
          }
          ghost var more := AfterLoad(files, inlined, relative, i, fuel, events, output,
                                      old(included), before, included, innerEvents, inner.value);
          events, fuel := events + ([Load(relative, i, target)] + innerEvents), more;
          output := output + [inner.value];
        } else {
          ghost var e := Emit(relative, i, lines[i], i == |lines| - 1);
          AfterEmit(files, inlined, relative, i, fuel, events, output, old(included), included);
          events := events + [e];
          output := output + [lines[i]];
        }
      }
      DoneExpanded(files, inlined, relative, fuel, events, output);
      ghost var raw := output;
      if output != [] && !EndsLine(output[|output| - 1]) {
        output := output[|output| - 1 := output[|output| - 1] + "\n"];
      }
      FinishIs(raw, output);
      return Ok(JoinStrings(output)), events;
    }

    /** `bundle_startup`: succeeds exactly when the entry's run ends and loads every
        allowlisted file exactly once; the bundle is the rendered run. */
    method Bundle(entry: string) returns (r: Result<string>, ghost events: seq<Event>)
      requires included == map[]
      modifies this`included
      ensures r.Ok? <==> Bundles(files, inlined, entry)
      ensures r.Ok? ==> Runs(files, inlined, entry, events) && LoadsEachOnce(inlined, events)
      ensures r.Ok? ==> r.value == Banner(entry) + RenderAll(events)
    {
      hide Trace, Banner, RenderAll, LoadCount, Ends;
      ghost var universe := inlined + {entry};
      var bundle, run := Expand(entry, [], universe);
      events := run;
      if bundle.Err? {
        RunsThenEnds(files, inlined, entry);
        return Err, events;
      }
      var missing := inlined - included.Keys;
      var repeated := set path | path in included && included[path] != 1;
      CountsMatch(files, inlined, entry, included, run);
      if missing != {} {
        var path :| path in missing;
        assert CountOf(included, path) == 0;
        return Err, events;
      }
      if repeated != {} {
        var path :| path in repeated;
        assert CountOf(included, path) != 1;
        return Err, events;
      }
      AllOnce(included, inlined);
      return bundle, events;
    }
  }

  /** Each allowlisted file is loaded exactly once. */
  predicate LoadsEachOnce(inlined: set<string>, events: seq<Event>) {
    forall q :: q in inlined ==> LoadCount(events, q) == 1
  }

  ghost predicate Bundles(files: Files, inlined: set<string>, entry: string) {
    exists events :: Runs(files, inlined, entry, events) && LoadsEachOnce(inlined, events)
  }

  lemma CountsMatch(files: Files, inlined: set<string>, entry: string, included: map<string, nat>, run: seq<Event>)
    requires Runs(files, inlined, entry, run) && Counted(map[], included, run)
    ensures LoadsEachOnce(inlined, run) <==> forall q :: q in inlined ==> CountOf(included, q) == 1
    ensures Bundles(files, inlined, entry) <==> LoadsEachOnce(inlined, run)
  {
    hide Runs, LoadCount;
    if Bundles(files, inlined, entry) {
      var events :| Runs(files, inlined, entry, events) && LoadsEachOnce(inlined, events);
      RunsUnique(files, inlined, entry, events, run);
    }
    assert forall q :: CountOf(included, q) == CountOf(map[], q) + LoadCount(run, q);
  }

  lemma AllOnce(included: map<string, nat>, inlined: set<string>)
    requires inlined - included.Keys == {} && (set path | path in included && included[path] != 1) == {}
    ensures forall q :: q in inlined ==> CountOf(included, q) == 1
  {
    forall q | q in inlined
      ensures CountOf(included, q) == 1
    {
      assert q !in inlined - included.Keys;
      assert q !in (set path | path in included && included[path] != 1);
    }
  }

  lemma RunsThenEnds(files: Files, inlined: set<string>, path: string)
    ensures Bundles(files, inlined, path) ==> Ends(files, inlined, path)
  {
    hide Trace;
    if Bundles(files, inlined, path) {
      var events :| Runs(files, inlined, path, events) && LoadsEachOnce(inlined, events);
      var fuel: nat :| Trace(files, inlined, path, fuel) == Some(events);
    }
  }

  lemma StackGrows(stack: seq<string>, path: string, universe: set<string>)
    requires path !in stack && path in universe && Elements(stack) <= universe
    ensures Elements(stack + [path]) == Elements(stack) + {path}
    ensures Elements(stack + [path]) <= universe
    ensures |universe - Elements(stack + [path])| < |universe - Elements(stack)|
  {
    assert Elements(stack + [path]) == Elements(stack) + {path};
    assert universe - Elements(stack + [path]) == (universe - Elements(stack)) - {path};
  }

  lemma MissingNeverEnds(files: Files, inlined: set<string>, path: string)
    requires path !in files
    ensures !Ends(files, inlined, path)
  {
  }

  lemma LoadsInlined(inlined: set<string>, line: string)
    ensures Loads(inlined, line).Some? ==> Loads(inlined, line).value in inlined
  {
  }

  lemma NothingCounted(included: map<string, nat>)
    ensures Counted(included, included, [])
  {
  }

  lemma EnoughFuel(files: Files, inlined: set<string>, path: string, events: seq<Event>, atLeast: nat) returns (fuel: nat)
    requires Runs(files, inlined, path, events)
    ensures fuel >= atLeast && Trace(files, inlined, path, fuel) == Some(events)
  {
    hide Trace;
    var f: nat :| Trace(files, inlined, path, f) == Some(events);
    fuel := if f >= atLeast then f else atLeast;
    TraceMore(files, inlined, path, f, fuel);
  }
}
