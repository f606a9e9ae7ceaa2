/** The startup bundler (scripts/codegen/startup.py). Running a startup file means
    executing its lines in order, where an allowlisted `load` line runs its target in
    place. The bundler has to produce one file that amounts to the same run. */
module Startup {
  import opened TextLines
  import opened Wire

  /** File texts as `read_text` gives them: newline characters already translated. */
  type Files = map<string, string>

  /** `read_text` leaves no carriage return. Names of files come from JSON and may hold one. */
  predicate ReadTexts(files: Files) {
    forall f :: f in files ==> '\r' !in files[f]
  }

  // ------------------------------------------------------------------- load lines

  predicate EndsLine(s: string) {
    s != [] && s[|s| - 1] == '\n'
  }

  /** `rstrip("\r\n")` */
  function StripEnd(s: string): string {
    if s != [] && s[|s| - 1] in {'\r', '\n'} then StripEnd(s[..|s| - 1]) else s
  }

  function SkipBlanks(s: string): string {
    if s != [] && s[0] in {' ', '\t'} then SkipBlanks(s[1..]) else s
  }

  /** The length of the run of characters that are not quotes. */
  function PathLength(s: string): (n: nat)
    ensures n <= |s|
    ensures n < |s| ==> s[n] in {'\'', '"'}
  {
    if s == [] || s[0] in {'\'', '"'} then 0 else 1 + PathLength(s[1..])
  }

  /** The path of a load line: blanks, `load(`, a quoted nonempty path, `);`, blanks. */
  function LoadTarget(line: string): Option<string> {
    var s := SkipBlanks(StripEnd(line));
    if |s| < 6 || s[..5] != "load(" || s[5] !in {'\'', '"'} then None
    else
      var quoted := s[6..];
      var n := PathLength(quoted);
      if n == 0 || n == |quoted| || quoted[n] != s[5] || |quoted| < n + 3 || quoted[n + 1..n + 3] != ");" then None
      else if SkipBlanks(quoted[n + 3..]) != "" then None
      else Some(quoted[..n])
  }

  /** The allowlisted file a line loads, if any. */
  function Loads(inlined: set<string>, line: string): Option<string> {
    var target := LoadTarget(line);
    if target.Some? && target.value in inlined then target else None
  }

  // --------------------------------------------------------------- running a file

  datatype Event =
    | Load(from: string, index: nat, target: string)
    | Emit(from: string, index: nat, line: string, last: bool)

  function LinesOf(files: Files, path: string): seq<string>
    requires path in files
  {
    SplitLines(files[path])
  }

  /** The run of a file with loads nested at most `fuel` deep: what is loaded and what is
      executed, in order. There is no run if a file is missing or loads never end. */
  function Trace(files: Files, inlined: set<string>, path: string, fuel: nat): Option<seq<Event>>
    decreases fuel, 0, 0
  {
    if fuel == 0 || path !in files then None
    else TraceTo(files, inlined, path, |LinesOf(files, path)|, fuel - 1)
  }

  /** The run of the first `n` lines of a file. */
  function TraceTo(files: Files, inlined: set<string>, path: string, n: nat, fuel: nat): Option<seq<Event>>
    requires path in files && n <= |LinesOf(files, path)|
    decreases fuel, 1, n
  {
    if n == 0 then Some([])
    else
      match TraceTo(files, inlined, path, n - 1, fuel)
      case None => None
      case Some(before) =>
        match TraceLine(files, inlined, path, n - 1, fuel)
        case None => None
        case Some(events) => Some(before + events)
  }

  function TraceLine(files: Files, inlined: set<string>, path: string, i: nat, fuel: nat): Option<seq<Event>>
    requires path in files && i < |LinesOf(files, path)|
    decreases fuel, 0, 1
  {
    var lines := LinesOf(files, path);
    var target := Loads(inlined, lines[i]);
    if target.None? then Some([Emit(path, i, lines[i], i == |lines| - 1)])
    else
      match Trace(files, inlined, target.value, fuel)
      case None => None
      case Some(events) => Some([Load(path, i, target.value)] + events)
  }

  /** More depth never changes a run that ends. */
  lemma {:induction false} TraceMore(files: Files, inlined: set<string>, path: string, f: nat, g: nat)
    requires f <= g && Trace(files, inlined, path, f).Some?
    ensures Trace(files, inlined, path, g) == Trace(files, inlined, path, f)
    decreases f, 0, 0
  {
    TraceToMore(files, inlined, path, |LinesOf(files, path)|, f - 1, g - 1);
  }

  lemma {:induction false} TraceToMore(files: Files, inlined: set<string>, path: string, n: nat, f: nat, g: nat)
    requires path in files && n <= |LinesOf(files, path)|
    requires f <= g && TraceTo(files, inlined, path, n, f).Some?
    ensures TraceTo(files, inlined, path, n, g) == TraceTo(files, inlined, path, n, f)
    decreases f, 1, n
  {
    hide LinesOf, Loads;
    if n != 0 {
      TraceToMore(files, inlined, path, n - 1, f, g);
      TraceLineMore(files, inlined, path, n - 1, f, g);
    }
  }

  lemma {:induction false} TraceLineMore(files: Files, inlined: set<string>, path: string, i: nat, f: nat, g: nat)
    requires path in files && i < |LinesOf(files, path)|
    requires f <= g && TraceLine(files, inlined, path, i, f).Some?
    ensures TraceLine(files, inlined, path, i, g) == TraceLine(files, inlined, path, i, f)
    decreases f, 0, 1
  {
    hide LinesOf, Loads;
    var target := Loads(inlined, LinesOf(files, path)[i]);
    if target.Some? {
      TraceMore(files, inlined, target.value, f, g);
    }
  }

  /** The file's run ends, with these events. */
  ghost predicate Runs(files: Files, inlined: set<string>, path: string, events: seq<Event>) {
    exists fuel: nat :: Trace(files, inlined, path, fuel) == Some(events)
  }

  ghost predicate Ends(files: Files, inlined: set<string>, path: string) {
    exists fuel: nat :: Trace(files, inlined, path, fuel).Some?
  }

  lemma RunsUnique(files: Files, inlined: set<string>, path: string, a: seq<Event>, b: seq<Event>)
    requires Runs(files, inlined, path, a) && Runs(files, inlined, path, b)
    ensures a == b
  {
    hide Trace;
    var f: nat :| Trace(files, inlined, path, f) == Some(a);
    var g: nat :| Trace(files, inlined, path, g) == Some(b);
    if f <= g {
      TraceMore(files, inlined, path, f, g);
    } else {
      TraceMore(files, inlined, path, g, f);
    }
  }

  // -------------------------------------------------------------------- rendering

  function Banner(path: string): string {
    "/* bundled from " + path + " */\n"
  }

  /** A file's last line is completed by a newline if it has none. */
  function Render(e: Event): string {
    match e
    case Load(_, _, target) => Banner(target)
    case Emit(_, _, line, last) => if last && !EndsLine(line) then line + "\n" else line
  }

  function RenderAll(events: seq<Event>): string {
    if events == [] then "" else RenderAll(events[..|events| - 1]) + Render(events[|events| - 1])
  }

  lemma {:induction false} RenderAppend(a: seq<Event>, b: seq<Event>)
    ensures RenderAll(a + b) == RenderAll(a) + RenderAll(b)
  {
    hide Render;
    if b == [] {
      assert a + b == a;
    } else {
      RenderAppend(a, b[..|b| - 1]);
      assert (a + b)[..|a + b| - 1] == a + b[..|b| - 1];
    }
  }

  lemma RenderOne(e: Event)
    ensures RenderAll([e]) == Render(e)
  {
    hide Render;
    assert RenderAll([e]) == RenderAll([]) + Render(e);
  }

  /** How often a run loads `q`. */
  function LoadCount(events: seq<Event>, q: string): nat {
    if events == [] then 0
    else
      LoadCount(events[..|events| - 1], q)
      + if events[|events| - 1].Load? && events[|events| - 1].target == q then 1 else 0
  }

  lemma {:induction false} LoadCountAppend(a: seq<Event>, b: seq<Event>, q: string)
    ensures LoadCount(a + b, q) == LoadCount(a, q) + LoadCount(b, q)
  {
    if b == [] {
      assert a + b == a;
    } else {
      LoadCountAppend(a, b[..|b| - 1], q);
      assert (a + b)[..|a + b| - 1] == a + b[..|b| - 1];
    }
  }

  // ------------------------------------------------------------ cycles never end

  /** Every file on the stack is being run and will only end after `path` has. */
  ghost predicate WaitingFor(files: Files, inlined: set<string>, stack: seq<string>, path: string) {
    forall s, fuel: nat :: s in stack && Trace(files, inlined, s, fuel).Some? ==>
      fuel > 0 && Trace(files, inlined, path, fuel - 1).Some?
  }

  lemma {:induction false} CycleNeverEnds(files: Files, inlined: set<string>, stack: seq<string>, path: string, fuel: nat)
    requires WaitingFor(files, inlined, stack, path) && path in stack
    ensures Trace(files, inlined, path, fuel).None?
  {
    hide Trace;
    if fuel > 0 {
      CycleNeverEnds(files, inlined, stack, path, fuel - 1);
    }
  }

  lemma {:induction false} LineEnds(files: Files, inlined: set<string>, path: string, n: nat, i: nat, fuel: nat)
    requires path in files && i < n <= |LinesOf(files, path)| && TraceTo(files, inlined, path, n, fuel).Some?
    ensures TraceLine(files, inlined, path, i, fuel).Some?
  {
    hide TraceLine, LinesOf;
    if i < n - 1 {
      LineEnds(files, inlined, path, n - 1, i, fuel);
    }
  }

  lemma LineTarget(files: Files, inlined: set<string>, path: string, i: nat, fuel: nat)
    requires path in files && i < |LinesOf(files, path)|
    ensures var target := Loads(inlined, LinesOf(files, path)[i]);
            target.Some? && TraceLine(files, inlined, path, i, fuel).Some? ==> Trace(files, inlined, target.value, fuel).Some?
  {
    hide LinesOf, Loads, Trace;
  }

  /** A file that loads `target` waits for it. */
  lemma LoadWaits(files: Files, inlined: set<string>, path: string, i: nat, fuel: nat)
    requires path in files && i < |LinesOf(files, path)| && Loads(inlined, LinesOf(files, path)[i]).Some?
    requires Trace(files, inlined, path, fuel).Some?
    ensures fuel > 0 && Trace(files, inlined, Loads(inlined, LinesOf(files, path)[i]).value, fuel - 1).Some?
  {
    hide LinesOf, Loads, TraceTo, TraceLine;
    LineEnds(files, inlined, path, |LinesOf(files, path)|, i, fuel - 1);
    LineTarget(files, inlined, path, i, fuel - 1);
  }

  lemma WaitingExtends(files: Files, inlined: set<string>, stack: seq<string>, path: string, i: nat)
    requires WaitingFor(files, inlined, stack, path)
    requires path in files && i < |LinesOf(files, path)| && Loads(inlined, LinesOf(files, path)[i]).Some?
    ensures WaitingFor(files, inlined, stack + [path], Loads(inlined, LinesOf(files, path)[i]).value)
  {
    hide LinesOf, Loads, Trace;
    var target := Loads(inlined, LinesOf(files, path)[i]).value;
    forall s, fuel: nat | s in stack + [path] && Trace(files, inlined, s, fuel).Some?
      ensures fuel > 0 && Trace(files, inlined, target, fuel - 1).Some?
    {
      if s == path {
        LoadWaits(files, inlined, path, i, fuel);
      } else {
        LoadWaits(files, inlined, path, i, fuel - 1);
        TraceMore(files, inlined, target, fuel - 2, fuel - 1);
      }
    }
  }

  /** If one of its loads never ends, neither does the file. */
  lemma LoadBlocks(files: Files, inlined: set<string>, path: string, i: nat)
    requires path in files && i < |LinesOf(files, path)| && Loads(inlined, LinesOf(files, path)[i]).Some?
    requires !Ends(files, inlined, Loads(inlined, LinesOf(files, path)[i]).value)
    ensures !Ends(files, inlined, path)
  {
    hide LinesOf, Loads, Trace;
    forall fuel: nat
      ensures Trace(files, inlined, path, fuel).None?
    {
      if Trace(files, inlined, path, fuel).Some? {
        LoadWaits(files, inlined, path, i, fuel);
      }
    }
  }
}
