/** When bundling succeeds: exactly when the allowlisted loads form a tree rooted at the
    entry, so that every allowlisted file is put in once, at its only load line. */
module StartupTree {
  import opened Wire

  import opened Startup
  import opened StartupBundler

  predicate LoadLine(files: Files, inlined: set<string>, f: string, i: nat, q: string) {
    f in files && i < |LinesOf(files, f)| && Loads(inlined, LinesOf(files, f)[i]) == Some(q)
  }

  /** What running line `i` of a file starts with. */
  function LineEvent(files: Files, inlined: set<string>, f: string, i: nat): Event
    requires f in files && i < |LinesOf(files, f)|
  {
    var line := LinesOf(files, f)[i];
    match Loads(inlined, line)
    case Some(target) => Load(f, i, target)
    case None => Emit(f, i, line, i == |LinesOf(files, f)| - 1)
  }

  predicate OfSource(files: Files, inlined: set<string>, e: Event) {
    e.from in files && e.index < |LinesOf(files, e.from)| && e == LineEvent(files, inlined, e.from, e.index)
  }

  lemma OfSourceLoad(files: Files, inlined: set<string>, e: Event)
    requires OfSource(files, inlined, e) && e.Load?
    ensures LoadLine(files, inlined, e.from, e.index, e.target)
  {
  }

  ghost predicate Linked(files: Files, inlined: set<string>, f: string, q: string) {
    exists i: nat :: LoadLine(files, inlined, f, i, q)
  }

  function Last(c: seq<string>): string
    requires c != []
  {
    c[|c| - 1]
  }

  /** Each file on the chain loads the next one. */
  ghost predicate Chain(files: Files, inlined: set<string>, c: seq<string>) {
    && c != []
    && (|c| > 1 ==> Linked(files, inlined, c[|c| - 2], Last(c)) && Chain(files, inlined, c[..|c| - 1]))
  }

  ghost predicate Reaches(files: Files, inlined: set<string>, from: string, c: seq<string>, to: string) {
    Chain(files, inlined, c) && c[0] == from && Last(c) == to
  }

  /** The files a bundle is made of. */
  predicate Node(inlined: set<string>, entry: string, f: string) {
    f == entry || f in inlined
  }

  /** Every file is there, the entry is loaded by nobody, every allowlisted file is
      reached from it, and no allowlisted file has two load lines. */
  ghost predicate LoadTree(files: Files, inlined: set<string>, entry: string) {
    && entry !in inlined
    && (forall f :: Node(inlined, entry, f) ==> f in files)
    && (forall q :: q in inlined ==> exists c :: Reaches(files, inlined, entry, c, q))
    && OneLoadLine(files, inlined, entry)
  }

  ghost predicate OneLoadLine(files: Files, inlined: set<string>, entry: string) {
    forall f, i: nat, g, j: nat, q ::
      (Node(inlined, entry, f) && LoadLine(files, inlined, f, i, q) &&
       Node(inlined, entry, g) && LoadLine(files, inlined, g, j, q)) ==> f == g && i == j
  }

  // -------------------------------------------------------------------- chains

  lemma ChainExtend(files: Files, inlined: set<string>, from: string, c: seq<string>, f: string, i: nat, q: string)
    requires Reaches(files, inlined, from, c, f) && LoadLine(files, inlined, f, i, q)
    ensures Reaches(files, inlined, from, c + [q], q)
  {
    hide LoadLine;
    assert (c + [q])[..|c + [q]| - 1] == c;
  }

  lemma {:induction false} ChainJoin(files: Files, inlined: set<string>, from: string, c: seq<string>, mid: string, d: seq<string>, to: string)
    requires Reaches(files, inlined, from, c, mid) && Reaches(files, inlined, mid, d, to)
    ensures Reaches(files, inlined, from, c + d[1..], to)
    decreases |d|
  {
    hide Linked;
    if |d| == 1 {
      assert c + d[1..] == c;
    } else {
      var e := d[..|d| - 1];
      ChainJoin(files, inlined, from, c, mid, e, Last(e));
      assert (c + d[1..])[..|c + d[1..]| - 1] == c + e[1..];
    }
  }

  /** The first link of a chain, and the rest of it. */
  lemma {:induction false} ChainHead(files: Files, inlined: set<string>, c: seq<string>)
    requires Chain(files, inlined, c) && |c| > 1
    ensures Linked(files, inlined, c[0], c[1]) && Reaches(files, inlined, c[1], c[1..], Last(c))
    decreases |c|
  {
    hide Linked;
    if |c| > 2 {
      ChainHead(files, inlined, c[..|c| - 1]);
      assert c[1..][..|c[1..]| - 1] == c[..|c| - 1][1..];
    }
  }

  lemma ChainParent(files: Files, inlined: set<string>, from: string, c: seq<string>, q: string) returns (p: string, i: nat)
    requires Reaches(files, inlined, from, c, q) && |c| > 1
    ensures Reaches(files, inlined, from, c[..|c| - 1], p) && LoadLine(files, inlined, p, i, q)
  {
    hide LoadLine;
    p := c[|c| - 2];
    i :| LoadLine(files, inlined, p, i, q);
  }

  lemma TargetInlined(files: Files, inlined: set<string>, f: string, i: nat, q: string)
    requires LoadLine(files, inlined, f, i, q)
    ensures q in inlined
  {
  }

  lemma ChainNode(files: Files, inlined: set<string>, entry: string, c: seq<string>, f: string)
    requires Reaches(files, inlined, entry, c, f)
    ensures Node(inlined, entry, f) && (|c| > 1 ==> f in inlined)
  {
    hide LoadLine;
    if |c| > 1 {
      var p, i := ChainParent(files, inlined, entry, c, f);
      TargetInlined(files, inlined, p, i, f);
    }
  }

  // --------------------------------------------------------- chains against runs

  /** A file that ends needs at least as much depth as the chains that start at it. */
  lemma {:induction false} ChainEnds(files: Files, inlined: set<string>, from: string, c: seq<string>, to: string, fuel: nat)
    requires Reaches(files, inlined, from, c, to) && Trace(files, inlined, from, fuel).Some?
    ensures |c| <= fuel && Trace(files, inlined, to, fuel - (|c| - 1)).Some?
    decreases |c|
  {
    hide Trace, LoadLine;
    if |c| > 1 {
      var p, i := ChainParent(files, inlined, from, c, to);
      ChainEnds(files, inlined, from, c[..|c| - 1], p, fuel);
      StepEnds(files, inlined, p, i, to, fuel - (|c| - 2));
    } else {
      TraceNeedsFuel(files, inlined, from, fuel);
    }
  }

  lemma TraceNeedsFuel(files: Files, inlined: set<string>, path: string, fuel: nat)
    requires Trace(files, inlined, path, fuel).Some?
    ensures fuel > 0 && path in files
  {
  }

  lemma StepEnds(files: Files, inlined: set<string>, f: string, i: nat, q: string, fuel: nat)
    requires LoadLine(files, inlined, f, i, q) && Trace(files, inlined, f, fuel).Some?
    ensures fuel > 1 && Trace(files, inlined, q, fuel - 1).Some?
  {
    hide Trace, LinesOf, Loads;
    LoadWaits(files, inlined, f, i, fuel);
    TraceNeedsFuel(files, inlined, q, fuel - 1);
  }

  lemma {:induction false} LoopNeverEnds(files: Files, inlined: set<string>, f: string, c: seq<string>, fuel: nat)
    requires Reaches(files, inlined, f, c, f) && |c| > 1
    ensures Trace(files, inlined, f, fuel).None?
    decreases fuel
  {
    hide Trace, Reaches;
    if Trace(files, inlined, f, fuel).Some? {
      ChainEnds(files, inlined, f, c, f, fuel);
      LoopNeverEnds(files, inlined, f, c, fuel - (|c| - 1));
    }
  }

  // --------------------------------------------------- what a run loads, and where

  /** Every event of a run comes from a file that loads reach from the run's file. */
  lemma {:induction false} RunReaches(files: Files, inlined: set<string>, path: string, fuel: nat, k: nat) returns (c: seq<string>)
    requires Trace(files, inlined, path, fuel).Some? && k < |Trace(files, inlined, path, fuel).value|
    ensures var e := Trace(files, inlined, path, fuel).value[k];
            && Reaches(files, inlined, path, c, e.from)
            && OfSource(files, inlined, e)
    decreases fuel, 0, 0
  {
    hide LoadLine, LinesOf, TraceTo, Reaches, OfSource;
    var j: nat;
    c, j := LinesReach(files, inlined, path, |LinesOf(files, path)|, fuel - 1, k);
  }

  /** The same for some lines of a file, with the line the event is due to. */
  lemma {:induction false} LinesReach(files: Files, inlined: set<string>, path: string, n: nat, fuel: nat, k: nat)
    returns (c: seq<string>, j: nat)
    requires path in files && n <= |LinesOf(files, path)|
    requires TraceTo(files, inlined, path, n, fuel).Some? && k < |TraceTo(files, inlined, path, n, fuel).value|
    ensures var e := TraceTo(files, inlined, path, n, fuel).value[k];
            && Reaches(files, inlined, path, c, e.from)
            && OfSource(files, inlined, e)
            && j < n && if |c| == 1 then e.index == j else LoadLine(files, inlined, path, j, c[1])
    decreases fuel, 1, n
  {
    hide LoadLine, LinesOf, TraceLine, Reaches, OfSource;
    var before := TraceTo(files, inlined, path, n - 1, fuel).value;
    if k < |before| {
      c, j := LinesReach(files, inlined, path, n - 1, fuel, k);
    } else {
      c := LineReaches(files, inlined, path, n - 1, fuel, k - |before|);
      j := n - 1;
    }
  }

  lemma {:induction false} LineReaches(files: Files, inlined: set<string>, path: string, i: nat, fuel: nat, k: nat) returns (c: seq<string>)
    requires path in files && i < |LinesOf(files, path)|
    requires TraceLine(files, inlined, path, i, fuel).Some? && k < |TraceLine(files, inlined, path, i, fuel).value|
    ensures var e := TraceLine(files, inlined, path, i, fuel).value[k];
            && Reaches(files, inlined, path, c, e.from)
            && OfSource(files, inlined, e)
            && if |c| == 1 then e.index == i else LoadLine(files, inlined, path, i, c[1])
    decreases fuel, 0, 1
  {
    hide LinesOf, Loads, Trace;
    c := [path];
    var target := Loads(inlined, LinesOf(files, path)[i]);
    if k > 0 && target.Some? {
      var d := RunReaches(files, inlined, target.value, fuel, k - 1);
      assert LoadLine(files, inlined, path, i, target.value);
      ChainExtend(files, inlined, path, [path], path, i, target.value);
      ChainJoin(files, inlined, path, [path] + [target.value], target.value, d, Last(d));
      c := [path] + [target.value] + d[1..];
    }
  }

  lemma {:induction false} LineWithin(files: Files, inlined: set<string>, path: string, n: nat, i: nat, fuel: nat, e: Event)
    requires path in files && i < n <= |LinesOf(files, path)| && TraceTo(files, inlined, path, n, fuel).Some?
    requires TraceLine(files, inlined, path, i, fuel).Some? && e in TraceLine(files, inlined, path, i, fuel).value
    ensures e in TraceTo(files, inlined, path, n, fuel).value
  {
    hide TraceLine, LinesOf;
    if i < n - 1 {
      LineWithin(files, inlined, path, n - 1, i, fuel, e);
    }
  }

  lemma LoadWithin(files: Files, inlined: set<string>, path: string, i: nat, fuel: nat, q: string, e: Event)
    requires LoadLine(files, inlined, path, i, q) && Trace(files, inlined, path, fuel).Some?
    requires fuel > 1 && Trace(files, inlined, q, fuel - 1).Some?
    requires e in Trace(files, inlined, q, fuel - 1).value
    ensures e in Trace(files, inlined, path, fuel).value
  {
    hide LinesOf, Loads, TraceTo;
    LineWithin(files, inlined, path, |LinesOf(files, path)|, i, fuel - 1, e);
  }

  lemma OwnLine(files: Files, inlined: set<string>, path: string, i: nat, fuel: nat)
    requires path in files && i < |LinesOf(files, path)| && Trace(files, inlined, path, fuel).Some?
    ensures LineEvent(files, inlined, path, i) in Trace(files, inlined, path, fuel).value
  {
    hide LinesOf, Loads, TraceTo;
    LineEnds(files, inlined, path, |LinesOf(files, path)|, i, fuel - 1);
    LineWithin(files, inlined, path, |LinesOf(files, path)|, i, fuel - 1, LineEvent(files, inlined, path, i));
  }

  /** Conversely, a run performs every line of every file it reaches. */
  lemma {:induction false} RunCovers(files: Files, inlined: set<string>, path: string, fuel: nat, c: seq<string>, f: string, i: nat)
    requires Trace(files, inlined, path, fuel).Some?
    requires Reaches(files, inlined, path, c, f) && f in files && i < |LinesOf(files, f)|
    ensures LineEvent(files, inlined, f, i) in Trace(files, inlined, path, fuel).value
    decreases |c|
  {
    hide LoadLine, Trace, LinesOf, LineEvent;
    if |c| == 1 {
      OwnLine(files, inlined, path, i, fuel);
    } else {
      ChainHead(files, inlined, c);
      var j: nat :| LoadLine(files, inlined, path, j, c[1]);
      StepEnds(files, inlined, path, j, c[1], fuel);
      RunCovers(files, inlined, c[1], fuel - 1, c[1..], f, i);
      LoadWithin(files, inlined, path, j, fuel, c[1], LineEvent(files, inlined, f, i));
    }
  }

  lemma RunCoversLoad(files: Files, inlined: set<string>, path: string, fuel: nat, c: seq<string>, f: string, i: nat, q: string)
    requires Trace(files, inlined, path, fuel).Some?
    requires Reaches(files, inlined, path, c, f) && LoadLine(files, inlined, f, i, q)
    ensures Load(f, i, q) in Trace(files, inlined, path, fuel).value
  {
    hide Trace, LinesOf, Loads, Reaches;
    RunCovers(files, inlined, path, fuel, c, f, i);
  }

  // ---------------------------------------------------------------- counting loads

  predicate IsLoadOf(e: Event, q: string) {
    e.Load? && e.target == q
  }

  lemma {:induction false} Counted1(events: seq<Event>, q: string) returns (k: nat)
    requires LoadCount(events, q) >= 1
    ensures k < |events| && IsLoadOf(events[k], q)
  {
    k := |events| - 1;
    if !IsLoadOf(events[k], q) {
      k := Counted1(events[..k], q);
    }
  }

  lemma {:induction false} Counts1(events: seq<Event>, e: Event, q: string)
    requires e in events && IsLoadOf(e, q)
    ensures LoadCount(events, q) >= 1
  {
    var n := |events| - 1;
    if events[n] != e {
      assert e in events[..n];
      Counts1(events[..n], e, q);
    }
  }

  lemma {:induction false} Counts2(events: seq<Event>, d: Event, e: Event, q: string)
    requires d in events && e in events && d != e && IsLoadOf(d, q) && IsLoadOf(e, q)
    ensures LoadCount(events, q) >= 2
  {
    var n := |events| - 1;
    if events[n] == d {
      assert e in events[..n];
      Counts1(events[..n], e, q);
    } else if events[n] == e {
      assert d in events[..n];
      Counts1(events[..n], d, q);
    } else {
      assert d in events[..n] && e in events[..n];
      Counts2(events[..n], d, e, q);
    }
  }

  // ------------------------------------------------------- a bundle means a tree

  lemma ReachedByRun(files: Files, inlined: set<string>, entry: string, fuel: nat, q: string) returns (c: seq<string>)
    requires Trace(files, inlined, entry, fuel).Some? && LoadsEachOnce(inlined, Trace(files, inlined, entry, fuel).value)
    requires q in inlined
    ensures Reaches(files, inlined, entry, c, q) && |c| > 1
  {
    hide Trace, LoadLine, Reaches;
    var events := Trace(files, inlined, entry, fuel).value;
    var k := Counted1(events, q);
    var d := RunReaches(files, inlined, entry, fuel, k);
    OfSourceLoad(files, inlined, events[k]);
    ChainExtend(files, inlined, entry, d, events[k].from, events[k].index, q);
    c := d + [q];
    ReachesNonempty(files, inlined, entry, d, events[k].from);
  }

  lemma ReachesNonempty(files: Files, inlined: set<string>, from: string, c: seq<string>, to: string)
    requires Reaches(files, inlined, from, c, to)
    ensures |c| >= 1
  {
  }

  lemma NodeReached(files: Files, inlined: set<string>, entry: string, fuel: nat, f: string) returns (c: seq<string>)
    requires Trace(files, inlined, entry, fuel).Some? && LoadsEachOnce(inlined, Trace(files, inlined, entry, fuel).value)
    requires Node(inlined, entry, f)
    ensures Reaches(files, inlined, entry, c, f)
  {
    hide Trace, Linked;
    if f == entry {
      c := [entry];
    } else {
      c := ReachedByRun(files, inlined, entry, fuel, f);
    }
  }

  lemma RunHasOneLoadLine(files: Files, inlined: set<string>, entry: string, fuel: nat)
    requires Trace(files, inlined, entry, fuel).Some? && LoadsEachOnce(inlined, Trace(files, inlined, entry, fuel).value)
    ensures OneLoadLine(files, inlined, entry)
  {
    hide Trace, LoadLine, Reaches, Node, LoadCount;
    forall f, i: nat, g, j: nat, q |
      && Node(inlined, entry, f) && LoadLine(files, inlined, f, i, q)
      && Node(inlined, entry, g) && LoadLine(files, inlined, g, j, q)
      ensures f == g && i == j
    {
      var c := NodeReached(files, inlined, entry, fuel, f);
      var d := NodeReached(files, inlined, entry, fuel, g);
      RunCoversLoad(files, inlined, entry, fuel, c, f, i, q);
      RunCoversLoad(files, inlined, entry, fuel, d, g, j, q);
      TargetInlined(files, inlined, f, i, q);
      if Load(f, i, q) != Load(g, j, q) {
        Counts2(Trace(files, inlined, entry, fuel).value, Load(f, i, q), Load(g, j, q), q);
      }
    }
  }

  lemma RunIsTree(files: Files, inlined: set<string>, entry: string, fuel: nat)
    requires Trace(files, inlined, entry, fuel).Some? && LoadsEachOnce(inlined, Trace(files, inlined, entry, fuel).value)
    ensures LoadTree(files, inlined, entry)
  {
    hide Trace, LoadLine, Reaches, OneLoadLine, LoadsEachOnce;
    RunHasOneLoadLine(files, inlined, entry, fuel);
    if entry in inlined {
      var c := ReachedByRun(files, inlined, entry, fuel, entry);
      LoopNeverEnds(files, inlined, entry, c, fuel);
    }
    forall f | Node(inlined, entry, f)
      ensures f in files
    {
      var c := NodeReached(files, inlined, entry, fuel, f);
      ChainEnds(files, inlined, entry, c, f, fuel);
      TraceNeedsFuel(files, inlined, f, fuel - (|c| - 1));
    }
    forall q | q in inlined
      ensures exists c :: Reaches(files, inlined, entry, c, q)
    {
      var c := ReachedByRun(files, inlined, entry, fuel, q);
    }
  }

  // ------------------------------------------------------- a tree gives a bundle

  /** In a tree there is one way to reach a file. */
  lemma {:induction false} ChainsUnique(files: Files, inlined: set<string>, entry: string, c: seq<string>, d: seq<string>, q: string)
    requires LoadTree(files, inlined, entry)
    requires Reaches(files, inlined, entry, c, q) && Reaches(files, inlined, entry, d, q)
    ensures c == d
    decreases |c|
  {
    hide LoadLine, Chain, OneLoadLine;
    ChainNode(files, inlined, entry, c, q);
    ChainNode(files, inlined, entry, d, q);
    if |c| > 1 && |d| > 1 {
      var p, i := ChainParent(files, inlined, entry, c, q);
      var o, j := ChainParent(files, inlined, entry, d, q);
      ChainNode(files, inlined, entry, c[..|c| - 1], p);
      ChainNode(files, inlined, entry, d[..|d| - 1], o);
      SameLoadLine(files, inlined, entry, p, i, o, j, q);
      ChainsUnique(files, inlined, entry, c[..|c| - 1], d[..|d| - 1], p);
      assert c == c[..|c| - 1] + [q];
      assert d == d[..|d| - 1] + [q];
    } else {
      ReachesNonempty(files, inlined, entry, c, q);
      ReachesNonempty(files, inlined, entry, d, q);
      assert |c| == 1 && |d| == 1;
      assert c == [q] && d == [q];
    }
  }

  lemma SameLoadLine(files: Files, inlined: set<string>, entry: string, f: string, i: nat, g: string, j: nat, q: string)
    requires OneLoadLine(files, inlined, entry) && Node(inlined, entry, f) && Node(inlined, entry, g)
    requires LoadLine(files, inlined, f, i, q) && LoadLine(files, inlined, g, j, q)
    ensures f == g && i == j
  {
    hide LoadLine, Node;
  }

  lemma {:induction false} ChainPrefix(files: Files, inlined: set<string>, c: seq<string>, k: nat)
    requires Chain(files, inlined, c) && k < |c|
    ensures Reaches(files, inlined, c[0], c[..k + 1], c[k])
    decreases |c|
  {
    hide Linked;
    if k < |c| - 1 {
      ChainPrefix(files, inlined, c[..|c| - 1], k);
      assert c[..|c| - 1][..k + 1] == c[..k + 1];
    } else {
      assert c[..k + 1] == c;
    }
  }

  /** So a chain from the entry never comes back to a file. */
  lemma NoReturn(files: Files, inlined: set<string>, entry: string, c: seq<string>, f: string, i: nat, q: string)
    requires LoadTree(files, inlined, entry)
    requires Reaches(files, inlined, entry, c, f) && LoadLine(files, inlined, f, i, q)
    ensures q !in c
  {
    hide LoadLine, LoadTree;
    if k: nat :| k < |c| && c[k] == q {
      ChainExtend(files, inlined, entry, c, f, i, q);
      ChainPrefix(files, inlined, c, k);
      ChainsUnique(files, inlined, entry, c + [q], c[..k + 1], q);
    }
  }

  /** If all its loads end, so does a file. */
  lemma {:induction false} EndsByLines(files: Files, inlined: set<string>, path: string, n: nat) returns (fuel: nat)
    requires path in files && n <= |LinesOf(files, path)|
    requires forall i: nat, q :: LoadLine(files, inlined, path, i, q) ==> Ends(files, inlined, q)
    ensures TraceTo(files, inlined, path, n, fuel).Some?
  {
    hide Trace, LinesOf, Loads, Ends;
    fuel := 0;
    if n > 0 {
      fuel := EndsByLines(files, inlined, path, n - 1);
      var target := Loads(inlined, LinesOf(files, path)[n - 1]);
      if target.Some? {
        assert LoadLine(files, inlined, path, n - 1, target.value);
        var events, f := SomeRun(files, inlined, target.value);
        var more := EnoughFuel(files, inlined, target.value, events, fuel);
        TraceToMore(files, inlined, path, n - 1, fuel, more);
        fuel := more;
      }
    }
  }

  lemma SomeRun(files: Files, inlined: set<string>, path: string) returns (events: seq<Event>, fuel: nat)
    requires Ends(files, inlined, path)
    ensures Trace(files, inlined, path, fuel) == Some(events) && Runs(files, inlined, path, events)
  {
    hide Trace;
    fuel :| Trace(files, inlined, path, fuel).Some?;
    events := Trace(files, inlined, path, fuel).value;
  }

  lemma EndsWhole(files: Files, inlined: set<string>, path: string, fuel: nat)
    requires path in files && TraceTo(files, inlined, path, |LinesOf(files, path)|, fuel).Some?
    ensures Ends(files, inlined, path)
  {
    hide LinesOf, TraceTo;
    assert Trace(files, inlined, path, fuel + 1).Some?;
  }

  /** Nothing in a tree runs forever: each load goes to a file not yet on the chain. */
  lemma {:induction false} TreeEnds(files: Files, inlined: set<string>, entry: string, c: seq<string>, f: string)
    requires LoadTree(files, inlined, entry) && Reaches(files, inlined, entry, c, f)
    requires Elements(c) <= inlined + {entry}
    ensures Ends(files, inlined, f)
    decreases |inlined + {entry} - Elements(c)|
  {
    hide LoadLine, Reaches, OneLoadLine, Ends, Elements;
    ChainNode(files, inlined, entry, c, f);
    forall i: nat, q | LoadLine(files, inlined, f, i, q)
      ensures Ends(files, inlined, q)
    {
      NoReturn(files, inlined, entry, c, f, i, q);
      TargetInlined(files, inlined, f, i, q);
      ChainExtend(files, inlined, entry, c, f, i, q);
      StackGrows(c, q, inlined + {entry});
      TreeEnds(files, inlined, entry, c + [q], q);
    }
    var fuel := EndsByLines(files, inlined, f, |LinesOf(files, f)|);
    EndsWhole(files, inlined, f, fuel);
  }

  lemma JoinedLoad(files: Files, inlined: set<string>, entry: string, root: seq<string>, f: string, c: seq<string>, e: Event)
    requires Reaches(files, inlined, entry, root, f) && Reaches(files, inlined, f, c, e.from)
    requires e.Load? && OfSource(files, inlined, e)
    ensures Reaches(files, inlined, entry, root + c[1..] + [e.target], e.target)
  {
    hide LoadLine, Reaches, OfSource;
    OfSourceLoad(files, inlined, e);
    ReachesNonempty(files, inlined, f, c, e.from);
    ChainJoin(files, inlined, entry, root, f, c, e.from);
    ChainExtend(files, inlined, entry, root + c[1..], e.from, e.index, e.target);
  }

  /** In a tree no run loads a file twice. */
  lemma {:induction false} LoadedOnce(files: Files, inlined: set<string>, entry: string, root: seq<string>, f: string, fuel: nat, q: string)
    requires LoadTree(files, inlined, entry) && Reaches(files, inlined, entry, root, f)
    requires Trace(files, inlined, f, fuel).Some?
    ensures LoadCount(Trace(files, inlined, f, fuel).value, q) <= 1
    decreases fuel, 0, 0
  {
    hide LoadTree, Reaches, LinesOf, TraceTo, LoadCount;
    LinesLoadOnce(files, inlined, entry, root, f, |LinesOf(files, f)|, fuel - 1, q);
  }

  lemma {:induction false} LinesLoadOnce(files: Files, inlined: set<string>, entry: string, root: seq<string>, f: string, n: nat, fuel: nat, q: string)
    requires LoadTree(files, inlined, entry) && Reaches(files, inlined, entry, root, f)
    requires f in files && n <= |LinesOf(files, f)| && TraceTo(files, inlined, f, n, fuel).Some?
    ensures LoadCount(TraceTo(files, inlined, f, n, fuel).value, q) <= 1
    decreases fuel, 1, n
  {
    hide LoadTree, Reaches, LinesOf, TraceLine, LoadCount, LoadLine;
    if n == 0 {
      NoLoads(q);
    } else {
      var before, line := TraceTo(files, inlined, f, n - 1, fuel).value, TraceLine(files, inlined, f, n - 1, fuel).value;
      LinesLoadOnce(files, inlined, entry, root, f, n - 1, fuel, q);
      LineLoadsOnce(files, inlined, entry, root, f, n - 1, fuel, q);
      LoadCountAppend(before, line, q);
      if LoadCount(before, q) >= 1 && LoadCount(line, q) >= 1 {
        DifferentLines(files, inlined, entry, root, f, n - 1, fuel, q);
      }
    }
  }

  lemma NoLoads(q: string)
    ensures LoadCount([], q) == 0
  {
  }

  lemma {:induction false} LineLoadsOnce(files: Files, inlined: set<string>, entry: string, root: seq<string>, f: string, i: nat, fuel: nat, q: string)
    requires LoadTree(files, inlined, entry) && Reaches(files, inlined, entry, root, f)
    requires f in files && i < |LinesOf(files, f)| && TraceLine(files, inlined, f, i, fuel).Some?
    ensures LoadCount(TraceLine(files, inlined, f, i, fuel).value, q) <= 1
    decreases fuel, 0, 1
  {
    hide LoadTree, Reaches, LinesOf, Trace, Loads, LoadCount;
    var target := Loads(inlined, LinesOf(files, f)[i]);
    if target.Some? {
      assert LoadLine(files, inlined, f, i, target.value);
      ChainExtend(files, inlined, entry, root, f, i, target.value);
      LoadedOnce(files, inlined, entry, root + [target.value], target.value, fuel, q);
      var inner := Trace(files, inlined, target.value, fuel).value;
      LoadCountAppend([Load(f, i, target.value)], inner, q);
      OneLoad(Load(f, i, target.value), q);
      if target.value == q && LoadCount(inner, q) >= 1 {
        NotInside(files, inlined, entry, root + [q], q, fuel);
      }
    } else {
      OneLoad(Emit(f, i, LinesOf(files, f)[i], i == |LinesOf(files, f)| - 1), q);
    }
  }

  lemma OneLoad(e: Event, q: string)
    ensures LoadCount([e], q) == if IsLoadOf(e, q) then 1 else 0
  {
    assert LoadCount([e], q) == LoadCount([e][..0], q) + if IsLoadOf(e, q) then 1 else 0;
  }

  /** A file's own run does not load it. */
  lemma NotInside(files: Files, inlined: set<string>, entry: string, root: seq<string>, q: string, fuel: nat)
    requires LoadTree(files, inlined, entry) && Reaches(files, inlined, entry, root, q)
    requires Trace(files, inlined, q, fuel).Some?
    ensures LoadCount(Trace(files, inlined, q, fuel).value, q) == 0
  {
    hide LoadTree, Reaches, Trace, LoadCount, LoadLine;
    var events := Trace(files, inlined, q, fuel).value;
    if LoadCount(events, q) >= 1 {
      var k := Counted1(events, q);
      var c := RunReaches(files, inlined, q, fuel, k);
      ReachesNonempty(files, inlined, q, c, events[k].from);
      JoinedLoad(files, inlined, entry, root, q, c, events[k]);
      ChainsUnique(files, inlined, entry, root, root + c[1..] + [q], q);
    }
  }

  /** Two lines of a file never both lead to a load of the same file. */
  lemma DifferentLines(files: Files, inlined: set<string>, entry: string, root: seq<string>, f: string, n: nat, fuel: nat, q: string)
    requires LoadTree(files, inlined, entry) && Reaches(files, inlined, entry, root, f)
    requires f in files && n < |LinesOf(files, f)|
    requires TraceTo(files, inlined, f, n, fuel).Some? && TraceLine(files, inlined, f, n, fuel).Some?
    requires LoadCount(TraceTo(files, inlined, f, n, fuel).value, q) >= 1
    ensures LoadCount(TraceLine(files, inlined, f, n, fuel).value, q) == 0
  {
    hide LinesOf, Reaches, TraceTo, TraceLine, LoadCount, LoadLine, OneLoadLine, Node;
    var before, line := TraceTo(files, inlined, f, n, fuel).value, TraceLine(files, inlined, f, n, fuel).value;
    if LoadCount(line, q) >= 1 {
      var k := Counted1(before, q);
      var c, j := LinesReach(files, inlined, f, n, fuel, k);
      var l := Counted1(line, q);
      var d := LineReaches(files, inlined, f, n, fuel, l);
      OfSourceLoad(files, inlined, before[k]);
      OfSourceLoad(files, inlined, line[l]);
      JoinedLoad(files, inlined, entry, root, f, c, before[k]);
      JoinedLoad(files, inlined, entry, root, f, d, line[l]);
      ReachesNonempty(files, inlined, f, c, before[k].from);
      ReachesNonempty(files, inlined, f, d, line[l].from);
      ChainsUnique(files, inlined, entry, root + c[1..] + [q], root + d[1..] + [q], q);
      SameTail(root, c, d, q);
      ReachesHead(files, inlined, f, c, before[k].from);
      ReachesHead(files, inlined, f, d, line[l].from);
      ChainNode(files, inlined, entry, root, f);
      SameLoadLine(files, inlined, entry, f, j, f, n, if |c| == 1 then q else c[1]);
    }
  }

  lemma SameTail(root: seq<string>, c: seq<string>, d: seq<string>, q: string)
    requires c != [] && d != [] && root + c[1..] + [q] == root + d[1..] + [q]
    ensures |c| == |d| && c[1..] == d[1..]
  {
    assert |root + c[1..] + [q]| == |root| + |c| && |root + d[1..] + [q]| == |root| + |d|;
    forall k | 0 <= k < |c| - 1
      ensures c[1..][k] == d[1..][k]
    {
      assert (root + c[1..] + [q])[|root| + k] == c[1..][k];
      assert (root + d[1..] + [q])[|root| + k] == d[1..][k];
    }
  }

  lemma ReachesHead(files: Files, inlined: set<string>, f: string, c: seq<string>, to: string)
    requires Reaches(files, inlined, f, c, to)
    ensures |c| >= 1 && c[0] == f && (|c| == 1 ==> to == f) && (|c| > 1 ==> c[1] == c[1..][0])
  {
  }

  lemma TreeLoadsEachOnce(files: Files, inlined: set<string>, entry: string, fuel: nat)
    requires LoadTree(files, inlined, entry) && Trace(files, inlined, entry, fuel).Some?
    ensures LoadsEachOnce(inlined, Trace(files, inlined, entry, fuel).value)
  {
    hide Trace, LoadLine, Chain, OneLoadLine, LoadCount;
    var events := Trace(files, inlined, entry, fuel).value;
    forall q | q in inlined
      ensures LoadCount(events, q) == 1
    {
      var c :| Reaches(files, inlined, entry, c, q);
      ReachesNonempty(files, inlined, entry, c, q);
      var p, i := ChainParent(files, inlined, entry, c, q);
      RunCoversLoad(files, inlined, entry, fuel, c[..|c| - 1], p, i, q);
      Counts1(events, Load(p, i, q), q);
      SelfReaches(files, inlined, entry);
      LoadedOnce(files, inlined, entry, [entry], entry, fuel, q);
    }
  }

  lemma SelfReaches(files: Files, inlined: set<string>, f: string)
    ensures Reaches(files, inlined, f, [f], f)
  {
  }

  /** Bundling succeeds exactly when the allowlisted loads are a tree rooted at the entry. */
  lemma BundlesExactlyTrees(files: Files, inlined: set<string>, entry: string)
    ensures Bundles(files, inlined, entry) <==> LoadTree(files, inlined, entry)
  {
    hide Trace, LoadTree, LoadsEachOnce, Reaches;
    if Bundles(files, inlined, entry) {
      var events :| Runs(files, inlined, entry, events) && LoadsEachOnce(inlined, events);
      var fuel: nat :| Trace(files, inlined, entry, fuel) == Some(events);
      RunIsTree(files, inlined, entry, fuel);
    }
    if LoadTree(files, inlined, entry) {
      SelfReaches(files, inlined, entry);
      TreeEnds(files, inlined, entry, [entry], entry);
      var events, fuel := SomeRun(files, inlined, entry);
      TreeLoadsEachOnce(files, inlined, entry, fuel);
    }
  }
}
