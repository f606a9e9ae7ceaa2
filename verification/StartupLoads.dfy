/** Which lines load a file: the pattern of scripts/codegen/startup.py `LOAD_LINE`, as a text
    and its parts. */
module StartupLoads {
  import opened Wire

  import opened Startup
  import opened StartupLines

  predicate Blank(s: string) {
    forall i :: 0 <= i < |s| ==> s[i] == ' ' || s[i] == '\t'
  }

  predicate LineEnd(s: string) {
    forall i :: 0 <= i < |s| ==> s[i] == '\r' || s[i] == '\n'
  }

  predicate Path(q: string) {
    q != "" && '\'' !in q && '"' !in q
  }

  /** Blanks, the call with its path in one kind of quotes, blanks, the end of the line. */
  predicate IsLoad(line: string, a: string, c: char, q: string, b: string, e: string) {
    && Blank(a) && Blank(b) && LineEnd(e) && Path(q) && (c == '\'' || c == '"')
    && line == a + ("load(" + ([c] + (q + ([c] + (");" + (b + e))))))
  }

  lemma {:induction false} StripTail(s: string, e: string)
    requires LineEnd(e) && (s != "" ==> s[|s| - 1] !in {'\r', '\n'})
    ensures StripEnd(s + e) == s
  {
    if e == "" {
      assert s + e == s;
    } else {
      assert (s + e)[..|s + e| - 1] == s + e[..|e| - 1];
      StripTail(s, e[..|e| - 1]);
    }
  }

  lemma {:induction false} SkipHead(a: string, s: string)
    requires Blank(a) && (s != "" ==> s[0] !in {' ', '\t'})
    ensures SkipBlanks(a + s) == s
  {
    if a == "" {
      assert a + s == s;
    } else {
      assert (a + s)[1..] == a[1..] + s;
      SkipHead(a[1..], s);
    }
  }

  lemma {:induction false} PathEnds(q: string, s: string)
    requires '\'' !in q && '"' !in q && s != "" && s[0] in {'\'', '"'}
    ensures PathLength(q + s) == |q|
  {
    if q == "" {
      assert q + s == s;
    } else {
      assert (q + s)[1..] == q[1..] + s;
      PathEnds(q[1..], s);
    }
  }

  /** The slices of the call that the pattern looks at. */
  lemma CallSlices(call: string, c: char, q: string, b: string)
    requires call == "load(" + ([c] + (q + ([c] + (");" + b))))
    ensures |call| >= 6 && call[..5] == "load(" && call[5] == c
    ensures var quoted := call[6..];
            && |quoted| == |q| + 3 + |b| && quoted == q + ([c] + (");" + b)) && quoted[|q|] == c && quoted[..|q|] == q
            && quoted[|q| + 1..|q| + 3] == ");" && quoted[|q| + 3..] == b
  {
    var rest := [c] + (");" + b);
    assert call[6..] == q + rest;
    assert (q + rest)[|q| + 1..|q| + 3] == rest[1..3] && (q + rest)[|q| + 3..] == rest[3..];
  }

  lemma CallRecognised(line: string, call: string, c: char, q: string, b: string)
    requires SkipBlanks(StripEnd(line)) == call == "load(" + ([c] + (q + ([c] + (");" + b))))
    requires Blank(b) && Path(q) && (c == '\'' || c == '"')
    ensures LoadTarget(line) == Some(q)
  {
    hide StripEnd, SkipBlanks, PathLength, Blank;
    CallSlices(call, c, q, b);
    PathEnds(q, [c] + (");" + b));
    SkipHead(b, "");
    assert b + "" == b;
  }

  lemma LoadRecognised(line: string, a: string, c: char, q: string, b: string, e: string)
    requires IsLoad(line, a, c, q, b, e)
    ensures LoadTarget(line) == Some(q)
  {
    hide StripEnd, SkipBlanks, LoadTarget, LineEnd, Path;
    var call := "load(" + ([c] + (q + ([c] + (");" + b))));
    Assemble(a + (call + e), a, c, q, b, e, call);
    assert line == (a + call) + e;
    CallSlices(call, c, q, b);
    LastOfCall(call, c, q, b);
    LastOf(a, call, b);
    StripTail(a + call, e);
    SkipHead(a, call);
    CallRecognised(line, call, c, q, b);
  }

  lemma LastOfCall(call: string, c: char, q: string, b: string)
    requires call == "load(" + ([c] + (q + ([c] + (");" + b))))
    ensures |call| >= |b| + 2 && call[|call| - |b|..] == b && call[|call| - |b| - 1] == ';'
  {
  }

  lemma LastOf(a: string, call: string, b: string)
    requires Blank(b) && |call| >= |b| + 2 && call[|call| - |b|..] == b && call[|call| - |b| - 1] == ';'
    ensures (a + call)[|a + call| - 1] !in {'\r', '\n'}
  {
    if b != "" {
      assert call[|call| - 1] == b[|b| - 1];
    }
  }

  lemma {:induction false} StripRest(s: string)
    ensures |StripEnd(s)| <= |s| && StripEnd(s) == s[..|StripEnd(s)|] && LineEnd(s[|StripEnd(s)|..])
  {
    if s != [] && s[|s| - 1] in {'\r', '\n'} {
      StripRest(s[..|s| - 1]);
      var m := |StripEnd(s)|;
      assert s[m..] == s[..|s| - 1][m..] + [s[|s| - 1]];
    }
  }

  lemma {:induction false} PathPlain(s: string)
    ensures '\'' !in s[..PathLength(s)] && '"' !in s[..PathLength(s)]
  {
    if s != "" && s[0] !in {'\'', '"'} {
      PathPlain(s[1..]);
      assert s[..PathLength(s)] == [s[0]] + s[1..][..PathLength(s[1..])];
    }
  }

  /** The call itself, once the ends of the line are gone. */
  lemma CallHasParts(line: string, s: string) returns (c: char, b: string)
    requires s == SkipBlanks(StripEnd(line)) && LoadTarget(line).Some?
    ensures var q := LoadTarget(line).value;
            && Blank(b) && Path(q) && (c == '\'' || c == '"')
            && s == "load(" + ([c] + (q + ([c] + (");" + b))))
  {
    hide StripEnd, SkipBlanks, PathLength;
    c := s[5];
    var quoted := s[6..];
    var n := PathLength(quoted);
    PathPlain(quoted);
    b := quoted[n + 3..];
    var k := SkipBlanksIs(b);
    assert b[..k] == b;
    QuotedParts(quoted, n, c, b);
    assert s == s[..5] + ([c] + quoted);
  }

  lemma QuotedParts(quoted: string, n: nat, c: char, b: string)
    requires n + 3 <= |quoted| && quoted[n] == c && quoted[n + 1..n + 3] == ");" && b == quoted[n + 3..]
    ensures quoted == quoted[..n] + ([c] + (");" + b))
  {
  }

  lemma LoadHasParts(line: string) returns (a: string, c: char, b: string, e: string)
    requires LoadTarget(line).Some?
    ensures IsLoad(line, a, c, LoadTarget(line).value, b, e)
  {
    hide StripEnd, SkipBlanks, LoadTarget;
    var t := StripEnd(line);
    StripRest(line);
    e := line[|t|..];
    var j := SkipBlanksIs(t);
    a := t[..j];
    var s := SkipBlanks(t);
    c, b := CallHasParts(line, s);
    assert line == a + (s + e);
    Assemble(line, a, c, LoadTarget(line).value, b, e, s);
  }

  lemma Assemble(line: string, a: string, c: char, q: string, b: string, e: string, s: string)
    requires line == a + (s + e) && s == "load(" + ([c] + (q + ([c] + (");" + b))))
    ensures line == a + ("load(" + ([c] + (q + ([c] + (");" + (b + e))))))
  {
    assert s + e == "load(" + ([c] + (q + ([c] + (");" + (b + e)))));
  }

  /** A line loads `q` if and only if it is such a call of `q`, with either kind of quotes. */
  lemma LoadLineIs(line: string, q: string)
    ensures LoadTarget(line) == Some(q) <==> exists a, c, b, e :: IsLoad(line, a, c, q, b, e)
  {
    hide LoadTarget, IsLoad;
    if LoadTarget(line) == Some(q) {
      var a, c, b, e := LoadHasParts(line);
    }
    if a, c, b, e :| IsLoad(line, a, c, q, b, e) {
      LoadRecognised(line, a, c, q, b, e);
    }
  }
}
