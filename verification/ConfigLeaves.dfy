/** Flattening of nested C structures into dotted leaf paths (`leaves` in
    scripts/codegen/wifi_config_schema.py). */
module ConfigLeaves {
  import opened Wire

  /** What the declaration pattern matched: a type word, a name, and whether an array or
      bit-field suffix follows. */
  datatype Shape = Shape(typeName: string, name: string, sized: bool)

  datatype Field = Field(path: string, declaration: string, shape: Option<Shape>)

  /** The fields of the inventory's structures, by type name. */
  type Symbols = map<string, seq<Field>>

  datatype Leaf = Leaf(path: string, declaration: string)

  /** The pattern's name is a word, so it holds no dot. */
  predicate WordNames(symbols: Symbols) {
    forall s, i :: s in symbols && 0 <= i < |symbols[s]| && symbols[s][i].shape.Some? ==> '.' !in symbols[s][i].shape.value.name
  }

  /** The field's type is itself a structure with fields. */
  predicate Nested(symbols: Symbols, f: Field) {
    f.shape.Some? && f.shape.value.typeName in symbols && symbols[f.shape.value.typeName] != []
  }

  function ChildOf(symbols: Symbols, f: Field): (child: string)
    requires Nested(symbols, f)
    ensures child in symbols
  {
    f.shape.value.typeName
  }

  /** The declaration is one the generator understands. */
  predicate Reviewed(symbols: Symbols, f: Field) {
    f.shape.Some? && f.shape.value.name == f.path && (Nested(symbols, f) ==> !f.shape.value.sized)
  }

  predicate StructureOk(symbols: Symbols, name: string) {
    name in symbols && symbols[name] != [] && forall i :: 0 <= i < |symbols[name]| ==> Reviewed(symbols, symbols[name][i])
  }

  // ------------------------------------------------------- what is reached, and the leaves

  /** A walk takes, structure by structure, the number of a nested field. */
  predicate Walk(symbols: Symbols, name: string, w: seq<nat>)
    decreases |w|
  {
    w != [] ==>
      && name in symbols && w[0] < |symbols[name]| && Nested(symbols, symbols[name][w[0]])
      && Walk(symbols, ChildOf(symbols, symbols[name][w[0]]), w[1..])
  }

  /** The structures that a walk passes, the last one it reaches included. */
  function Passed(symbols: Symbols, name: string, w: seq<nat>): (names: seq<string>)
    requires Walk(symbols, name, w)
    ensures |names| == |w| + 1
    decreases |w|
  {
    if w == [] then [name] else [name] + Passed(symbols, ChildOf(symbols, symbols[name][w[0]]), w[1..])
  }

  /** At the end of the walk is a sound structure, met neither on the walk nor before it. */
  predicate EndsWell(symbols: Symbols, name: string, chain: seq<string>, w: seq<nat>)
    requires Walk(symbols, name, w)
  {
    var names := Passed(symbols, name, w);
    StructureOk(symbols, names[|w|]) && names[|w|] !in chain && names[|w|] !in names[..|w|]
  }

  /** Every structure that is reached is sound, and none is reached from itself. */
  ghost predicate Sound(symbols: Symbols, name: string, chain: seq<string>) {
    forall w :: Walk(symbols, name, w) ==> EndsWell(symbols, name, chain, w)
  }

  /** A leaf is a walk and the number of a field that is not nested. */
  predicate LeafPath(symbols: Symbols, name: string, p: seq<nat>)
    decreases |p|
  {
    && p != [] && name in symbols && p[0] < |symbols[name]|
    && if |p| == 1 then !Nested(symbols, symbols[name][p[0]])
       else Nested(symbols, symbols[name][p[0]]) && LeafPath(symbols, ChildOf(symbols, symbols[name][p[0]]), p[1..])
  }

  /** Its dotted name and its own declaration. */
  function LeafOf(symbols: Symbols, name: string, p: seq<nat>): Leaf
    requires LeafPath(symbols, name, p)
    decreases |p|
  {
    var f := symbols[name][p[0]];
    if |p| == 1 then Leaf(f.path, f.declaration) else Under(f.path, LeafOf(symbols, ChildOf(symbols, f), p[1..]))
  }

  function Under(path: string, leaf: Leaf): Leaf {
    Leaf(path + "." + leaf.path, leaf.declaration)
  }

  /** No two leaves have the same dotted name. */
  ghost predicate DistinctNames(symbols: Symbols, name: string) {
    forall p, q :: LeafPath(symbols, name, p) && LeafPath(symbols, name, q) && p != q ==>
      LeafOf(symbols, name, p).path != LeafOf(symbols, name, q).path
  }

  // ------------------------------------------------------------------ one level down

  lemma SoundHere(symbols: Symbols, name: string, chain: seq<string>)
    requires Sound(symbols, name, chain)
    ensures StructureOk(symbols, name) && name !in chain
  {
    hide StructureOk;
    assert Walk(symbols, name, []);
    assert EndsWell(symbols, name, chain, []);
  }

  lemma SoundBelow(symbols: Symbols, name: string, chain: seq<string>, i: nat)
    requires Sound(symbols, name, chain) && name in symbols && i < |symbols[name]| && Nested(symbols, symbols[name][i])
    ensures Sound(symbols, ChildOf(symbols, symbols[name][i]), chain + [name])
  {
    hide StructureOk, Nested;
    var child := ChildOf(symbols, symbols[name][i]);
    forall w | Walk(symbols, child, w)
      ensures EndsWell(symbols, child, chain + [name], w)
    {
      var v := [i] + w;
      assert v[1..] == w;
      assert EndsWell(symbols, name, chain, v);
      assert Passed(symbols, name, v) == [name] + Passed(symbols, child, w);
      assert Passed(symbols, name, v)[..|v|] == [name] + Passed(symbols, child, w)[..|w|];
    }
  }

  lemma SoundTogether(symbols: Symbols, name: string, chain: seq<string>)
    requires StructureOk(symbols, name) && name !in chain
    requires forall i :: 0 <= i < |symbols[name]| && Nested(symbols, symbols[name][i]) ==>
               Sound(symbols, ChildOf(symbols, symbols[name][i]), chain + [name])
    ensures Sound(symbols, name, chain)
  {
    hide StructureOk, Nested;
    forall w | Walk(symbols, name, w)
      ensures EndsWell(symbols, name, chain, w)
    {
      if w != [] {
        var child := ChildOf(symbols, symbols[name][w[0]]);
        assert EndsWell(symbols, child, chain + [name], w[1..]);
        assert Passed(symbols, name, w)[..|w|] == [name] + Passed(symbols, child, w[1..])[..|w| - 1];
      }
    }
  }

  lemma LeafBelow(symbols: Symbols, name: string, i: nat, p: seq<nat>)
    requires name in symbols && i < |symbols[name]| && Nested(symbols, symbols[name][i])
    requires LeafPath(symbols, ChildOf(symbols, symbols[name][i]), p)
    ensures LeafPath(symbols, name, [i] + p)
    ensures LeafOf(symbols, name, [i] + p)
            == Under(symbols[name][i].path, LeafOf(symbols, ChildOf(symbols, symbols[name][i]), p))
  {
    hide Nested;
    assert ([i] + p)[1..] == p;
  }

  lemma DotInside(a: string, b: string, x: string, y: string)
    requires |a| < |b| && a + "." + x == b + "." + y
    ensures '.' in b
  {
    assert (a + "." + x)[|a|] == '.';
    assert (b + "." + y)[|a|] == b[|a|];
  }

  /** A dotted name splits at its first dot in one way. */
  lemma DottedOnce(a: string, b: string, x: string, y: string)
    requires '.' !in a && '.' !in b && a + "." + x == b + "." + y
    ensures a == b && x == y
  {
    if |a| < |b| {
      DotInside(a, b, x, y);
    } else if |b| < |a| {
      DotInside(b, a, y, x);
    }
    assert (a + "." + x)[..|a|] == a && (b + "." + y)[..|b|] == b;
    assert (a + "." + x)[|a| + 1..] == x && (b + "." + y)[|b| + 1..] == y;
  }

  lemma DistinctBelow(symbols: Symbols, name: string, i: nat)
    requires DistinctNames(symbols, name) && name in symbols && i < |symbols[name]| && Nested(symbols, symbols[name][i])
    ensures DistinctNames(symbols, ChildOf(symbols, symbols[name][i]))
  {
    hide Nested, LeafPath, LeafOf;
    var child := ChildOf(symbols, symbols[name][i]);
    forall p, q | LeafPath(symbols, child, p) && LeafPath(symbols, child, q) && p != q
      ensures LeafOf(symbols, child, p).path != LeafOf(symbols, child, q).path
    {
      LeafBelow(symbols, name, i, p);
      LeafBelow(symbols, name, i, q);
      assert ([i] + p)[1..] == p && ([i] + q)[1..] == q;
    }
  }

  // -------------------------------------------------------------------- the method

  /** Leaves found, each with the path it comes from; their names are distinct. */
  ghost predicate Found(symbols: Symbols, name: string, paths: seq<seq<nat>>, result: seq<Leaf>) {
    && |paths| == |result|
    && (forall k :: 0 <= k < |paths| ==> LeafPath(symbols, name, paths[k]) && result[k] == LeafOf(symbols, name, paths[k]))
    && (forall k, l :: 0 <= k < l < |result| ==> result[k].path != result[l].path)
  }

  /** They are all the leaves of the first fields. */
  ghost predicate Covers(symbols: Symbols, name: string, fields: nat, paths: seq<seq<nat>>) {
    && (forall k :: 0 <= k < |paths| ==> paths[k] != [] && paths[k][0] < fields)
    && (forall p :: LeafPath(symbols, name, p) && p[0] < fields ==> p in paths)
  }

  predicate Has(result: seq<Leaf>, path: string) {
    exists leaf :: leaf in result && leaf.path == path
  }

  function Elements(chain: seq<string>): set<string> {
    set s | s in chain
  }

  function Lifted(i: nat, paths: seq<seq<nat>>): (ps: seq<seq<nat>>)
    ensures |ps| == |paths|
  {
    seq(|paths|, k requires 0 <= k < |paths| => [i] + paths[k])
  }

  lemma FoundMore(symbols: Symbols, name: string, paths: seq<seq<nat>>, result: seq<Leaf>, p: seq<nat>, leaf: Leaf)
    requires Found(symbols, name, paths, result) && LeafPath(symbols, name, p) && leaf == LeafOf(symbols, name, p)
    requires !Has(result, leaf.path)
    ensures Found(symbols, name, paths + [p], result + [leaf])
  {
    hide LeafPath, LeafOf;
  }

  lemma Clash(symbols: Symbols, name: string, paths: seq<seq<nat>>, result: seq<Leaf>, p: seq<nat>)
    requires Found(symbols, name, paths, result) && LeafPath(symbols, name, p) && p !in paths
    requires Has(result, LeafOf(symbols, name, p).path)
    ensures !DistinctNames(symbols, name)
  {
    hide LeafPath, LeafOf;
    var leaf :| leaf in result && leaf.path == LeafOf(symbols, name, p).path;
    var k :| 0 <= k < |result| && result[k] == leaf;
    assert paths[k] in paths;
  }

  lemma CoversLeaf(symbols: Symbols, name: string, i: nat, paths: seq<seq<nat>>)
    requires name in symbols && i < |symbols[name]| && !Nested(symbols, symbols[name][i])
    requires Covers(symbols, name, i, paths)
    ensures LeafPath(symbols, name, [i]) && [i] !in paths && Covers(symbols, name, i + 1, paths + [[i]])
  {
    hide Nested;
    forall p | LeafPath(symbols, name, p) && p[0] == i
      ensures p == [i]
    {
    }
  }

  lemma CoversNested(symbols: Symbols, name: string, i: nat, paths: seq<seq<nat>>, inner: seq<seq<nat>>)
    requires name in symbols && i < |symbols[name]| && Nested(symbols, symbols[name][i])
    requires Covers(symbols, name, i, paths)
    requires var child := ChildOf(symbols, symbols[name][i]); Covers(symbols, child, |symbols[child]|, inner)
    ensures Covers(symbols, name, i + 1, paths + Lifted(i, inner))
  {
    hide Nested;
    var child := ChildOf(symbols, symbols[name][i]);
    forall p | LeafPath(symbols, name, p) && p[0] < i + 1
      ensures p in paths + Lifted(i, inner)
    {
      if p[0] == i {
        InsideChild(symbols, name, i, p);
        var k :| 0 <= k < |inner| && inner[k] == p[1..];
        assert p == [i] + p[1..];
        assert Lifted(i, inner)[k] == p;
      }
    }
  }

  lemma InsideChild(symbols: Symbols, name: string, i: nat, p: seq<nat>)
    requires name in symbols && i < |symbols[name]| && Nested(symbols, symbols[name][i])
    requires LeafPath(symbols, name, p) && p[0] == i
    ensures |p| > 1 && LeafPath(symbols, ChildOf(symbols, symbols[name][i]), p[1..])
    ensures p[1] < |symbols[ChildOf(symbols, symbols[name][i])]|
  {
    hide Nested;
  }

  /** The path of the next inner leaf is new. */
  lemma FreshPath(symbols: Symbols, name: string, i: nat, paths: seq<seq<nat>>, child: string, inner: seq<seq<nat>>,
                  leaves: seq<Leaf>, k: nat)
    requires Covers(symbols, name, i, paths) && Found(symbols, child, inner, leaves) && k < |inner|
    ensures [i] + inner[k] !in paths + Lifted(i, inner[..k])
  {
    hide LeafPath, LeafOf;
    var p := [i] + inner[k];
    assert p[1..] == inner[k];
    forall l | 0 <= l < k
      ensures Lifted(i, inner[..k])[l] != p
    {
      assert ([i] + inner[l])[1..] == inner[l];
    }
  }

  lemma AllDistinct(symbols: Symbols, name: string, paths: seq<seq<nat>>, result: seq<Leaf>)
    requires name in symbols && Found(symbols, name, paths, result) && Covers(symbols, name, |symbols[name]|, paths)
    ensures DistinctNames(symbols, name)
  {
    hide LeafOf, Nested;
    forall p, q | LeafPath(symbols, name, p) && LeafPath(symbols, name, q) && p != q
      ensures LeafOf(symbols, name, p).path != LeafOf(symbols, name, q).path
    {
      var k :| 0 <= k < |paths| && paths[k] == p;
      var l :| 0 <= l < |paths| && paths[l] == q;
    }
  }

  lemma NothingFound(symbols: Symbols, name: string)
    ensures Found(symbols, name, [], []) && Covers(symbols, name, 0, [])
  {
  }

  lemma ChainGrows(chain: seq<string>, name: string, universe: set<string>)
    requires name !in chain && name in universe && Elements(chain) <= universe
    ensures Elements(chain + [name]) <= universe
    ensures |universe - Elements(chain + [name])| < |universe - Elements(chain)|
  {
    assert Elements(chain + [name]) == Elements(chain) + {name};
    assert universe - Elements(chain + [name]) == (universe - Elements(chain)) - {name};
  }

  lemma NotSound(symbols: Symbols, name: string, chain: seq<string>)
    requires name in chain || !StructureOk(symbols, name)
    ensures !Sound(symbols, name, chain)
  {
    hide StructureOk;
    if Sound(symbols, name, chain) {
      SoundHere(symbols, name, chain);
    }
  }

  lemma ChildFails(symbols: Symbols, name: string, chain: seq<string>, i: nat)
    requires name in symbols && i < |symbols[name]| && Nested(symbols, symbols[name][i])
    requires var child := ChildOf(symbols, symbols[name][i]);
             !(Sound(symbols, child, chain + [name]) && DistinctNames(symbols, child))
    ensures !(Sound(symbols, name, chain) && DistinctNames(symbols, name))
  {
    hide Sound, DistinctNames, Nested;
    if Sound(symbols, name, chain) && DistinctNames(symbols, name) {
      SoundBelow(symbols, name, chain, i);
      DistinctBelow(symbols, name, i);
    }
  }

  /** `leaves`: it succeeds exactly when everything reached is sound, nothing is reached
      from itself and no dotted name comes twice, and then returns every leaf once. */
  method Leaves(symbols: Symbols, name: string, chain: seq<string>) returns (r: Result<seq<Leaf>>, ghost paths: seq<seq<nat>>)
    requires Elements(chain) <= symbols.Keys
    ensures r.Ok? <==> Sound(symbols, name, chain) && DistinctNames(symbols, name)
    ensures r.Ok? ==> name in symbols && Found(symbols, name, paths, r.value) && Covers(symbols, name, |symbols[name]|, paths)
    decreases |symbols.Keys - Elements(chain)|
  {
    hide Sound, DistinctNames, Found, Covers, LeafPath, LeafOf, Nested, Elements, Has;
    paths := [];
    if name in chain || name !in symbols || symbols[name] == [] {
      NotSound(symbols, name, chain);
      return Err, paths;
    }
    ChainGrows(chain, name, symbols.Keys);
    var fields := symbols[name];
    var result: seq<Leaf> := [];
    NothingFound(symbols, name);
    for i := 0 to |fields|
      invariant Found(symbols, name, paths, result) && Covers(symbols, name, i, paths)
      invariant forall k :: 0 <= k < i ==> Reviewed(symbols, fields[k])
      invariant forall k :: 0 <= k < i && Nested(symbols, fields[k]) ==> Sound(symbols, ChildOf(symbols, fields[k]), chain + [name])
    {
      var field := fields[i];
      if field.shape.None? || field.shape.value.name != field.path {
        NotSound(symbols, name, chain);
        return Err, paths;
      }
      if Nested(symbols, field) {
        if field.shape.value.sized {
          NotSound(symbols, name, chain);
          return Err, paths;
        }
        var child := ChildOf(symbols, field);
        var inner, innerPaths := Leaves(symbols, child, chain + [name]);
        if inner.Err? {
          ChildFails(symbols, name, chain, i);
          return Err, paths;
        }
        FoundCount(symbols, child, innerPaths, inner.value);
        ghost var before := paths;
        assert before + Lifted(i, innerPaths[..0]) == before;
        for k := 0 to |inner.value|
          invariant paths == before + Lifted(i, innerPaths[..k]) && Found(symbols, name, paths, result)
        {
          var leaf := Under(field.path, inner.value[k]);
          FoundAt(symbols, child, innerPaths, inner.value, k);
          LeafBelow(symbols, name, i, innerPaths[k]);
          FreshPath(symbols, name, i, before, child, innerPaths, inner.value, k);
          if Has(result, leaf.path) {
            Clash(symbols, name, paths, result, [i] + innerPaths[k]);
            return Err, paths;
          }
          FoundMore(symbols, name, paths, result, [i] + innerPaths[k], leaf);
          result := result + [leaf];
          paths := paths + [[i] + innerPaths[k]];
          assert Lifted(i, innerPaths[..k + 1]) == Lifted(i, innerPaths[..k]) + [[i] + innerPaths[k]];
        }
        assert innerPaths[..|inner.value|] == innerPaths;
        CoversNested(symbols, name, i, before, innerPaths);
      } else {
        CoversLeaf(symbols, name, i, paths);
        PlainLeaf(symbols, name, i);
        if Has(result, field.path) {
          Clash(symbols, name, paths, result, [i]);
          return Err, paths;
        }
        FoundMore(symbols, name, paths, result, [i], Leaf(field.path, field.declaration));
        result := result + [Leaf(field.path, field.declaration)];
        paths := paths + [[i]];
      }
    }
    SoundTogether(symbols, name, chain);
    AllDistinct(symbols, name, paths, result);
    return Ok(result), paths;
  }

  lemma PlainLeaf(symbols: Symbols, name: string, i: nat)
    requires name in symbols && i < |symbols[name]| && !Nested(symbols, symbols[name][i])
    ensures LeafPath(symbols, name, [i]) && LeafOf(symbols, name, [i]) == Leaf(symbols[name][i].path, symbols[name][i].declaration)
  {
    hide Nested;
  }

  lemma FoundCount(symbols: Symbols, name: string, paths: seq<seq<nat>>, result: seq<Leaf>)
    requires Found(symbols, name, paths, result)
    ensures |paths| == |result|
  {
  }

  lemma FoundAt(symbols: Symbols, name: string, paths: seq<seq<nat>>, result: seq<Leaf>, k: nat)
    requires Found(symbols, name, paths, result) && k < |result|
    ensures k < |paths| && LeafPath(symbols, name, paths[k]) && result[k] == LeafOf(symbols, name, paths[k])
  {
    hide LeafPath, LeafOf;
  }

  // ---------------------------------------------------------------- C structures

  /** As C requires, no structure that is reached has two fields of one name. */
  ghost predicate DistinctFields(symbols: Symbols, name: string) {
    forall w :: Walk(symbols, name, w) ==>
      var s := Passed(symbols, name, w)[|w|];
      s in symbols ==> forall i, j :: 0 <= i < j < |symbols[s]| ==> symbols[s][i].path != symbols[s][j].path
  }

  lemma DistinctFieldsBelow(symbols: Symbols, name: string, i: nat)
    requires DistinctFields(symbols, name) && name in symbols && i < |symbols[name]| && Nested(symbols, symbols[name][i])
    ensures DistinctFields(symbols, ChildOf(symbols, symbols[name][i]))
  {
    hide Nested;
    var child := ChildOf(symbols, symbols[name][i]);
    forall w | Walk(symbols, child, w)
      ensures var s := Passed(symbols, child, w)[|w|];
              s in symbols ==> forall i, j :: 0 <= i < j < |symbols[s]| ==> symbols[s][i].path != symbols[s][j].path
    {
      var v := [i] + w;
      assert v[1..] == w;
      assert Walk(symbols, name, v);
      assert Passed(symbols, name, v)[|v|] == Passed(symbols, child, w)[|w|];
    }
  }

  lemma FieldsHere(symbols: Symbols, name: string, i: nat, j: nat)
    requires DistinctFields(symbols, name) && name in symbols && i < j < |symbols[name]|
    ensures symbols[name][i].path != symbols[name][j].path
  {
    hide Nested;
    assert Walk(symbols, name, []);
  }

  lemma FieldWord(symbols: Symbols, name: string, chain: seq<string>, i: nat)
    requires WordNames(symbols) && Sound(symbols, name, chain) && name in symbols && i < |symbols[name]|
    ensures '.' !in symbols[name][i].path
  {
    hide Sound, Nested;
    SoundHere(symbols, name, chain);
    assert Reviewed(symbols, symbols[name][i]);
  }

  /** Then dotted names never clash, so soundness alone decides. */
  lemma {:induction false} NamesDetermineLeaves(symbols: Symbols, name: string, chain: seq<string>, p: seq<nat>, q: seq<nat>)
    requires WordNames(symbols) && Sound(symbols, name, chain) && DistinctFields(symbols, name)
    requires LeafPath(symbols, name, p) && LeafPath(symbols, name, q)
    requires LeafOf(symbols, name, p).path == LeafOf(symbols, name, q).path
    ensures p == q
    decreases |p|
  {
    hide Sound, DistinctFields, Nested, WordNames;
    var f, g := symbols[name][p[0]], symbols[name][q[0]];
    FieldWord(symbols, name, chain, p[0]);
    FieldWord(symbols, name, chain, q[0]);
    if |p| > 1 && |q| > 1 {
      DottedOnce(f.path, g.path, LeafOf(symbols, ChildOf(symbols, f), p[1..]).path, LeafOf(symbols, ChildOf(symbols, g), q[1..]).path);
    }
    if p[0] < q[0] {
      FieldsHere(symbols, name, p[0], q[0]);
    } else if q[0] < p[0] {
      FieldsHere(symbols, name, q[0], p[0]);
    }
    if |p| > 1 {
      SoundBelow(symbols, name, chain, p[0]);
      DistinctFieldsBelow(symbols, name, p[0]);
      NamesDetermineLeaves(symbols, ChildOf(symbols, f), chain + [name], p[1..], q[1..]);
      assert p == [p[0]] + p[1..] && q == [q[0]] + q[1..];
    }
  }

  // --------------------------------------------------------------- what a leaf path is

  /** The structure that a leaf path enters at step `k`. */
  function StructureAt(symbols: Symbols, name: string, p: seq<nat>, k: nat): string
    requires LeafPath(symbols, name, p) && k < |p|
    decreases k
  {
    if k == 0 then name else StructureAt(symbols, ChildOf(symbols, symbols[name][p[0]]), p[1..], k - 1)
  }

  /** A type word names a structure that has fields. */
  predicate IsStructure(symbols: Symbols, typeName: string) {
    typeName in symbols && |symbols[typeName]| > 0
  }

  /** From the root down, each field but the last is of the structure that the next one is
      taken from, and the last is of no structure that has fields. */
  lemma {:induction false} LeafPathSteps(symbols: Symbols, name: string, p: seq<nat>, k: nat)
    requires LeafPath(symbols, name, p) && k < |p|
    ensures StructureAt(symbols, name, p, 0) == name
    ensures StructureAt(symbols, name, p, k) in symbols && p[k] < |symbols[StructureAt(symbols, name, p, k)]|
    ensures var shape := symbols[StructureAt(symbols, name, p, k)][p[k]].shape;
            if k == |p| - 1 then shape.None? || !IsStructure(symbols, shape.value.typeName)
            else shape.Some? && shape.value.typeName == StructureAt(symbols, name, p, k + 1) && IsStructure(symbols, shape.value.typeName)
    decreases k
  {
    if k > 0 {
      LeafPathSteps(symbols, ChildOf(symbols, symbols[name][p[0]]), p[1..], k - 1);
    }
  }

  /** A field of a structure type without fields is a leaf itself. */
  lemma EmptyStructureIsLeaf(symbols: Symbols, name: string, i: nat)
    requires name in symbols && i < |symbols[name]|
    ensures LeafPath(symbols, name, [i])
            <==> symbols[name][i].shape.None? || !IsStructure(symbols, symbols[name][i].shape.value.typeName)
  {
  }
}
