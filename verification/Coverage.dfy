/** The Wi-Fi coverage counters (`runtime_summary` and the classification checks of
    `validate` in scripts/codegen/idf_wifi_api_map.py): every row accounts for each of its
    symbols once, and the grouped rows add up to the total row. */
module Coverage {
  import opened Wire

  /** An override of one symbol, or the defaults of a task: any part may be missing. */
  datatype Record = Record(task: Option<string>, disposition: Option<string>, implementation: Option<string>,
                           contract: Option<string>, jsPath: Option<string>)

  /** The mapping, with what the inventory and the API manifest say about its symbols. */
  datatype Mapping = Mapping(symbols: map<string, Record>, tasks: map<string, Record>, kinds: map<string, string>,
                             paths: set<string>)

  function Either<T>(override: Option<T>, default: Option<T>): Option<T> {
    if override.Some? then override else default
  }

  /** `{**task, **override}` */
  function Merged(default: Record, override: Record): Record {
    Record(Either(override.task, default.task), Either(override.disposition, default.disposition),
           Either(override.implementation, default.implementation), Either(override.contract, default.contract),
           Either(override.jsPath, default.jsPath))
  }

  function Dispositions(): seq<string> {
    ["mapped", "framework-owned", "build-time", "removed-or-deprecated", "private-excluded", "target-unsupported"]
  }

  function Implementations(): seq<string> {
    ["planned", "in-progress", "implemented"]
  }

  function Contracts(): seq<string> {
    ["review-required", "contract-pending", "reviewed"]
  }

  /** `names.index(value)` */
  function IndexOf(names: seq<string>, value: Option<string>): (i: Option<nat>)
    ensures i.Some? ==> i.value < |names| && value == Some(names[i.value])
    ensures i.None? ==> value.None? || value.value !in names
  {
    if names == [] || value.None? then None
    else if names[0] == value.value then Some(0)
    else
      match IndexOf(names[1..], value)
      case None => None
      case Some(i) => Some(i + 1)
  }

  /** What one symbol adds to: whether it is a function, whether it is registered, and its
      place in each of the three classifications. */
  datatype Class = Class(function_: bool, registered: bool, disposition: nat, implementation: nat, contract: nat)

  /** A symbol that has a task, a kind and a known place in every classification. */
  function ClassOf(m: Mapping, key: string): (c: Option<Class>)
    ensures c.Some? ==> c.value.disposition < 6 && c.value.implementation < 3 && c.value.contract < 3
  {
    if key !in m.symbols || key !in m.kinds || m.symbols[key].task.None? || m.symbols[key].task.value !in m.tasks then None
    else
      var entry := Merged(m.tasks[m.symbols[key].task.value], m.symbols[key]);
      var d, i, c := IndexOf(Dispositions(), entry.disposition), IndexOf(Implementations(), entry.implementation),
                     IndexOf(Contracts(), entry.contract);
      if d.None? || i.None? || c.None? then None
      else Some(Class(m.kinds[key] == "function", entry.jsPath.Some? && entry.jsPath.value in m.paths, d.value, i.value, c.value))
  }

  /** Whether a symbol counts in field `f` of the 15 fields of a row. */
  predicate CountsIn(c: Class, f: nat) {
    || f == 0
    || (f == 1 && c.function_)
    || (f == 2 && c.registered)
    || f == 3 + c.disposition
    || f == 9 + c.implementation
    || f == 12 + c.contract
  }

  /** How much a symbol adds to a field. */
  function Mark(c: Class, f: nat): nat {
    if CountsIn(c, f) then 1 else 0
  }

  predicate Classified(m: Mapping, keys: seq<string>) {
    forall k :: k in keys ==> ClassOf(m, k).Some?
  }

  /** How many of the keys count in a field. */
  function Tally(m: Mapping, keys: seq<string>, f: nat): (n: nat)
    requires Classified(m, keys)
    ensures n <= |keys|
  {
    if keys == [] then 0
    else
      var last := keys[|keys| - 1];
      assert forall k :: k in keys[..|keys| - 1] ==> k in keys;
      Tally(m, keys[..|keys| - 1], f) + Mark(ClassOf(m, last).value, f)
  }

  /** A row of counters over some keys. */
  predicate IsRow(m: Mapping, keys: seq<string>, row: seq<nat>) {
    Classified(m, keys) && |row| == 15 && forall f :: 0 <= f < 15 ==> row[f] == Tally(m, keys, f)
  }

  lemma TallySnoc(m: Mapping, keys: seq<string>, key: string, f: nat)
    requires Classified(m, keys + [key])
    ensures Classified(m, keys) && ClassOf(m, key).Some?
    ensures Tally(m, keys + [key], f) == Tally(m, keys, f) + Mark(ClassOf(m, key).value, f)
  {
    hide ClassOf, Mark;
    assert forall k :: k in keys ==> k in keys + [key];
    assert key in keys + [key];
    assert (keys + [key])[..|keys|] == keys;
  }

  function Bump(row: seq<nat>, c: Class): (r: seq<nat>)
    requires |row| == 15 && c.disposition < 6 && c.implementation < 3 && c.contract < 3
    ensures |r| == 15
  {
    var r0 := row[0 := row[0] + 1];
    var r1 := r0[1 := r0[1] + if c.function_ then 1 else 0];
    var r2 := r1[2 := r1[2] + if c.registered then 1 else 0];
    var r3 := r2[3 + c.disposition := r2[3 + c.disposition] + 1];
    var r4 := r3[9 + c.implementation := r3[9 + c.implementation] + 1];
    r4[12 + c.contract := r4[12 + c.contract] + 1]
  }

  lemma BumpCounts(row: seq<nat>, c: Class, f: nat)
    requires |row| == 15 && c.disposition < 6 && c.implementation < 3 && c.contract < 3 && f < 15
    ensures Bump(row, c)[f] == row[f] + Mark(c, f)
  {
  }

  lemma RowGrows(m: Mapping, keys: seq<string>, key: string, row: seq<nat>)
    requires IsRow(m, keys, row) && ClassOf(m, key).Some?
    ensures IsRow(m, keys + [key], Bump(row, ClassOf(m, key).value))
  {
    hide ClassOf, Mark, Bump;
    var more := keys + [key];
    assert Classified(m, more);
    forall f | 0 <= f < 15
      ensures Bump(row, ClassOf(m, key).value)[f] == Tally(m, more, f)
    {
      TallySnoc(m, keys, key, f);
      BumpCounts(row, ClassOf(m, key).value, f);
    }
  }

  /** `counts`: it fails exactly for a symbol that is not classified or a counter that does
      not fit 32 bits. */
  method Counts(m: Mapping, keys: seq<string>) returns (r: Result<seq<nat>>)
    ensures r.Ok? <==> Classified(m, keys) && forall f :: 0 <= f < 15 ==> Tally(m, keys, f) <= U32_MAX
    ensures r.Ok? ==> IsRow(m, keys, r.value)
  {
    hide ClassOf, Bump, Tally;
    var total: seq<nat> := seq(15, _ => 0);
    EmptyRow(m, total);
    for i := 0 to |keys|
      invariant IsRow(m, keys[..i], total)
    {
      var c := ClassOf(m, keys[i]);
      if c.None? {
        assert keys[i] in keys;
        return Err;
      }
      RowGrows(m, keys[..i], keys[i], total);
      assert keys[..i + 1] == keys[..i] + [keys[i]];
      total := Bump(total, c.value);
    }
    assert keys[..|keys|] == keys;
    if exists value :: value in total && value > U32_MAX {
      ghost var value :| value in total && value > U32_MAX;
      ghost var f :| 0 <= f < 15 && total[f] == value;
      assert Tally(m, keys, f) > U32_MAX;
      return Err;
    }
    assert forall f :: 0 <= f < 15 ==> total[f] in total;
    return Ok(total);
  }

  lemma EmptyRow(m: Mapping, row: seq<nat>)
    requires row == seq(15, _ => 0)
    ensures IsRow(m, [], row)
  {
  }

  // ----------------------------------------------------------------- conservation

  lemma MarksSum(c: Class)
    requires c.disposition < 6 && c.implementation < 3 && c.contract < 3
    ensures Mark(c, 0) == 1
    ensures Mark(c, 3) + Mark(c, 4) + Mark(c, 5) + Mark(c, 6) + Mark(c, 7) + Mark(c, 8) == 1
    ensures Mark(c, 9) + Mark(c, 10) + Mark(c, 11) == 1 && Mark(c, 12) + Mark(c, 13) + Mark(c, 14) == 1
  {
  }

  /** Every classification accounts for each symbol of a row exactly once. */
  lemma {:induction false} TalliesConserve(m: Mapping, keys: seq<string>)
    requires Classified(m, keys)
    ensures Tally(m, keys, 0) == |keys|
    ensures Tally(m, keys, 3) + Tally(m, keys, 4) + Tally(m, keys, 5) + Tally(m, keys, 6) + Tally(m, keys, 7) + Tally(m, keys, 8)
            == |keys|
    ensures Tally(m, keys, 9) + Tally(m, keys, 10) + Tally(m, keys, 11) == |keys|
    ensures Tally(m, keys, 12) + Tally(m, keys, 13) + Tally(m, keys, 14) == |keys|
  {
    hide ClassOf, Mark;
    if keys != [] {
      assert forall k :: k in keys[..|keys| - 1] ==> k in keys;
      assert keys[|keys| - 1] in keys;
      MarksSum(ClassOf(m, keys[|keys| - 1]).value);
      TalliesConserve(m, keys[..|keys| - 1]);
    }
  }

  lemma RowConserves(m: Mapping, keys: seq<string>, row: seq<nat>)
    requires IsRow(m, keys, row)
    ensures row[0] == |keys|
    ensures row[3] + row[4] + row[5] + row[6] + row[7] + row[8] == row[0]
    ensures row[9] + row[10] + row[11] == row[0] && row[12] + row[13] + row[14] == row[0]
  {
    hide Tally;
    TalliesConserve(m, keys);
  }

  // --------------------------------------------------------------------- grouping

  /** The keys of a group, in order: the list that a group's row counts. */
  function Grouped(keys: seq<string>, group: string -> string, name: string): seq<string> {
    if keys == [] then []
    else
      Grouped(keys[..|keys| - 1], group, name)
      + if group(keys[|keys| - 1]) == name then [keys[|keys| - 1]] else []
  }

  lemma {:induction false} GroupedIn(keys: seq<string>, group: string -> string, name: string)
    ensures forall k :: k in Grouped(keys, group, name) <==> k in keys && group(k) == name
  {
    if keys != [] {
      GroupedIn(keys[..|keys| - 1], group, name);
      assert keys == keys[..|keys| - 1] + [keys[|keys| - 1]];
    }
  }

  lemma GroupedClassified(m: Mapping, keys: seq<string>, group: string -> string, name: string)
    requires Classified(m, keys)
    ensures Classified(m, Grouped(keys, group, name))
  {
    hide ClassOf;
    GroupedIn(keys, group, name);
  }

  /** The sum of a field over the rows of some groups. */
  function GroupSum(m: Mapping, keys: seq<string>, group: string -> string, names: seq<string>, f: nat): nat
    requires Classified(m, keys)
  {
    if names == [] then 0
    else
      GroupedClassified(m, keys, group, names[|names| - 1]);
      GroupSum(m, keys, group, names[..|names| - 1], f) + Tally(m, Grouped(keys, group, names[|names| - 1]), f)
  }

  predicate Distinct(names: seq<string>) {
    forall i, j :: 0 <= i < j < |names| ==> names[i] != names[j]
  }

  /** One key more adds to the one group of its group, if that is listed. */
  lemma {:induction false} GroupSumSnoc(m: Mapping, keys: seq<string>, key: string, group: string -> string, names: seq<string>, f: nat)
    requires Classified(m, keys + [key]) && Distinct(names)
    ensures Classified(m, keys)
    ensures GroupSum(m, keys + [key], group, names, f)
            == GroupSum(m, keys, group, names, f)
               + if group(key) in names then Mark(ClassOf(m, key).value, f) else 0
    decreases |names|
  {
    hide ClassOf, Mark, Tally;
    TallySnoc(m, keys, key, f);
    if names != [] {
      var before, name := names[..|names| - 1], names[|names| - 1];
      assert names == before + [name];
      GroupSumSnoc(m, keys, key, group, before, f);
      GroupedClassified(m, keys, group, name);
      GroupedClassified(m, keys + [key], group, name);
      assert (keys + [key])[..|keys|] == keys;
      if group(key) == name {
        assert Grouped(keys + [key], group, name) == Grouped(keys, group, name) + [key];
        TallySnoc(m, Grouped(keys, group, name), key, f);
        assert name !in before;
      } else {
        assert Grouped(keys + [key], group, name) == Grouped(keys, group, name);
      }
    }
  }

  lemma {:induction false} NoKeys(m: Mapping, group: string -> string, names: seq<string>, f: nat)
    ensures Classified(m, []) && GroupSum(m, [], group, names, f) == 0
  {
    if names != [] {
      NoKeys(m, group, names[..|names| - 1], f);
    }
  }

  /** The rows of listed groups never count more than the total row, field by field, and
      exactly as much when every key's group is listed. */
  lemma {:induction false} GroupsAddUp(m: Mapping, keys: seq<string>, group: string -> string, names: seq<string>, f: nat)
    requires Classified(m, keys) && Distinct(names)
    ensures GroupSum(m, keys, group, names, f) <= Tally(m, keys, f)
    ensures (forall k :: k in keys ==> group(k) in names) ==> GroupSum(m, keys, group, names, f) == Tally(m, keys, f)
    decreases |keys|
  {
    hide ClassOf, Mark, GroupSum;
    if keys == [] {
      NoKeys(m, group, names, f);
    } else {
      var before, key := keys[..|keys| - 1], keys[|keys| - 1];
      assert keys == before + [key];
      GroupSumSnoc(m, before, key, group, names, f);
      GroupsAddUp(m, before, group, names, f);
      TallySnoc(m, before, key, f);
    }
  }

  lemma {:induction false} MissingGroup(m: Mapping, keys: seq<string>, group: string -> string, names: seq<string>, k: string)
    requires Classified(m, keys) && Distinct(names) && k in keys && group(k) !in names
    ensures GroupSum(m, keys, group, names, 0) < Tally(m, keys, 0)
    decreases |keys|
  {
    hide ClassOf, Mark, GroupSum;
    var before, key := keys[..|keys| - 1], keys[|keys| - 1];
    assert keys == before + [key];
    GroupSumSnoc(m, before, key, group, names, 0);
    TallySnoc(m, before, key, 0);
    AlwaysCounted(ClassOf(m, key).value);
    if k != key {
      MissingGroup(m, before, group, names, k);
    } else {
      GroupsAddUp(m, before, group, names, 0);
    }
  }

  lemma AlwaysCounted(c: Class)
    ensures Mark(c, 0) == 1
  {
  }

  /** So grouped rows add up to the total row, in all 15 fields, exactly when every key's
      group has a row. */
  lemma GroupsConserve(m: Mapping, keys: seq<string>, group: string -> string, names: seq<string>)
    requires Classified(m, keys) && Distinct(names)
    ensures (forall f :: 0 <= f < 15 ==> GroupSum(m, keys, group, names, f) == Tally(m, keys, f))
            <==> forall k :: k in keys ==> group(k) in names
  {
    hide ClassOf, GroupSum, Tally;
    forall f | 0 <= f < 15
      ensures (forall k :: k in keys ==> group(k) in names) ==> GroupSum(m, keys, group, names, f) == Tally(m, keys, f)
    {
      GroupsAddUp(m, keys, group, names, f);
    }
    if k :| k in keys && group(k) !in names {
      MissingGroup(m, keys, group, names, k);
      assert GroupSum(m, keys, group, names, 0) != Tally(m, keys, 0);
    }
  }

  // ------------------------------------------------------------------- validation

  /** The classification checks of `validate`: the mapping names exactly the symbols of the
      inventory, each has a listed task and, task defaults applied, a known disposition,
      implementation state and contract state. */
  predicate Validated(m: Mapping) {
    && m.kinds.Keys == m.symbols.Keys
    && forall k :: k in m.symbols ==>
         && m.symbols[k].task.Some? && m.symbols[k].task.value in m.tasks
         && var entry := Merged(m.tasks[m.symbols[k].task.value], m.symbols[k]);
            && entry.disposition.Some? && entry.disposition.value in Dispositions()
            && entry.implementation.Some? && entry.implementation.value in Implementations()
            && entry.contract.Some? && entry.contract.value in Contracts()
  }

  /** What passes `validate` can be counted, whatever the row, and what can be counted
      passes it. */
  lemma ValidatedCounts(m: Mapping)
    ensures Validated(m) <==>
            && (forall k :: k in m.kinds <==> k in m.symbols)
            && forall keys :: (forall k :: k in keys ==> k in m.symbols) ==> Classified(m, keys)
  {
    hide IndexOf, Dispositions, Implementations, Contracts;
    assert m.kinds.Keys == m.symbols.Keys <==> forall k :: k in m.kinds <==> k in m.symbols;
    if m.kinds.Keys != m.symbols.Keys {
    } else if Validated(m) {
      forall keys: seq<string> | forall k :: k in keys ==> k in m.symbols
        ensures Classified(m, keys)
      {
      }
    } else {
      var k :| k in m.symbols && ClassOf(m, k).None?;
      assert k in [k];
      assert !Classified(m, [k]);
    }
  }

  /** `value["task"]` of a mapped symbol. */
  function TaskOf(m: Mapping): string -> string {
    k => if k in m.symbols then m.symbols[k].task.GetOr("") else ""
  }

  /** The task rows always add up to the total row: a classified symbol has a listed task. */
  lemma TaskRowsConserve(m: Mapping, keys: seq<string>, tasks: seq<string>, f: nat)
    requires Classified(m, keys) && Distinct(tasks) && (forall t :: t in m.tasks ==> t in tasks)
    ensures GroupSum(m, keys, TaskOf(m), tasks, f) == Tally(m, keys, f)
  {
    hide GroupSum, Tally;
    forall k | k in keys
      ensures TaskOf(m)(k) in tasks
    {
      assert ClassOf(m, k).Some?;
    }
    GroupsAddUp(m, keys, TaskOf(m), tasks, f);
  }

  // ---------------------------------------------------------- what the fields count

  /** The columns of a row, in the order in which the firmware's table names them. */
  function Columns(): (names: seq<string>)
    ensures |names| == 15
  {
    ["symbols", "functionSymbols", "registeredSymbols",
     "mapped", "frameworkOwned", "buildTime", "removedOrDeprecated", "privateExcluded", "targetUnsupported",
     "planned", "inProgress", "implemented", "reviewRequired", "contractPending", "reviewed"]
  }

  /** A part of a symbol's record: its own, and only if it has none, the one of its task. */
  predicate Stated(own: Option<string>, task: Option<string>, value: string) {
    own == Some(value) || (own.None? && task == Some(value))
  }

  /** Whether a symbol belongs into a column, from its record and the one of its task. */
  predicate Belongs(m: Mapping, key: string, column: string)
    requires key in m.symbols && key in m.kinds && m.symbols[key].task.Some? && m.symbols[key].task.value in m.tasks
  {
    var own, task := m.symbols[key], m.tasks[m.symbols[key].task.value];
    match column
    case "symbols" => true
    case "functionSymbols" => m.kinds[key] == "function"
    case "registeredSymbols" => exists path :: path in m.paths && Stated(own.jsPath, task.jsPath, path)
    case "mapped" => Stated(own.disposition, task.disposition, "mapped")
    case "frameworkOwned" => Stated(own.disposition, task.disposition, "framework-owned")
    case "buildTime" => Stated(own.disposition, task.disposition, "build-time")
    case "removedOrDeprecated" => Stated(own.disposition, task.disposition, "removed-or-deprecated")
    case "privateExcluded" => Stated(own.disposition, task.disposition, "private-excluded")
    case "targetUnsupported" => Stated(own.disposition, task.disposition, "target-unsupported")
    case "planned" => Stated(own.implementation, task.implementation, "planned")
    case "inProgress" => Stated(own.implementation, task.implementation, "in-progress")
    case "implemented" => Stated(own.implementation, task.implementation, "implemented")
    case "reviewRequired" => Stated(own.contract, task.contract, "review-required")
    case "contractPending" => Stated(own.contract, task.contract, "contract-pending")
    case "reviewed" => Stated(own.contract, task.contract, "reviewed")
    case _ => false
  }

  lemma NamesDistinct()
    ensures Distinct(Dispositions()) && Distinct(Implementations()) && Distinct(Contracts())
    ensures |Dispositions()| == 6 && |Implementations()| == 3 && |Contracts()| == 3
  {
    assert |Dispositions()[0]| == 6 && |Dispositions()[1]| == 15 && |Dispositions()[2]| == 10;
    assert |Dispositions()[3]| == 21 && |Dispositions()[4]| == 16 && |Dispositions()[5]| == 18;
    assert |Implementations()[0]| == 7 && |Implementations()[1]| == 11 && |Implementations()[2]| == 11;
    assert Implementations()[1][2] == '-' && Implementations()[2][2] == 'p';
    assert |Contracts()[0]| == 15 && |Contracts()[1]| == 16 && |Contracts()[2]| == 8;
  }

  lemma PlaceIs(names: seq<string>, own: Option<string>, task: Option<string>, k: nat)
    requires Distinct(names) && k < |names| && IndexOf(names, Either(own, task)).Some?
    ensures IndexOf(names, Either(own, task)).value == k <==> Stated(own, task, names[k])
  {
  }

  /** A symbol counts in exactly the columns it belongs into. */
  lemma CountsWhereItBelongs(m: Mapping, key: string, f: nat)
    requires ClassOf(m, key).Some? && f < 15
    ensures key in m.symbols && key in m.kinds && m.symbols[key].task.Some? && m.symbols[key].task.value in m.tasks
    ensures CountsIn(ClassOf(m, key).value, f) <==> Belongs(m, key, Columns()[f])
  {
    hide IndexOf, Dispositions, Implementations, Contracts, Stated, Distinct, Either, Columns;
    var own, task := m.symbols[key], m.tasks[m.symbols[key].task.value];
    NamesDistinct();
    ColumnsAre(f);
    RegisteredIs(m, own.jsPath, task.jsPath);
    if 3 <= f < 9 {
      PlaceIs(Dispositions(), own.disposition, task.disposition, f - 3);
      BelongsDisposition(m, key, f - 3);
    } else if 9 <= f < 12 {
      PlaceIs(Implementations(), own.implementation, task.implementation, f - 9);
      BelongsImplementation(m, key, f - 9);
    } else if 12 <= f {
      PlaceIs(Contracts(), own.contract, task.contract, f - 12);
      BelongsContract(m, key, f - 12);
    }
  }

  lemma ColumnsAre(f: nat)
    requires f < 15
    ensures f == 0 ==> Columns()[f] == "symbols"
    ensures f == 1 ==> Columns()[f] == "functionSymbols"
    ensures f == 2 ==> Columns()[f] == "registeredSymbols"
  {
  }

  lemma RegisteredIs(m: Mapping, own: Option<string>, task: Option<string>)
    ensures (exists path :: path in m.paths && Stated(own, task, path))
            <==> Either(own, task).Some? && Either(own, task).value in m.paths
  {
    if Either(own, task).Some? && Either(own, task).value in m.paths {
      assert Stated(own, task, Either(own, task).value);
    }
  }

  lemma BelongsDisposition(m: Mapping, key: string, d: nat)
    requires key in m.symbols && key in m.kinds && m.symbols[key].task.Some? && m.symbols[key].task.value in m.tasks
    requires d < 6 == |Dispositions()|
    ensures Belongs(m, key, Columns()[3 + d])
            <==> Stated(m.symbols[key].disposition, m.tasks[m.symbols[key].task.value].disposition, Dispositions()[d])
  {
    hide Stated;
  }

  lemma BelongsImplementation(m: Mapping, key: string, i: nat)
    requires key in m.symbols && key in m.kinds && m.symbols[key].task.Some? && m.symbols[key].task.value in m.tasks
    requires i < 3 == |Implementations()|
    ensures Belongs(m, key, Columns()[9 + i])
            <==> Stated(m.symbols[key].implementation, m.tasks[m.symbols[key].task.value].implementation, Implementations()[i])
  {
    hide Stated;
  }

  lemma BelongsContract(m: Mapping, key: string, c: nat)
    requires key in m.symbols && key in m.kinds && m.symbols[key].task.Some? && m.symbols[key].task.value in m.tasks
    requires c < 3 == |Contracts()|
    ensures Belongs(m, key, Columns()[12 + c])
            <==> Stated(m.symbols[key].contract, m.tasks[m.symbols[key].task.value].contract, Contracts()[c])
  {
    hide Stated;
  }

  /** How many of the keys belong into a column. */
  function Members(m: Mapping, keys: seq<string>, column: string): nat
    requires Classified(m, keys)
  {
    if keys == [] then 0
    else
      var last := keys[|keys| - 1];
      assert forall k :: k in keys[..|keys| - 1] ==> k in keys;
      CountsWhereItBelongs(m, last, 0);
      Members(m, keys[..|keys| - 1], column) + if Belongs(m, last, column) then 1 else 0
  }

  /** Every field of a row is the number of symbols that belong into its column. */
  lemma {:induction false} RowCountsColumns(m: Mapping, keys: seq<string>, f: nat)
    requires Classified(m, keys) && f < 15
    ensures Tally(m, keys, f) == Members(m, keys, Columns()[f])
  {
    hide ClassOf, Belongs, CountsIn, Columns;
    if keys != [] {
      var last := keys[|keys| - 1];
      assert forall k :: k in keys[..|keys| - 1] ==> k in keys;
      RowCountsColumns(m, keys[..|keys| - 1], f);
      CountsWhereItBelongs(m, last, f);
    }
  }
}
