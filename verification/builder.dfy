/** `DBMultiCategoryIdGeneratorBuilder`: collects category specs (skipping
    null or blank names and names already collected), a table spec and the
    "table already created" flag, and on `build` registers one database-backed
    producer per collected spec in the registry the builder owns, and returns
    that registry.

    The producer that `ObjectIdentifierDBBuilder` makes from a spec is not part
    of this model; a registered producer is represented by the configuration it
    is built from. */
module MultiCategoryBuilder {
  import opened Wrappers
  import opened JavaText
  import TableSpecs
  import CategorySpecs
  import Registry

  type CategorySpec = CategorySpecs.CategorySpec

  /** Everything `regsiterIdGenerator` passes on to build one producer. */
  datatype ProducerConfig = ProducerConfig(
    spec: CategorySpec,
    tableSpec: TableSpecs.TableSpec,
    tableAlreadyCreated: bool)

  datatype Builder = Builder(
    specs: seq<CategorySpec>,
    tableSpec: TableSpecs.TableSpec,
    tableAlreadyCreated: bool)

  /** `create(dataSource)`: no specs, the default table spec, the table still to be created. */
  function Create(): (b: Builder)
    ensures b.specs == [] && b.tableSpec == TableSpecs.Create() && !b.tableAlreadyCreated
  {
    Builder([], TableSpecs.Create(), false)
  }

  /** `tableSpec(spec)`: a null spec installs the default one. */
  function SetTableSpec(b: Builder, t: Option<TableSpecs.TableSpec>): (r: Builder)
    ensures t.Some? ==> r.tableSpec == t.value
    ensures t.None? ==> r.tableSpec == TableSpecs.Create()
    ensures r.(tableSpec := b.tableSpec) == b
  {
    b.(tableSpec := if t.Some? then t.value else TableSpecs.Create())
  }

  /** `create(dataSource, tableSpec)`. */
  function CreateWithTable(t: Option<TableSpecs.TableSpec>): (b: Builder)
    ensures b.specs == [] && !b.tableAlreadyCreated
    ensures b.tableSpec == if t.Some? then t.value else TableSpecs.Create()
  {
    SetTableSpec(Create(), t)
  }

  /** `tableAlreadyCreated()`: only the flag changes. */
  function TableAlreadyCreated(b: Builder): (r: Builder)
    ensures r.tableAlreadyCreated
    ensures r.(tableAlreadyCreated := b.tableAlreadyCreated) == b
  {
    b.(tableAlreadyCreated := true)
  }

  /** Only specs with a name that is neither null nor blank are collected. */
  predicate Accepted(s: CategorySpec) {
    !IsNullOrBlank(s.categoryName)
  }

  /** The name of a collected spec as stored (collected specs always have one). */
  function StoredName(s: CategorySpec): string {
    if s.categoryName.Some? then s.categoryName.value else ""
  }

  /** The trimmed name: the key the registry stores the spec's producer under. */
  function Key(s: CategorySpec): string {
    Trim(StoredName(s))
  }

  /** Every collected spec has a name that is neither null nor blank. */
  predicate AllAccepted(specs: seq<CategorySpec>) {
    forall k :: 0 <= k < |specs| ==> Accepted(specs[k])
  }

  // ---------------------------------------------------------------------------
  // Collecting specs as written: the duplicate check compares the stored,
  // untrimmed name with the trimmed new name.
  // ---------------------------------------------------------------------------

  /** The loop of `isNewCategory`: no name in the list equals `name` up to case. */
  function IsNewName(names: seq<string>, name: string): (r: bool)
    ensures r <==> forall k :: 0 <= k < |names| ==> !EqualsIgnoreCase(names[k], name)
    decreases |names|
  {
    if |names| == 0 then true
    else if EqualsIgnoreCase(names[0], name) then false
    else IsNewName(names[1..], name)
  }

  function StoredNames(specs: seq<CategorySpec>): (r: seq<string>)
    ensures |r| == |specs| && forall k :: 0 <= k < |specs| ==> r[k] == StoredName(specs[k])
  {
    seq(|specs|, k requires 0 <= k < |specs| => StoredName(specs[k]))
  }

  function KeyList(specs: seq<CategorySpec>): (r: seq<string>)
    ensures |r| == |specs| && forall k :: 0 <= k < |specs| ==> r[k] == Key(specs[k])
  {
    seq(|specs|, k requires 0 <= k < |specs| => Key(specs[k]))
  }

  /** `isNewCategory` as written: compares the names as stored. */
  function IsNewCategoryAsWritten(specs: seq<CategorySpec>, name: string): (r: bool)
    ensures r <==> forall k :: 0 <= k < |specs| ==> !EqualsIgnoreCase(StoredName(specs[k]), name)
  {
    IsNewName(StoredNames(specs), name)
  }

  /** What the code as written keeps true of the collected specs: no stored
      name equals, up to case, the trimmed name of a spec collected after it. */
  predicate NoEarlierMatch(specs: seq<CategorySpec>) {
    forall k, l :: 0 <= k < l < |specs| ==> !EqualsIgnoreCase(StoredName(specs[k]), Key(specs[l]))
  }

  /** The spec is collected as written: its name is accepted and its trimmed
      name matches no stored name. */
  predicate TakenAsWritten(specs: seq<CategorySpec>, s: CategorySpec) {
    Accepted(s) && IsNewCategoryAsWritten(specs, Key(s))
  }

  /** `addCategories(spec)` as written, for one spec. */
  function AddSpecAsWritten(b: Builder, s: CategorySpec): (r: Builder)
    ensures r.tableSpec == b.tableSpec && r.tableAlreadyCreated == b.tableAlreadyCreated
    ensures TakenAsWritten(b.specs, s) ==> r.specs == b.specs + [s]
    ensures !TakenAsWritten(b.specs, s) ==> r == b
    ensures AllAccepted(b.specs) ==> AllAccepted(r.specs)
    ensures NoEarlierMatch(b.specs) ==> NoEarlierMatch(r.specs)
  {
    if Accepted(s) && IsNewCategoryAsWritten(b.specs, Trim(s.categoryName.value)) then
      AppendKeepsNoEarlierMatch(b.specs, s);
      b.(specs := b.specs + [s])
    else b
  }

  lemma AppendKeepsNoEarlierMatch(specs: seq<CategorySpec>, s: CategorySpec)
    requires TakenAsWritten(specs, s)
    ensures AllAccepted(specs) ==> AllAccepted(specs + [s])
    ensures NoEarlierMatch(specs) ==> NoEarlierMatch(specs + [s])
  {
    var r := specs + [s];
    if AllAccepted(specs) {
      forall k | 0 <= k < |r| ensures Accepted(r[k]) {
        if k < |specs| { assert r[k] == specs[k]; }
      }
    }
    if NoEarlierMatch(specs) {
      forall k, l | 0 <= k < l < |r| ensures !EqualsIgnoreCase(StoredName(r[k]), Key(r[l])) {
        assert r[k] == specs[k];
        if l < |specs| { assert r[l] == specs[l]; }
      }
    }
  }

  /** `addCategories(specs...)` as written: the collected specs only grow by
      appending, every new one comes from the arguments, and both invariants
      of the code as written are kept. */
  function AddSpecsAsWritten(b: Builder, ss: seq<CategorySpec>): (r: Builder)
    ensures r.tableSpec == b.tableSpec && r.tableAlreadyCreated == b.tableAlreadyCreated
    ensures |b.specs| <= |r.specs| <= |b.specs| + |ss|
    ensures r.specs[..|b.specs|] == b.specs
    ensures forall k :: |b.specs| <= k < |r.specs| ==> r.specs[k] in ss
    ensures AllAccepted(b.specs) ==> AllAccepted(r.specs)
    ensures NoEarlierMatch(b.specs) ==> NoEarlierMatch(r.specs)
    decreases |ss|
  {
    if |ss| == 0 then b
    else
      var b1 := AddSpecAsWritten(b, ss[0]);
      var r := AddSpecsAsWritten(b1, ss[1..]);
      assert r.specs[..|b.specs|] == r.specs[..|b1.specs|][..|b.specs|];
      assert forall k :: |b.specs| <= k < |r.specs| ==> r.specs[k] in ss by {
        forall k | |b.specs| <= k < |r.specs| ensures r.specs[k] in ss {
          if k >= |b1.specs| {
            assert r.specs[k] in ss[1..];
          } else {
            assert r.specs[k] == b1.specs[k] == ss[0];
          }
        }
      }
      r
  }

  /** A collected name matches the trimmed name of `s` up to case. */
  predicate Matched(specs: seq<CategorySpec>, s: CategorySpec) {
    exists k :: 0 <= k < |specs| && EqualsIgnoreCase(StoredName(specs[k]), Key(s))
  }

  /** `s` is among the specs from position `from` on. */
  predicate AppendedFrom(specs: seq<CategorySpec>, from: nat, s: CategorySpec) {
    exists k :: from <= k < |specs| && specs[k] == s
  }

  lemma FirstAppendTaken(b: Builder, s: CategorySpec, rs: seq<CategorySpec>)
    requires |AddSpecAsWritten(b, s).specs| <= |rs|
    requires rs[..|AddSpecAsWritten(b, s).specs|] == AddSpecAsWritten(b, s).specs
    requires |AddSpecAsWritten(b, s).specs| > |b.specs|
    ensures TakenAsWritten(rs[..|b.specs|], rs[|b.specs|])
  {
    var b1 := AddSpecAsWritten(b, s);
    assert rs[..|b.specs|] == b1.specs[..|b.specs|] == b.specs;
    assert rs[|b.specs|] == b1.specs[|b.specs|] == s;
  }

  /** Every spec `addCategories(specs...)` appends passed the check as written
      against the specs collected before it. */
  lemma {:induction false} AddSpecsAsWrittenSound(b: Builder, ss: seq<CategorySpec>)
    ensures var r := AddSpecsAsWritten(b, ss);
      forall k :: |b.specs| <= k < |r.specs| ==> TakenAsWritten(r.specs[..k], r.specs[k])
    decreases |ss|
  {
    if |ss| > 0 {
      var b1 := AddSpecAsWritten(b, ss[0]);
      var r := AddSpecsAsWritten(b1, ss[1..]);
      assert AddSpecsAsWritten(b, ss) == r;
      AddSpecsAsWrittenSound(b1, ss[1..]);
      forall k | |b.specs| <= k < |r.specs|
        ensures TakenAsWritten(r.specs[..k], r.specs[k])
      {
        if k < |b1.specs| {
          assert k == |b.specs| && b1.specs == b.specs + [ss[0]];
          FirstAppendTaken(b, ss[0], r.specs);
        } else {
          assert |b1.specs| <= k < |AddSpecsAsWritten(b1, ss[1..]).specs|;
        }
      }
    }
  }

  /** Every accepted argument of `addCategories(specs...)` is accounted for: it
      was appended, or a collected name matches its trimmed name up to case. */
  lemma {:induction false} AddSpecsAsWrittenComplete(b: Builder, ss: seq<CategorySpec>)
    ensures var r := AddSpecsAsWritten(b, ss);
      forall j :: 0 <= j < |ss| && Accepted(ss[j]) ==>
        AppendedFrom(r.specs, |b.specs|, ss[j]) || Matched(r.specs, ss[j])
    decreases |ss|
  {
    if |ss| > 0 {
      var b1 := AddSpecAsWritten(b, ss[0]);
      var r := AddSpecsAsWritten(b1, ss[1..]);
      assert AddSpecsAsWritten(b, ss) == r;
      AddSpecsAsWrittenComplete(b1, ss[1..]);
      forall j | 0 <= j < |ss| && Accepted(ss[j])
        ensures AppendedFrom(r.specs, |b.specs|, ss[j]) || Matched(r.specs, ss[j])
      {
        if j > 0 {
          assert ss[j] == ss[1..][j - 1];
          if AppendedFrom(r.specs, |b1.specs|, ss[j]) {
            var k :| |b1.specs| <= k < |r.specs| && r.specs[k] == ss[j];
            assert |b.specs| <= k;
          }
        } else if TakenAsWritten(b.specs, ss[0]) {
          assert r.specs[..|b1.specs|] == b1.specs;
          assert r.specs[|b.specs|] == b1.specs[|b.specs|] == ss[0];
        } else {
          var k :| 0 <= k < |b.specs| && EqualsIgnoreCase(StoredName(b.specs[k]), Key(ss[0]));
          assert r.specs[..|b.specs|] == b.specs;
          assert r.specs[k] == b.specs[k];
        }
      }
    }
  }

  /** `addCategories(names...)`: a default spec for every name that is neither
      null nor blank. */
  function AddNames(b: Builder, names: seq<Option<string>>): Builder
    decreases |names|
  {
    if |names| == 0 then b
    else
      var b1 := if !IsNullOrBlank(names[0]) then AddSpecAsWritten(b, CategorySpecs.Create(names[0])) else b;
      AddNames(b1, names[1..])
  }

  function DefaultSpecs(names: seq<Option<string>>): (r: seq<CategorySpec>)
    ensures |r| == |names|
    ensures forall k :: 0 <= k < |names| ==> r[k] == CategorySpecs.Create(names[k])
  {
    seq(|names|, k requires 0 <= k < |names| => CategorySpecs.Create(names[k]))
  }

  /** Adding names is adding their default specs: the blank check in front of
      the spec creation only repeats the one in `addCategories(spec)`. */
  lemma {:induction false} AddNamesIsAddSpecs(b: Builder, names: seq<Option<string>>)
    ensures AddNames(b, names) == AddSpecsAsWritten(b, DefaultSpecs(names))
    decreases |names|
  {
    if |names| > 0 {
      assert DefaultSpecs(names)[1..] == DefaultSpecs(names[1..]);
      var b1 := if !IsNullOrBlank(names[0]) then AddSpecAsWritten(b, CategorySpecs.Create(names[0])) else b;
      assert b1 == AddSpecAsWritten(b, DefaultSpecs(names)[0]);
      AddNamesIsAddSpecs(b1, names[1..]);
    }
  }

  /** `add(name, startId)`: the spec with the given name and start id, the other
      settings at their defaults, is appended exactly when it is collected as
      written. */
  function Add(b: Builder, name: Option<string>, startId: int): (r: Builder)
    ensures var s := CategorySpecs.CategorySpec(name, startId, CategorySpecs.DefaultBlockSize,
                       CategorySpecs.DefaultLength, CategorySpecs.DefaultPaddingChar, None);
      && (TakenAsWritten(b.specs, s) ==> r.specs == b.specs + [s])
      && (!TakenAsWritten(b.specs, s) ==> r == b)
    ensures r.tableSpec == b.tableSpec && r.tableAlreadyCreated == b.tableAlreadyCreated
    ensures AllAccepted(b.specs) ==> AllAccepted(r.specs)
    ensures NoEarlierMatch(b.specs) ==> NoEarlierMatch(r.specs)
  {
    AddSpecAsWritten(b, CategorySpecs.SetStartId(CategorySpecs.Create(name), startId))
  }

  /** `add(name, startId, blockSize)`. */
  function AddWithBlockSize(b: Builder, name: Option<string>, startId: int, blockSize: int): (r: Builder)
    ensures var s := CategorySpecs.CategorySpec(name, startId, blockSize,
                       CategorySpecs.DefaultLength, CategorySpecs.DefaultPaddingChar, None);
      && (TakenAsWritten(b.specs, s) ==> r.specs == b.specs + [s])
      && (!TakenAsWritten(b.specs, s) ==> r == b)
    ensures r.tableSpec == b.tableSpec && r.tableAlreadyCreated == b.tableAlreadyCreated
    ensures AllAccepted(b.specs) ==> AllAccepted(r.specs)
    ensures NoEarlierMatch(b.specs) ==> NoEarlierMatch(r.specs)
  {
    AddSpecAsWritten(b, CategorySpecs.SetBlockSize(CategorySpecs.SetStartId(CategorySpecs.Create(name), startId), blockSize))
  }

  /** `add(name, startId, blockSize, length)`. */
  function AddWithLength(b: Builder, name: Option<string>, startId: int, blockSize: int, length: int): (r: Builder)
    ensures var s := CategorySpecs.CategorySpec(name, startId, blockSize,
                       length, CategorySpecs.DefaultPaddingChar, None);
      && (TakenAsWritten(b.specs, s) ==> r.specs == b.specs + [s])
      && (!TakenAsWritten(b.specs, s) ==> r == b)
    ensures r.tableSpec == b.tableSpec && r.tableAlreadyCreated == b.tableAlreadyCreated
    ensures AllAccepted(b.specs) ==> AllAccepted(r.specs)
    ensures NoEarlierMatch(b.specs) ==> NoEarlierMatch(r.specs)
  {
    AddSpecAsWritten(b, CategorySpecs.SetLength(CategorySpecs.SetBlockSize(
      CategorySpecs.SetStartId(CategorySpecs.Create(name), startId), blockSize), length))
  }

  // ---------------------------------------------------------------------------
  // Collecting specs with the duplicate check on trimmed names.
  // ---------------------------------------------------------------------------

  /** `isNewCategory`, comparing trimmed names: no collected spec has the same
      trimmed name up to case. */
  function IsNewCategory(specs: seq<CategorySpec>, name: string): (r: bool)
    ensures r <==> forall k :: 0 <= k < |specs| ==> !EqualsIgnoreCase(Key(specs[k]), name)
  {
    IsNewName(KeyList(specs), name)
  }

  /** No two names in the list are equal up to case. */
  predicate DistinctNames(names: seq<string>) {
    forall k, l :: 0 <= k < l < |names| ==> !EqualsIgnoreCase(names[k], names[l])
  }

  /** Collected specs: every one accepted, and no two with the same trimmed name up to case. */
  predicate Distinct(specs: seq<CategorySpec>) {
    AllAccepted(specs) && DistinctNames(KeyList(specs))
  }

  /** `addCategories(spec)` for one spec: collected exactly when its name is
      accepted and new; the first spec for a name wins. */
  function AddSpec(b: Builder, s: CategorySpec): (r: Builder)
    ensures r.tableSpec == b.tableSpec && r.tableAlreadyCreated == b.tableAlreadyCreated
    ensures Accepted(s) && IsNewCategory(b.specs, Key(s)) ==> r.specs == b.specs + [s]
    ensures !(Accepted(s) && IsNewCategory(b.specs, Key(s))) ==> r == b
    ensures Distinct(b.specs) ==> Distinct(r.specs)
  {
    if Accepted(s) && IsNewCategory(b.specs, Key(s)) then
      AppendKeepsDistinct(b.specs, s);
      b.(specs := b.specs + [s])
    else b
  }

  lemma AppendKeepsDistinct(specs: seq<CategorySpec>, s: CategorySpec)
    requires Accepted(s) && IsNewCategory(specs, Key(s))
    ensures Distinct(specs) ==> Distinct(specs + [s])
  {
    var r := specs + [s];
    assert KeyList(r) == KeyList(specs) + [Key(s)] by {
      forall k | 0 <= k < |r| ensures KeyList(r)[k] == (KeyList(specs) + [Key(s)])[k] {
        if k < |specs| { assert r[k] == specs[k]; }
      }
    }
    if Distinct(specs) {
      forall k | 0 <= k < |r| ensures Accepted(r[k]) {
        if k < |specs| { assert r[k] == specs[k]; }
      }
      NamesAppendKeepsDistinct(KeyList(specs), Key(s));
    }
  }

  lemma NamesAppendKeepsDistinct(names: seq<string>, n: string)
    requires DistinctNames(names) && IsNewName(names, n)
    ensures DistinctNames(names + [n])
  {
    var r := names + [n];
    forall k, l | 0 <= k < l < |r| ensures !EqualsIgnoreCase(r[k], r[l]) {
      assert r[k] == names[k];
      if l < |names| { assert r[l] == names[l]; }
    }
  }

  /** `addCategories(specs...)`: the collected specs only grow, every new one
      comes from the arguments, and the collection stays distinct. */
  function AddSpecs(b: Builder, ss: seq<CategorySpec>): (r: Builder)
    ensures r.tableSpec == b.tableSpec && r.tableAlreadyCreated == b.tableAlreadyCreated
    ensures |b.specs| <= |r.specs| <= |b.specs| + |ss|
    ensures r.specs[..|b.specs|] == b.specs
    ensures forall k :: |b.specs| <= k < |r.specs| ==> r.specs[k] in ss
    ensures Distinct(b.specs) ==> Distinct(r.specs)
    decreases |ss|
  {
    if |ss| == 0 then b
    else
      var b1 := AddSpec(b, ss[0]);
      var r := AddSpecs(b1, ss[1..]);
      assert r.specs[..|b.specs|] == r.specs[..|b1.specs|][..|b.specs|];
      assert forall k :: |b.specs| <= k < |r.specs| ==> r.specs[k] in ss by {
        forall k | |b.specs| <= k < |r.specs| ensures r.specs[k] in ss {
          if k >= |b1.specs| {
            assert r.specs[k] in ss[1..];
          } else {
            assert r.specs[k] == b1.specs[k] == ss[0];
          }
        }
      }
      r
  }

  /** The spec is collected by the corrected check. */
  predicate TakenTrimmed(specs: seq<CategorySpec>, s: CategorySpec) {
    Accepted(s) && IsNewCategory(specs, Key(s))
  }

  /** A collected trimmed name matches the trimmed name of `s` up to case. */
  predicate MatchedTrimmed(specs: seq<CategorySpec>, s: CategorySpec) {
    exists k :: 0 <= k < |specs| && EqualsIgnoreCase(Key(specs[k]), Key(s))
  }

  lemma FirstAppendTakenTrimmed(b: Builder, s: CategorySpec, rs: seq<CategorySpec>)
    requires |AddSpec(b, s).specs| <= |rs|
    requires rs[..|AddSpec(b, s).specs|] == AddSpec(b, s).specs
    requires |AddSpec(b, s).specs| > |b.specs|
    ensures TakenTrimmed(rs[..|b.specs|], rs[|b.specs|])
  {
    var b1 := AddSpec(b, s);
    assert rs[..|b.specs|] == b1.specs[..|b.specs|] == b.specs;
    assert rs[|b.specs|] == b1.specs[|b.specs|] == s;
  }

  /** Corrected: every spec appended passed the trimmed-name check against the
      specs collected before it. */
  lemma {:induction false} AddSpecsSound(b: Builder, ss: seq<CategorySpec>)
    ensures var r := AddSpecs(b, ss);
      forall k :: |b.specs| <= k < |r.specs| ==> TakenTrimmed(r.specs[..k], r.specs[k])
    decreases |ss|
  {
    if |ss| > 0 {
      var b1 := AddSpec(b, ss[0]);
      var r := AddSpecs(b1, ss[1..]);
      assert AddSpecs(b, ss) == r;
      AddSpecsSound(b1, ss[1..]);
      forall k | |b.specs| <= k < |r.specs|
        ensures TakenTrimmed(r.specs[..k], r.specs[k])
      {
        if k < |b1.specs| {
          assert k == |b.specs| && b1.specs == b.specs + [ss[0]];
          FirstAppendTakenTrimmed(b, ss[0], r.specs);
        } else {
          assert |b1.specs| <= k < |AddSpecs(b1, ss[1..]).specs|;
        }
      }
    }
  }

  /** Corrected: every accepted argument was appended, or a collected trimmed
      name matches its trimmed name up to case. */
  lemma {:induction false} AddSpecsComplete(b: Builder, ss: seq<CategorySpec>)
    ensures var r := AddSpecs(b, ss);
      forall j :: 0 <= j < |ss| && Accepted(ss[j]) ==>
        AppendedFrom(r.specs, |b.specs|, ss[j]) || MatchedTrimmed(r.specs, ss[j])
    decreases |ss|
  {
    if |ss| > 0 {
      var b1 := AddSpec(b, ss[0]);
      var r := AddSpecs(b1, ss[1..]);
      assert AddSpecs(b, ss) == r;
      AddSpecsComplete(b1, ss[1..]);
      forall j | 0 <= j < |ss| && Accepted(ss[j])
        ensures AppendedFrom(r.specs, |b.specs|, ss[j]) || MatchedTrimmed(r.specs, ss[j])
      {
        if j > 0 {
          assert ss[j] == ss[1..][j - 1];
          if AppendedFrom(r.specs, |b1.specs|, ss[j]) {
            var k :| |b1.specs| <= k < |r.specs| && r.specs[k] == ss[j];
            assert |b.specs| <= k;
          }
        } else if TakenTrimmed(b.specs, ss[0]) {
          assert r.specs[..|b1.specs|] == b1.specs;
          assert r.specs[|b.specs|] == b1.specs[|b.specs|] == ss[0];
        } else {
          var k :| 0 <= k < |b.specs| && EqualsIgnoreCase(Key(b.specs[k]), Key(ss[0]));
          assert r.specs[..|b.specs|] == b.specs;
          assert r.specs[k] == b.specs[k];
        }
      }
    }
  }

  /** When every collected name is stored already trimmed, the invariant of
      the code as written is the corrected one: the names are distinct. */
  lemma TrimmedNoEarlierMatchIsDistinct(specs: seq<CategorySpec>)
    requires forall k :: 0 <= k < |specs| ==> Trim(StoredName(specs[k])) == StoredName(specs[k])
    requires AllAccepted(specs) && NoEarlierMatch(specs)
    ensures Distinct(specs)
  {
    forall k, l | 0 <= k < l < |specs| ensures !EqualsIgnoreCase(KeyList(specs)[k], KeyList(specs)[l]) {
      assert KeyList(specs)[k] == StoredName(specs[k]);
    }
  }

  // ---------------------------------------------------------------------------
  // Building the registry.
  // ---------------------------------------------------------------------------

  /** The `build` loop from a given registry: register each spec, in order, under its name. */
  function RegisterAll(reg: Registry.Registry<ProducerConfig>, specs: seq<CategorySpec>,
                       t: TableSpecs.TableSpec, created: bool): Registry.Registry<ProducerConfig>
    decreases |specs|
  {
    if |specs| == 0 then reg
    else RegisterAll(Registry.Register(reg, specs[0].categoryName, Some(ProducerConfig(specs[0], t, created))),
                     specs[1..], t, created)
  }

  /** `build()`: registers one producer per collected spec, in order, into the
      registry the builder owns, which starts out empty. */
  function Build(b: Builder): Registry.Registry<ProducerConfig> {
    RegisterAll(Registry.Empty(), b.specs, b.tableSpec, b.tableAlreadyCreated)
  }

  lemma KeyListCons(specs: seq<CategorySpec>)
    requires |specs| > 0
    ensures KeyList(specs) == [Key(specs[0])] + KeyList(specs[1..])
  {
    assert KeyList(specs)[1..] == KeyList(specs[1..]);
  }

  /** The spec at `k` is the last one with its key. */
  predicate LastWithKey(specs: seq<CategorySpec>, k: int)
    requires 0 <= k < |specs|
  {
    forall l :: k < l < |specs| ==> KeyList(specs)[l] != KeyList(specs)[k]
  }

  /** One registration step of `build` for an accepted spec. */
  lemma RegisterStep(reg: Registry.Registry<ProducerConfig>, s: CategorySpec, c: ProducerConfig)
    requires Accepted(s)
    ensures var r := Registry.Register(reg, s.categoryName, Some(c));
      && r.producers.Keys == reg.producers.Keys + {Key(s)}
      && r.producers[Key(s)] == c
      && forall key :: key in reg.producers && key != Key(s) ==> r.producers[key] == reg.producers[key]
  {
  }

  /** `build` registers exactly the old keys plus the specs' trimmed names. */
  lemma {:induction false} RegisterAllKeys(reg: Registry.Registry<ProducerConfig>, specs: seq<CategorySpec>,
                                           t: TableSpecs.TableSpec, created: bool)
    requires AllAccepted(specs)
    ensures forall key :: key in RegisterAll(reg, specs, t, created).producers
                          <==> key in reg.producers || key in KeyList(specs)
    decreases |specs|
  {
    if |specs| > 0 {
      RegisterStep(reg, specs[0], ProducerConfig(specs[0], t, created));
      KeyListCons(specs);
      RegisterAllKeys(Registry.Register(reg, specs[0].categoryName, Some(ProducerConfig(specs[0], t, created))),
                      specs[1..], t, created);
    }
  }

  /** Keys that no spec uses keep their producer. */
  lemma {:induction false} RegisterAllUntouched(reg: Registry.Registry<ProducerConfig>, specs: seq<CategorySpec>,
                                                t: TableSpecs.TableSpec, created: bool, key: string)
    requires AllAccepted(specs)
    requires key in reg.producers && key !in KeyList(specs)
    ensures key in RegisterAll(reg, specs, t, created).producers
    ensures RegisterAll(reg, specs, t, created).producers[key] == reg.producers[key]
    decreases |specs|
  {
    if |specs| > 0 {
      RegisterStep(reg, specs[0], ProducerConfig(specs[0], t, created));
      KeyListCons(specs);
      RegisterAllUntouched(Registry.Register(reg, specs[0].categoryName, Some(ProducerConfig(specs[0], t, created))),
                           specs[1..], t, created, key);
    }
  }

  /** The last spec with a key is the one registered under it. */
  lemma {:induction false} RegisterAllLastWins(reg: Registry.Registry<ProducerConfig>, specs: seq<CategorySpec>,
                                               t: TableSpecs.TableSpec, created: bool, k: nat)
    requires AllAccepted(specs)
    requires k < |specs| && LastWithKey(specs, k)
    ensures Key(specs[k]) in RegisterAll(reg, specs, t, created).producers
    ensures RegisterAll(reg, specs, t, created).producers[Key(specs[k])] == ProducerConfig(specs[k], t, created)
    decreases |specs|
  {
    var s := specs[0];
    var c := ProducerConfig(s, t, created);
    var reg1 := Registry.Register(reg, s.categoryName, Some(c));
    RegisterStep(reg, s, c);
    assert RegisterAll(reg, specs, t, created) == RegisterAll(reg1, specs[1..], t, created);
    if k == 0 {
      LastKeyNotInRest(specs);
      RegisterAllUntouched(reg1, specs[1..], t, created, Key(s));
    } else {
      LastWithKeyInRest(specs, k);
      RegisterAllLastWins(reg1, specs[1..], t, created, k - 1);
    }
  }

  lemma LastKeyNotInRest(specs: seq<CategorySpec>)
    requires |specs| > 0 && LastWithKey(specs, 0)
    ensures Key(specs[0]) !in KeyList(specs[1..])
  {
    KeyListCons(specs);
  }

  lemma LastWithKeyInRest(specs: seq<CategorySpec>, k: nat)
    requires 0 < k < |specs| && LastWithKey(specs, k)
    ensures specs[1..][k - 1] == specs[k] && LastWithKey(specs[1..], k - 1)
  {
    KeyListCons(specs);
    var rest := specs[1..];
    forall l | k - 1 < l < |rest| ensures KeyList(rest)[l] != KeyList(rest)[k - 1] {
      assert KeyList(rest)[l] == KeyList(specs)[l + 1];
      assert KeyList(rest)[k - 1] == KeyList(specs)[k];
    }
  }

  /** Registration adds no key other than the specs' trimmed names. */
  lemma {:induction false} RegisterAllKeysWithin(reg: Registry.Registry<ProducerConfig>, specs: seq<CategorySpec>,
                                                 t: TableSpecs.TableSpec, created: bool, key: string)
    requires key in RegisterAll(reg, specs, t, created).producers
    ensures key in reg.producers || key in KeyList(specs)
    decreases |specs|
  {
    if |specs| > 0 {
      var c := ProducerConfig(specs[0], t, created);
      var reg1 := Registry.Register(reg, specs[0].categoryName, Some(c));
      KeyListCons(specs);
      RegisterAllKeysWithin(reg1, specs[1..], t, created, key);
      if !IsNullOrBlank(specs[0].categoryName) {
        assert Key(specs[0]) == Trim(specs[0].categoryName.value);
      }
    }
  }

  /** `build` registers the trimmed name of every collected spec and nothing
      else, and under each name the producer of the last spec collected with
      it: looked up by the name it was added with, that spec finds the
      producer built from exactly itself. This holds for any collection the
      builder can reach, duplicates under one trimmed name included. */
  lemma BuildRegistersEverySpec(b: Builder)
    requires AllAccepted(b.specs)
    ensures forall key :: key in Build(b).producers <==> key in KeyList(b.specs)
    ensures forall k :: 0 <= k < |b.specs| && LastWithKey(b.specs, k) ==>
      Registry.GetIdProducer(Build(b), b.specs[k].categoryName)
        == Ok(ProducerConfig(b.specs[k], b.tableSpec, b.tableAlreadyCreated))
  {
    RegisterAllKeys(Registry.Empty(), b.specs, b.tableSpec, b.tableAlreadyCreated);
    forall k | 0 <= k < |b.specs| && LastWithKey(b.specs, k)
      ensures Registry.GetIdProducer(Build(b), b.specs[k].categoryName)
           == Ok(ProducerConfig(b.specs[k], b.tableSpec, b.tableAlreadyCreated))
    {
      RegisterAllLastWins(Registry.Empty(), b.specs, b.tableSpec, b.tableAlreadyCreated, k);
    }
  }

  /** With the corrected duplicate check the names are distinct, every spec is
      the last with its name, and so every collected spec finds its own producer. */
  lemma BuildRegistersEveryDistinctSpec(b: Builder)
    requires Distinct(b.specs)
    ensures forall k :: 0 <= k < |b.specs| ==>
      Registry.GetIdProducer(Build(b), b.specs[k].categoryName)
        == Ok(ProducerConfig(b.specs[k], b.tableSpec, b.tableAlreadyCreated))
  {
    BuildRegistersEverySpec(b);
    forall k | 0 <= k < |b.specs|
      ensures LastWithKey(b.specs, k)
    {
      forall l | k < l < |b.specs| ensures KeyList(b.specs)[l] != KeyList(b.specs)[k] {
        EqualsIgnoreCaseReflexive(KeyList(b.specs)[k]);
      }
    }
  }

  /** A category no collected spec names is refused by the built registry. */
  lemma BuildRefusesUnknown(b: Builder, category: string)
    requires Trim(category) !in KeyList(b.specs)
    ensures Registry.GetIdProducer(Build(b), Some(category))
         == Err(IdentifierGeneration(Registry.NotRegisteredMessage(Trim(category)), None))
  {
    if Trim(category) in Build(b).producers {
      RegisterAllKeysWithin(Registry.Empty(), b.specs, b.tableSpec, b.tableAlreadyCreated, Trim(category));
    }
  }

  // ---------------------------------------------------------------------------
  // Examples.
  // ---------------------------------------------------------------------------

  lemma TrimmedNames()
    ensures Trim("Alpha") == "Alpha" && Trim("alpha") == "alpha" && Trim("Beta") == "Beta"
    ensures Trim(" Beta") == "Beta" && Trim(" ") == ""
  {
    assert Trim(" Beta") == "Beta" by { assert " Beta"[1..] == "Beta"; }
    assert Trim(" ") == "" by { assert " "[1..] == ""; }
  }

  /** A name differing only in case from a collected one is skipped: after
      `add("Alpha", 1000, 1)` the default spec for "alpha" is not collected. */
  lemma CaseVariantSkipped()
    ensures var b := AddWithBlockSize(Create(), Some("Alpha"), 1000, 1);
      && |b.specs| == 1
      && AddNames(b, [Some("alpha"), None, Some(" ")]) == b
  {
    TrimmedNames();
    AlphaEqualsIgnoreCase();
    var b := AddWithBlockSize(Create(), Some("Alpha"), 1000, 1);
    assert b.specs[0].categoryName == Some("Alpha");
    assert !IsNewCategoryAsWritten(b.specs, "alpha");
    var b1 := AddNames(b, [Some(" ")]);
    assert b1 == b by {
      assert [Some(" ")][1..] == [];
    }
    assert [Some("alpha"), None, Some(" ")][1..] == [None, Some(" ")];
    assert [None, Some(" ")][1..] == [Some(" ")];
  }

  /** As written, a spec added with surrounding blanks does not stop a later spec
      with the same trimmed name: both are collected, both register under
      "Beta", and the later one replaces the earlier. */
  lemma UntrimmedDuplicateOverridesFirst()
    ensures var first := CategorySpecs.SetStartId(CategorySpecs.Create(Some(" Beta")), 2000);
      var second := CategorySpecs.Create(Some("Beta"));
      var b := AddSpecsAsWritten(Create(), [first, second]);
      && b.specs == [first, second]
      && Registry.GetIdProducer(Build(b), Some("Beta")) == Ok(ProducerConfig(second, TableSpecs.Create(), false))
  {
    TrimmedNames();
    var first := CategorySpecs.SetStartId(CategorySpecs.Create(Some(" Beta")), 2000);
    var second := CategorySpecs.Create(Some("Beta"));
    var b1 := AddSpecAsWritten(Create(), first);
    assert b1.specs == [first];
    assert !EqualsIgnoreCase(" Beta", "Beta");
    var b2 := AddSpecAsWritten(b1, second);
    assert b2.specs == [first, second];
    assert AddSpecsAsWritten(Create(), [first, second]) == AddSpecsAsWritten(b1, [second]);
    assert AddSpecsAsWritten(b1, [second]) == AddSpecsAsWritten(b2, []);
    assert Key(second) == "Beta";
    RegisterAllLastWins(Registry.Empty(), [first, second], TableSpecs.Create(), false, 1);
  }

  /** Comparing trimmed names, the second "Beta" is recognised as a duplicate:
      only the first spec is collected, and "Beta" keeps its start id 2000. */
  lemma TrimmedDuplicateSkipped()
    ensures var first := CategorySpecs.SetStartId(CategorySpecs.Create(Some(" Beta")), 2000);
      var second := CategorySpecs.Create(Some("Beta"));
      var b := AddSpecs(Create(), [first, second]);
      && b.specs == [first]
      && Registry.GetIdProducer(Build(b), Some("Beta")) == Ok(ProducerConfig(first, TableSpecs.Create(), false))
  {
    TrimmedNames();
    var first := CategorySpecs.SetStartId(CategorySpecs.Create(Some(" Beta")), 2000);
    var second := CategorySpecs.Create(Some("Beta"));
    var b1 := AddSpec(Create(), first);
    assert b1.specs == [first];
    EqualsIgnoreCaseReflexive("Beta");
    assert !IsNewCategory(b1.specs, Key(second));
    assert AddSpecs(Create(), [first, second]) == AddSpecs(b1, [second]);
    assert AddSpecs(b1, [second]) == AddSpecs(b1, []);
    var reg1 := Registry.Register(Registry.Empty(), first.categoryName, Some(ProducerConfig(first, TableSpecs.Create(), false)));
    assert RegisterAll(Registry.Empty(), [first], TableSpecs.Create(), false) == RegisterAll(reg1, [], TableSpecs.Create(), false);
  }

  /** When every collected name is stored already trimmed, the check as written
      and the check on trimmed names agree. */
  lemma AsWrittenAgreesOnTrimmedNames(specs: seq<CategorySpec>, name: string)
    requires forall k :: 0 <= k < |specs| ==> Trim(StoredName(specs[k])) == StoredName(specs[k])
    ensures IsNewCategoryAsWritten(specs, name) == IsNewCategory(specs, name)
  {
  }
}
