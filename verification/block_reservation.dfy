/** Several `ObjectIdentifierDB` instances sharing one category row of one table
    (the same category and the same qualifier). Each refill is
    one atomic step on the shared database; the steps of different instances may
    interleave in any order. */
module BlockReservation {
  import opened Wrappers
  import opened IdentifierDB

  /** The ids [first, last] one refill reserved. */
  datatype Block = Block(first: int, last: int)

  /** A run of refills (`idFromDB` as written), each by the instance the schedule names,
      collecting the blocks that were really reserved. Entries naming no instance are skipped. */
  function Refills(insts: seq<Allocator>, db: Database, schedule: seq<(nat, Fault)>): (r: (Database, seq<Block>))
    decreases |schedule|
  {
    if |schedule| == 0 then (db, [])
    else
      var (i, f) := schedule[0];
      if i >= |insts| then Refills(insts, db, schedule[1..])
      else
        var d := IdFromDb(insts[i], db, f);
        var reserved := if Reserves(insts[i], db, f) then [Block(d.value, d.alloc.lastPrefetchedId)] else [];
        var rest := Refills(insts, d.db, schedule[1..]);
        (rest.0, reserved + rest.1)
  }

  /** Any interleaving of refills on one row reserves non-empty, strictly ascending and
      hence pairwise disjoint blocks, all between the row's `nextId` before and after. */
  lemma {:induction false} RefillsAscending(c: string, insts: seq<Allocator>, db: Database, schedule: seq<(nat, Fault)>)
    requires forall i :: 0 <= i < |insts| ==> insts[i].category == c
    requires forall i :: 0 <= i < |insts| ==> insts[i].qualifier == insts[0].qualifier
    requires db.tableExists && c in db.rows
    ensures var (db', blocks) := Refills(insts, db, schedule);
      && db'.tableExists && c in db'.rows
      && db.rows[c].nextId <= db'.rows[c].nextId
      && (forall k :: 0 <= k < |blocks| ==>
            db.rows[c].nextId <= blocks[k].first <= blocks[k].last < db'.rows[c].nextId)
      && (forall k, l :: 0 <= k < l < |blocks| ==> blocks[k].last < blocks[l].first)
    decreases |schedule|
  {
    if |schedule| > 0 {
      var (i, f) := schedule[0];
      if i >= |insts| {
        RefillsAscending(c, insts, db, schedule[1..]);
      } else {
        var d := IdFromDb(insts[i], db, f);
        RefillsAscending(c, insts, d.db, schedule[1..]);
      }
    }
  }

  /** The refills of the test with three instances of "Beta" and block size 5: each
      instance reserves its own block of five, one after the other. */
  lemma ThreeInstancesReserveSeparateBlocks()
    ensures var a := SetBlockSize(NewAllocator(None, Some("Beta")), 5);
      var db := Database(true, map["Beta" := Row(1000, 5)]);
      Refills([a, a, a], db, [(0, NoFault), (1, NoFault), (2, NoFault)]).1
        == [Block(1000, 1004), Block(1005, 1009), Block(1010, 1014)]
  {
    var a := SetBlockSize(NewAllocator(None, Some("Beta")), 5);
    var db := Database(true, map["Beta" := Row(1000, 5)]);
    var db1 := Database(true, map["Beta" := Row(1005, 5)]);
    var db2 := Database(true, map["Beta" := Row(1010, 5)]);
    var db3 := Database(true, map["Beta" := Row(1015, 5)]);
    assert IdFromDb(a, db, NoFault).db == db1;
    assert IdFromDb(a, db1, NoFault).db == db2;
    assert IdFromDb(a, db2, NoFault).db == db3;
    var s := [(0, NoFault), (1, NoFault), (2, NoFault)];
    assert s[1..] == [(1, NoFault), (2, NoFault)];
    assert s[1..][1..] == [(2, NoFault)];
    assert Refills([a, a, a], db2, [(2, NoFault)]).1 == [Block(1010, 1014)];
    assert Refills([a, a, a], db1, s[1..]).1 == [Block(1005, 1009), Block(1010, 1014)];
  }

  // ---------------------------------------------------------------------------
  // Uniqueness of the ids handed out, with failures surfaced.
  // ---------------------------------------------------------------------------

  /** The allocator holds a non-empty in-memory block. */
  predicate NonEmpty(a: Allocator) {
    a.nextAvailableId <= a.lastPrefetchedId
  }

  /** `x` lies in the allocator's in-memory block. */
  predicate Holds(a: Allocator, x: int) {
    a.nextAvailableId <= x <= a.lastPrefetchedId
  }

  /** The in-memory blocks of two allocators do not overlap. */
  predicate Apart(a: Allocator, b: Allocator) {
    !NonEmpty(a) || !NonEmpty(b) || a.lastPrefetchedId < b.nextAvailableId || b.lastPrefetchedId < a.nextAvailableId
  }

  /** One allocator against the database: its flag is backed by the row, and its
      block (if any) lies below the row's `nextId`. */
  predicate LocalInv(a: Allocator, db: Database) {
    && db.Valid()
    && (a.tableInitialized ==> a.category in db.rows)
    && (a.category !in db.rows ==> !NonEmpty(a))
    && (a.category in db.rows && NonEmpty(a) ==> a.lastPrefetchedId < db.rows[a.category].nextId)
  }

  /** `x` was reserved by the step from `db` to `db'`: at or above the row's old
      `nextId` (if there was a row) and below the new one. */
  predicate Fresh(c: string, db: Database, db': Database, x: int) {
    c in db'.rows && x < db'.rows[c].nextId && (c in db.rows ==> db.rows[c].nextId <= x)
  }

  /** The row of `c`, once present, stays and its `nextId` never decreases. */
  predicate RowGrows(c: string, db: Database, db': Database) {
    c in db.rows ==> c in db'.rows && db.rows[c].nextId <= db'.rows[c].nextId
  }

  lemma LoadCheckedEffect(a: Allocator, db: Database, f: Fault)
    requires LocalInv(a, db)
    ensures var r := LoadChecked(a, db, f);
      && LocalInv(r.alloc, r.db)
      && RowGrows(a.category, db, r.db)
      && (r.value.Err? ==> r.alloc.nextAvailableId == a.nextAvailableId && r.alloc.lastPrefetchedId == a.lastPrefetchedId)
      && (r.value.Ok? ==> NonEmpty(r.alloc) && Fresh(a.category, db, r.db, r.alloc.nextAvailableId))
  {
    var init := TableInitialized(a, db, f);
    if init.value {
      var d := IdFromDbChecked(init.alloc, init.db, f);
      if d.value.Ok? {
        RefillReservesBlock(a, db, f);
      }
    }
  }

  lemma GetNextIdCheckedEffect(a: Allocator, db: Database, f: Fault)
    requires LocalInv(a, db)
    ensures var r := GetNextIdChecked(a, db, f);
      && LocalInv(r.alloc, r.db)
      && RowGrows(a.category, db, r.db)
      && (r.value.Err? ==> r.alloc.nextAvailableId == a.nextAvailableId && r.alloc.lastPrefetchedId == a.lastPrefetchedId)
      && (r.value.Ok? ==> NonEmpty(r.alloc) && r.value.value == r.alloc.nextAvailableId)
      && (r.value.Ok? ==> r.alloc == a.(tableInitialized := r.alloc.tableInitialized) || Fresh(a.category, db, r.db, r.alloc.nextAvailableId))
  {
    if a.nextAvailableId > a.lastPrefetchedId {
      LoadCheckedEffect(a, db, f);
    }
  }

  /** What one checked `nextIdentifier` call does to the allocator's block: the id it
      returns was in the old block or was freshly reserved, the id is below the new
      block, and the new block is part of the old one or freshly reserved. */
  lemma {:induction false} NextCheckedEffect(a: Allocator, db: Database, f1: Fault, f2: Fault)
    requires LocalInv(a, db)
    ensures var r := NextIdentifierChecked(a, db, f1, f2);
      && LocalInv(r.alloc, r.db)
      && r.alloc.category == a.category
      && r.alloc.qualifier == a.qualifier
      && RowGrows(a.category, db, r.db)
      && (NonEmpty(r.alloc) ==>
            (a.nextAvailableId <= r.alloc.nextAvailableId && r.alloc.lastPrefetchedId == a.lastPrefetchedId)
            || Fresh(a.category, db, r.db, r.alloc.nextAvailableId))
      && (r.value.Ok? ==> Holds(a, r.value.value) || Fresh(a.category, db, r.db, r.value.value))
      && (r.value.Ok? ==> r.value.value < r.alloc.nextAvailableId)
  {
    var c := a.category;
    var g := GetNextIdChecked(a, db, f1);
    GetNextIdCheckedEffect(a, db, f1);
    var r := NextIdentifierChecked(a, db, f1, f2);
    if g.value.Ok? {
      var id := g.value.value;
      assert NonEmpty(g.alloc) && c in g.db.rows && g.alloc.lastPrefetchedId < g.db.rows[c].nextId;
      var s := SetNextIdChecked(g.alloc, g.db, id + 1, f2);
      if id + 1 > g.alloc.lastPrefetchedId {
        LoadCheckedEffect(g.alloc, g.db, f2);
        assert s == LoadChecked(g.alloc, g.db, f2);
        assert r.alloc == s.alloc && r.db == s.db;
        assert c in s.db.rows && g.db.rows[c].nextId <= s.db.rows[c].nextId;
        if s.value.Ok? {
          assert r.value == Ok(id);
          assert Fresh(c, g.db, s.db, s.alloc.nextAvailableId);
          assert Fresh(c, db, s.db, s.alloc.nextAvailableId);
          assert id < s.alloc.nextAvailableId;
        } else {
          assert r.value.Err?;
          assert s.alloc.nextAvailableId == g.alloc.nextAvailableId;
          assert s.alloc.lastPrefetchedId == g.alloc.lastPrefetchedId;
        }
      } else {
        assert s == Outcome(g.alloc.(nextAvailableId := id + 1), g.db, Ok(()));
        assert r == Outcome(s.alloc, s.db, Ok(id));
      }
    } else {
      assert r == g;
    }
  }

  /** Instances of one category in one table, the shared database, and the ids
      handed out so far. */
  datatype Cluster = Cluster(db: Database, insts: seq<Allocator>, issued: set<int>)

  /** A call of `nextIdentifier` on one instance, with the faults of its two possible refills. */
  datatype Request = Request(instance: nat, first: Fault, second: Fault)

  /** All instances use the category `c` in one table (the same qualifier),
      blocks of different instances never overlap, no id handed out lies in a
      block, and everything handed out or held lies below the row's `nextId`. */
  predicate Inv(c: string, s: Cluster) {
    && (forall i :: 0 <= i < |s.insts| ==> s.insts[i].category == c && LocalInv(s.insts[i], s.db))
    && (forall i :: 0 <= i < |s.insts| ==> s.insts[i].qualifier == s.insts[0].qualifier)
    && (c !in s.db.rows ==> s.issued == {})
    && (c in s.db.rows ==> forall x :: x in s.issued ==> x < s.db.rows[c].nextId)
    && (forall i, x :: 0 <= i < |s.insts| && x in s.issued ==> !Holds(s.insts[i], x))
    && (forall i, j :: 0 <= i < |s.insts| && 0 <= j < |s.insts| && i != j ==> Apart(s.insts[i], s.insts[j]))
  }

  /** One checked call; an id it returns joins the issued set. */
  function Step(s: Cluster, q: Request): (r: (Cluster, Result<int>))
    requires q.instance < |s.insts|
  {
    var o := NextIdentifierChecked(s.insts[q.instance], s.db, q.first, q.second);
    var issued := if o.value.Ok? then s.issued + {o.value.value} else s.issued;
    (Cluster(o.db, s.insts[q.instance := o.alloc], issued), o.value)
  }

  /** A step keeps the invariant, and an id it returns was not handed out before. */
  lemma StepKeepsInv(c: string, s: Cluster, q: Request)
    requires Inv(c, s) && q.instance < |s.insts|
    ensures var (s', v) := Step(s, q);
      && Inv(c, s')
      && (v.Ok? ==> v.value !in s.issued && s'.issued == s.issued + {v.value})
      && (v.Err? ==> s'.issued == s.issued)
  {
    var i := q.instance;
    var a := s.insts[i];
    var o := NextIdentifierChecked(a, s.db, q.first, q.second);
    NextCheckedEffect(a, s.db, q.first, q.second);
    var (s', v) := Step(s, q);
    forall j | 0 <= j < |s'.insts|
      ensures s'.insts[j].category == c && LocalInv(s'.insts[j], s'.db)
      ensures s'.insts[j].qualifier == s'.insts[0].qualifier
    {
      if j != i {
        var b := s.insts[j];
        assert s'.insts[j] == b;
      }
    }
    forall j, k | 0 <= j < |s'.insts| && 0 <= k < |s'.insts| && j != k
      ensures Apart(s'.insts[j], s'.insts[k])
    {
      if j != i && k != i {
        assert Apart(s.insts[j], s.insts[k]);
      } else {
        var other := if j == i then k else j;
        assert Apart(s.insts[i], s.insts[other]);
      }
    }
    forall j, x | 0 <= j < |s'.insts| && x in s'.issued
      ensures !Holds(s'.insts[j], x)
    {
      if x in s.issued {
        assert !Holds(s.insts[j], x);
      }
    }
  }

  /** Serves the requests in order, skipping those naming no instance, and collects
      the ids handed out. */
  function Run(s: Cluster, requests: seq<Request>): (r: (Cluster, seq<int>))
    decreases |requests|
  {
    if |requests| == 0 then (s, [])
    else if requests[0].instance >= |s.insts| then Run(s, requests[1..])
    else
      var (s', v) := Step(s, requests[0]);
      var rest := Run(s', requests[1..]);
      (rest.0, if v.Ok? then [v.value] + rest.1 else rest.1)
  }

  /** Putting a new id in front of distinct ids none of which has been issued. */
  lemma ConsFresh(v: int, rest: seq<int>, before: set<int>, after: set<int>, final: set<int>)
    requires v !in before && after == before + {v}
    requires final == after + (set x | x in rest)
    requires forall k :: 0 <= k < |rest| ==> rest[k] !in after
    requires forall k, l :: 0 <= k < l < |rest| ==> rest[k] != rest[l]
    ensures final == before + (set x | x in [v] + rest)
    ensures forall k :: 0 <= k < |[v] + rest| ==> ([v] + rest)[k] !in before
    ensures forall k, l :: 0 <= k < l < |[v] + rest| ==> ([v] + rest)[k] != ([v] + rest)[l]
  {
    var ids := [v] + rest;
    assert forall k :: 1 <= k < |ids| ==> ids[k] == rest[k - 1];
    assert (set x | x in ids) == {v} + (set x | x in rest);
  }

  /** Any interleaving of calls on any number of instances, whatever fails along the
      way, hands out pairwise distinct ids, none handed out before. */
  lemma {:induction false} RunIssuesDistinct(c: string, s: Cluster, requests: seq<Request>)
    requires Inv(c, s)
    ensures Inv(c, Run(s, requests).0)
    ensures Run(s, requests).0.issued == s.issued + (set x | x in Run(s, requests).1)
    ensures forall k :: 0 <= k < |Run(s, requests).1| ==> Run(s, requests).1[k] !in s.issued
    ensures forall k, l :: 0 <= k < l < |Run(s, requests).1| ==> Run(s, requests).1[k] != Run(s, requests).1[l]
    decreases |requests|
  {
    if |requests| > 0 {
      if requests[0].instance >= |s.insts| {
        RunIssuesDistinct(c, s, requests[1..]);
      } else {
        var step := Step(s, requests[0]);
        var s1, v := step.0, step.1;
        StepKeepsInv(c, s, requests[0]);
        RunIssuesDistinct(c, s1, requests[1..]);
        var tail := Run(s1, requests[1..]);
        if v.Ok? {
          assert Run(s, requests) == (tail.0, [v.value] + tail.1);
          ConsFresh(v.value, tail.1, s.issued, s1.issued, tail.0.issued);
        } else {
          assert Run(s, requests) == tail;
        }
      }
    }
  }

  /** Fresh instances, whatever the database holds, satisfy the invariant. */
  lemma FreshClusterInv(c: string, db: Database, insts: seq<Allocator>)
    requires db.Valid()
    requires forall i :: 0 <= i < |insts| ==>
      insts[i].category == c && !insts[i].tableInitialized && !NonEmpty(insts[i])
    requires forall i :: 0 <= i < |insts| ==> insts[i].qualifier == insts[0].qualifier
    ensures Inv(c, Cluster(db, insts, {}))
  {
  }

  // ---------------------------------------------------------------------------
  // The code as written, without faults.
  // ---------------------------------------------------------------------------

  /** Calls of `nextIdentifier` as written, without faults, by the instances the
      schedule names; entries naming no instance are skipped. */
  function RunAsWritten(db: Database, insts: seq<Allocator>, schedule: seq<nat>): (r: (Database, seq<Allocator>, seq<int>))
    decreases |schedule|
  {
    if |schedule| == 0 then (db, insts, [])
    else if schedule[0] >= |insts| then RunAsWritten(db, insts, schedule[1..])
    else
      var o := NextIdentifier(insts[schedule[0]], db, NoFault, NoFault);
      var rest := RunAsWritten(o.db, insts[schedule[0] := o.alloc], schedule[1..]);
      (rest.0, rest.1, [o.value] + rest.2)
  }

  function FaultFree(schedule: seq<nat>): (r: seq<Request>)
    ensures |r| == |schedule|
    ensures forall k :: 0 <= k < |r| ==> r[k] == Request(schedule[k], NoFault, NoFault)
  {
    seq(|schedule|, k requires 0 <= k < |schedule| => Request(schedule[k], NoFault, NoFault))
  }

  /** Without faults the code as written behaves like the checked version. */
  lemma {:induction false} AsWrittenMatchesChecked(c: string, s: Cluster, schedule: seq<nat>)
    requires Inv(c, s)
    ensures var w := RunAsWritten(s.db, s.insts, schedule);
      var r := Run(s, FaultFree(schedule));
      w.0 == r.0.db && w.1 == r.0.insts && w.2 == r.1
    decreases |schedule|
  {
    if |schedule| > 0 {
      var q := FaultFree(schedule);
      assert q[1..] == FaultFree(schedule[1..]);
      if schedule[0] < |s.insts| {
        var a := s.insts[schedule[0]];
        assert LocalInv(a, s.db);
        NextIdentifierAgreesWithoutFault(a, s.db);
        StepKeepsInv(c, s, q[0]);
        AsWrittenMatchesChecked(c, Step(s, q[0]).0, schedule[1..]);
      } else {
        AsWrittenMatchesChecked(c, s, schedule[1..]);
      }
    }
  }

  /** Without faults, the code as written never hands out the same id twice, whatever
      the number of instances and the interleaving of their calls. */
  lemma AsWrittenFaultFreeDistinct(c: string, db: Database, insts: seq<Allocator>, schedule: seq<nat>)
    requires Inv(c, Cluster(db, insts, {}))
    ensures var ids := RunAsWritten(db, insts, schedule).2;
      forall k, l :: 0 <= k < l < |ids| ==> ids[k] != ids[l]
  {
    AsWrittenMatchesChecked(c, Cluster(db, insts, {}), schedule);
    RunIssuesDistinct(c, Cluster(db, insts, {}), FaultFree(schedule));
  }
}
