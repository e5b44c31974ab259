/**
 * What the network service does with the delete calls of cosmo_delete_prefixed, and the run of
 * cosmo_delete_prefixed itself as a function of the store and of the scripted call outcomes.
 *
 * Failures are scripted: the cloud holds a sequence of outcomes, one per delete call that reaches
 * it (None: no injected failure); once the script is used up every call goes through.
 */
module Neutron {
  import opened Types
  import opened Sugar

  /** The failure scripted for the next call, if any. */
  function NextFault(faults: seq<Option<Error>>): Option<Error> {
    if faults == [] then None else faults[0]
  }

  /** The script after one call has used its head. */
  function Advance(faults: seq<Option<Error>>): seq<Option<Error>> {
    if faults == [] then [] else faults[1..]
  }

  /** The script after n calls. */
  function Drop(faults: seq<Option<Error>>, n: nat): seq<Option<Error>> {
    if n >= |faults| then [] else faults[n..]
  }

  /** No failure is scripted for the next n calls. */
  predicate Quiet(faults: seq<Option<Error>>, n: nat) {
    forall i :: 0 <= i < n && i < |faults| ==> faults[i].None?
  }

  lemma DropNone(faults: seq<Option<Error>>)
    ensures Drop(faults, 0) == faults
  {
  }

  lemma DropAdvance(faults: seq<Option<Error>>, n: nat)
    ensures Drop(Advance(faults), n) == Drop(faults, n + 1)
  {
  }

  lemma DropDrop(faults: seq<Option<Error>>, a: nat, b: nat)
    ensures Drop(Drop(faults, a), b) == Drop(faults, a + b)
  {
  }

  lemma DropAt(faults: seq<Option<Error>>, k: nat, i: nat)
    requires k + i < |faults|
    ensures |Drop(faults, k)| == |faults| - k && Drop(faults, k)[i] == faults[k + i]
  {
  }

  lemma QuietAdvance(faults: seq<Option<Error>>, n: nat)
    requires Quiet(faults, n + 1)
    ensures Quiet(Advance(faults), n)
  {
    QuietDrop(faults, 1, n);
    DropAdvance(faults, 0);
  }

  lemma QuietDrop(faults: seq<Option<Error>>, a: nat, b: nat)
    requires Quiet(faults, a + b)
    ensures Quiet(Drop(faults, a), b)
  {
    forall i | 0 <= i < b && i < |Drop(faults, a)|
      ensures Drop(faults, a)[i].None?
    {
      assert Drop(faults, a)[i] == faults[a + i];
    }
  }

  function Ids(rs: seq<Resource>): set<nat> {
    set r | r in rs :: r.id
  }

  lemma IdsSplit(rs: seq<Resource>)
    requires rs != []
    ensures Ids(rs) == {rs[0].id} + Ids(rs[1..])
  {
    assert forall r :: r in rs <==> r == rs[0] || r in rs[1..];
  }

  /** Some record of rs has the given id. */
  predicate HasId(rs: seq<Resource>, id: nat)
    decreases |rs|
  {
    rs != [] && (rs[0].id == id || HasId(rs[1..], id))
  }

  lemma {:induction false} HasIdIff(rs: seq<Resource>, id: nat)
    ensures HasId(rs, id) <==> id in Ids(rs)
    decreases |rs|
  {
    if rs != [] {
      HasIdIff(rs[1..], id);
      IdsSplit(rs);
    }
  }

  /** The records of rs whose id is not in gone, in order. */
  function Except(rs: seq<Resource>, gone: set<nat>): seq<Resource> {
    Where(rs, (r: Resource) => r.id !in gone)
  }

  /** No two records of rs share an id. */
  predicate UniqueIds(rs: seq<Resource>)
    decreases |rs|
  {
    rs == [] || (rs[0].id !in Ids(rs[1..]) && UniqueIds(rs[1..]))
  }

  /** Ids are unique within every type of the store. */
  predicate AllUnique(store: Store) {
    forall k :: k in store ==> UniqueIds(store[k])
  }

  /** With unique ids, a record's id identifies it. */
  lemma {:induction false} IdDeterminesRecord(rs: seq<Resource>, a: Resource)
    requires UniqueIds(rs) && a in rs
    ensures forall b :: b in rs && b.id == a.id ==> b == a
  {
    assert forall b :: b in rs ==> b == rs[0] || b in rs[1..];
    if a == rs[0] {
      assert forall b :: b in rs[1..] ==> b.id in Ids(rs[1..]);
    } else {
      assert a in rs[1..];
      IdDeterminesRecord(rs[1..], a);
      assert a.id in Ids(rs[1..]);
    }
  }

  lemma {:induction false} WhereUnique(rs: seq<Resource>, keep: Resource -> bool)
    requires UniqueIds(rs)
    ensures UniqueIds(Where(rs, keep)) && Ids(Where(rs, keep)) <= Ids(rs)
  {
    if rs != [] {
      WhereUnique(rs[1..], keep);
      var rest := Where(rs[1..], keep);
      if keep(rs[0]) {
        assert Where(rs, keep) == [rs[0]] + rest;
        assert ([rs[0]] + rest)[1..] == rest;
      } else {
        assert Where(rs, keep) == rest;
      }
    }
  }

  /** Removing no ids keeps every record. */
  lemma {:induction false} ExceptNone(rs: seq<Resource>)
    ensures Except(rs, {}) == rs
  {
    if rs != [] {
      ExceptNone(rs[1..]);
      assert [rs[0]] + rs[1..] == rs;
    }
  }

  /** Removing two id sets one after the other removes their union. */
  lemma {:induction false} ExceptTwice(rs: seq<Resource>, a: set<nat>, b: set<nat>)
    ensures Except(Except(rs, a), b) == Except(rs, a + b)
  {
    if rs != [] {
      ExceptTwice(rs[1..], a, b);
      var inner := Except(rs[1..], a);
      if rs[0].id !in a {
        assert Except(rs, a) == [rs[0]] + inner;
        assert ([rs[0]] + inner)[1..] == inner;
      } else {
        assert Except(rs, a) == inner;
      }
    }
  }

  /** Only the ids that occur in rs matter to Except. */
  lemma {:induction false} ExceptOnlyPresent(rs: seq<Resource>, a: set<nat>, b: set<nat>)
    requires a * Ids(rs) == b * Ids(rs)
    ensures Except(rs, a) == Except(rs, b)
  {
    if rs != [] {
      var ids, tail := Ids(rs), Ids(rs[1..]);
      assert rs[0].id in ids;
      assert tail <= ids by {
        forall i | i in tail ensures i in ids {
          var r :| r in rs[1..] && r.id == i;
          assert r in rs;
        }
      }
      assert a * tail == b * tail by {
        assert a * tail == (a * ids) * tail;
        assert b * tail == (b * ids) * tail;
      }
      assert (rs[0].id in a) == (rs[0].id in b) by {
        assert rs[0].id in a * ids <==> rs[0].id in b * ids;
      }
      ExceptOnlyPresent(rs[1..], a, b);
    }
  }

  /** With unique ids, removing the ids of the prefixed records removes exactly the prefixed records. */
  lemma {:induction false} ExceptPrefixed(rs: seq<Resource>, prefix: string)
    requires UniqueIds(rs)
    ensures Except(rs, Ids(KeepPrefixed(rs, prefix))) == Unprefixed(rs, prefix)
  {
    if rs != [] {
      var x, tail := rs[0], rs[1..];
      var gone := Ids(KeepPrefixed(rs, prefix));
      var tailGone := Ids(KeepPrefixed(tail, prefix));
      WhereUnique(tail, (r: Resource) => StartsWith(r.name, prefix));
      assert KeepPrefixed(rs, prefix) == (if StartsWith(x.name, prefix) then [x] else []) + KeepPrefixed(tail, prefix);
      assert gone == (if StartsWith(x.name, prefix) then {x.id} else {}) + tailGone;
      assert x.id in gone <==> StartsWith(x.name, prefix);
      ExceptOnlyPresent(tail, gone, tailGone);
      ExceptPrefixed(tail, prefix);
    }
  }

  /** The error delete_<objType>(id) raises, if any: a scripted failure, or NotFound for an unknown id. */
  function DeleteError(store: Store, faults: seq<Option<Error>>, objType: string, id: nat): Option<Error> {
    if NextFault(faults).Some? then NextFault(faults)
    else if Plural(objType) in store && HasId(store[Plural(objType)], id) then None
    else Some(NotFound)
  }

  /** The store after delete_<objType>(id): unchanged when the call fails, without that id when it succeeds. */
  function AfterDelete(store: Store, faults: seq<Option<Error>>, objType: string, id: nat): Store {
    if DeleteError(store, faults, objType, id).None?
    then store[Plural(objType) := Except(store[Plural(objType)], {id})]
    else store
  }

  /** The outcome of a sequence of calls: the new store and script, the calls issued and the error that ended them. */
  datatype Run = Run(store: Store, faults: seq<Option<Error>>, issued: seq<Call>, err: Option<Error>)

  /** Delete every record of rs in turn (the inner loop of cosmo_delete_prefixed); the first failure propagates. */
  function DeleteEach(store: Store, faults: seq<Option<Error>>, objType: string, rs: seq<Resource>): Run
    decreases |rs|
  {
    if rs == [] then Run(store, faults, [], None)
    else
      var call := NeutronDelete(objType, rs[0].id);
      var e := DeleteError(store, faults, objType, rs[0].id);
      if e.Some? then Run(store, Advance(faults), [call], e)
      else
        var rest := DeleteEach(AfterDelete(store, faults, objType, rs[0].id), Advance(faults), objType, rs[1..]);
        Run(rest.store, rest.faults, [call] + rest.issued, rest.err)
  }

  /** For each type in turn, list the prefixed records once and delete them (the outer loop). */
  function DeleteTypes(store: Store, faults: seq<Option<Error>>, types: seq<string>, prefix: string): Run
    decreases |types|
  {
    if types == [] then Run(store, faults, [], None)
    else
      match ListPrefixed(store, types[0], prefix)
      case Err(e) => Run(store, faults, [], Some(e))
      case Ok(rs) =>
        var first := DeleteEach(store, faults, types[0], rs);
        if first.err.Some? then first
        else
          var rest := DeleteTypes(first.store, first.faults, types[1..], prefix);
          Run(rest.store, rest.faults, first.issued + rest.issued, rest.err)
  }

  /** The dependency order of cosmo_delete_prefixed. */
  const CleanupOrder: seq<string> := ["port", "router", "network", "subnet"]

  /** cosmo_delete_prefixed(prefix) run against a store and a failure script. */
  function DeletePrefixedRun(store: Store, faults: seq<Option<Error>>, prefix: string): Run {
    DeleteTypes(store, faults, CleanupOrder, prefix)
  }

  /** One delete call per record, in order. */
  function Calls(objType: string, rs: seq<Resource>): (calls: seq<Call>)
    ensures |calls| == |rs|
    decreases |rs|
  {
    if rs == [] then [] else [NeutronDelete(objType, rs[0].id)] + Calls(objType, rs[1..])
  }

  /** The delete calls for the prefixed records of one type of the store, in listing order. */
  function TypeCalls(store: Store, objType: string, prefix: string): seq<Call> {
    if Plural(objType) in store then Calls(objType, KeepPrefixed(store[Plural(objType)], prefix)) else []
  }

  /** The delete calls for the prefixed records of each type, type after type. */
  function Plan(store: Store, types: seq<string>, prefix: string): seq<Call>
    decreases |types|
  {
    if types == [] then [] else TypeCalls(store, types[0], prefix) + Plan(store, types[1..], prefix)
  }

  /** The listing calls of all types in types. */
  function Plurals(types: seq<string>): set<string> {
    set t | t in types :: Plural(t)
  }

  /** Every type of types has its listing call. */
  predicate Listable(store: Store, types: seq<string>) {
    forall t :: t in types ==> Plural(t) in store
  }

  /** No type occurs twice in types. */
  predicate Distinct(types: seq<string>) {
    forall i, j :: 0 <= i < j < |types| ==> types[i] != types[j]
  }

  /** The store with the prefixed records of every type of types gone and everything else as it was. */
  function Cleaned(store: Store, types: seq<string>, prefix: string): Store {
    map k | k in store :: if k in Plurals(types) then Unprefixed(store[k], prefix) else store[k]
  }

  /**
   * A store shrunk from store0 by deleting prefixed records only: same types, no record added,
   * every record without the prefix still there, ids still unique.
   */
  ghost predicate Shrunk(store0: Store, store: Store, prefix: string) {
    store.Keys == store0.Keys &&
    (forall k, r :: k in store0 && r in store[k] ==> r in store0[k]) &&
    (forall k, r :: k in store0 && r in store0[k] && !StartsWith(r.name, prefix) ==> r in store[k]) &&
    AllUnique(store)
  }

  // ---------------------------------------------------------------------------------------------
  // Unfolding one step of the outer loop

  lemma DistinctTail(types: seq<string>)
    requires Distinct(types) && types != []
    ensures Distinct(types[1..])
    ensures forall u :: u in types[1..] ==> u in types && Plural(u) != Plural(types[0])
    ensures Plurals(types) == {Plural(types[0])} + Plurals(types[1..])
    ensures Plural(types[0]) !in Plurals(types[1..])
  {
    forall i, j | 0 <= i < j < |types[1..]|
      ensures types[1..][i] != types[1..][j]
    {
      assert types[1..][i] == types[i + 1] && types[1..][j] == types[j + 1];
    }
    forall u | u in types[1..]
      ensures u in types && Plural(u) != Plural(types[0])
    {
      var j :| 0 <= j < |types[1..]| && types[1..][j] == u;
      assert types[j + 1] == u;
      PluralInjective(u, types[0]);
    }
    assert forall u :: u in types ==> u == types[0] || u in types[1..];
  }

  lemma DeleteTypesStep(store: Store, faults: seq<Option<Error>>, types: seq<string>, prefix: string)
    requires types != [] && Plural(types[0]) in store
    ensures var first := DeleteEach(store, faults, types[0], KeepPrefixed(store[Plural(types[0])], prefix));
            var rest := DeleteTypes(first.store, first.faults, types[1..], prefix);
            DeleteTypes(store, faults, types, prefix) ==
              if first.err.Some? then first else Run(rest.store, rest.faults, first.issued + rest.issued, rest.err)
  {
    ListPrefixedExact(store, types[0], prefix);
  }

  /** One step of the inner loop: delete the first listed record, then carry on unless that failed. */
  lemma DeleteEachStep(store: Store, faults: seq<Option<Error>>, objType: string, rs: seq<Resource>)
    requires rs != []
    ensures var e := DeleteError(store, faults, objType, rs[0].id);
            var next := AfterDelete(store, faults, objType, rs[0].id);
            var rest := DeleteEach(next, Advance(faults), objType, rs[1..]);
            DeleteEach(store, faults, objType, rs) ==
              if e.Some? then Run(next, Advance(faults), [NeutronDelete(objType, rs[0].id)], e)
              else Run(rest.store, rest.faults, [NeutronDelete(objType, rs[0].id)] + rest.issued, rest.err)
  {
  }

  /** The inner loop's remaining work: whole is the calls issued so far followed by deleting rs from here. */
  ghost predicate EachRemaining(whole: Run, issued: seq<Call>, store: Store, faults: seq<Option<Error>>,
                                objType: string, rs: seq<Resource>)
  {
    var rest := DeleteEach(store, faults, objType, rs);
    whole == Run(rest.store, rest.faults, issued + rest.issued, rest.err)
  }

  /** The inner loop's invariant once no record is left: whole is exactly what was done. */
  lemma DeleteEachDone(whole: Run, issued: seq<Call>, store: Store, faults: seq<Option<Error>>, objType: string)
    requires EachRemaining(whole, issued, store, faults, objType, [])
    ensures whole == Run(store, faults, issued, None)
  {
    assert issued + [] == issued;
  }

  /** The inner loop's invariant carried over one delete call: it fails and ends the loop, or the rest remains. */
  lemma DeleteEachAdvance(whole: Run, issued: seq<Call>, store: Store, faults: seq<Option<Error>>,
                          objType: string, rs: seq<Resource>, i: nat)
    requires i < |rs| && EachRemaining(whole, issued, store, faults, objType, rs[i..])
    ensures var e := DeleteError(store, faults, objType, rs[i].id);
            var done := issued + [NeutronDelete(objType, rs[i].id)];
            if e.Some? then whole == Run(store, Advance(faults), done, e)
            else EachRemaining(whole, done, AfterDelete(store, faults, objType, rs[i].id), Advance(faults), objType, rs[i + 1..])
  {
    assert rs[i..][1..] == rs[i + 1..];
    DeleteEachStep(store, faults, objType, rs[i..]);
    var rest := DeleteEach(AfterDelete(store, faults, objType, rs[i].id), Advance(faults), objType, rs[i + 1..]);
    AppendAssoc(issued, [NeutronDelete(objType, rs[i].id)], rest.issued);
  }

  /** The remaining-work invariant of the outer loop when the type's listing call is missing. */
  lemma DeleteTypesMissing(whole: Run, issued: seq<Call>, store: Store, faults: seq<Option<Error>>,
                           types: seq<string>, t: nat, prefix: string)
    requires t < |types| && Plural(types[t]) !in store
    requires var rest := DeleteTypes(store, faults, types[t..], prefix);
             whole == Run(rest.store, rest.faults, issued + rest.issued, rest.err)
    ensures whole == Run(store, faults, issued, Some(MissingCall("list_" + Plural(types[t]))))
  {
  }

  /** The remaining-work invariant of the outer loop, carried over the deletions of one type. */
  lemma DeleteTypesAdvance(whole: Run, issued: seq<Call>, store: Store, faults: seq<Option<Error>>,
                           types: seq<string>, t: nat, prefix: string, first: Run)
    requires t < |types| && Plural(types[t]) in store
    requires first == DeleteEach(store, faults, types[t], KeepPrefixed(store[Plural(types[t])], prefix))
    requires var rest := DeleteTypes(store, faults, types[t..], prefix);
             whole == Run(rest.store, rest.faults, issued + rest.issued, rest.err)
    ensures first.err.Some? ==> whole == Run(first.store, first.faults, issued + first.issued, first.err)
    ensures first.err.None? ==>
            var rest := DeleteTypes(first.store, first.faults, types[t + 1..], prefix);
            whole == Run(rest.store, rest.faults, (issued + first.issued) + rest.issued, rest.err)
  {
    assert types[t..][0] == types[t] && types[t..][1..] == types[t + 1..];
    DeleteTypesStep(store, faults, types[t..], prefix);
    var rest := DeleteTypes(first.store, first.faults, types[t + 1..], prefix);
    AppendAssoc(issued, first.issued, rest.issued);
  }

  lemma PlanStep(store: Store, types: seq<string>, prefix: string)
    requires types != [] && Plural(types[0]) in store
    ensures Plan(store, types, prefix)
              == Calls(types[0], KeepPrefixed(store[Plural(types[0])], prefix)) + Plan(store, types[1..], prefix)
  {
  }

  // ---------------------------------------------------------------------------------------------
  // Which calls are issued, and in which order

  lemma {:induction false} DeleteEachFollowsCalls(store: Store, faults: seq<Option<Error>>, objType: string, rs: seq<Resource>)
    ensures var run := DeleteEach(store, faults, objType, rs);
      && run.issued <= Calls(objType, rs)
      && (run.err.None? ==> run.issued == Calls(objType, rs))
      && (run.err.Some? ==> run.issued != [])
      && run.faults == Drop(faults, |run.issued|)
    decreases |rs|
  {
    if rs != [] {
      var e := DeleteError(store, faults, objType, rs[0].id);
      var next := AfterDelete(store, faults, objType, rs[0].id);
      DeleteEachFollowsCalls(next, Advance(faults), objType, rs[1..]);
      DropAdvance(faults, 0);
      if e.None? {
        var rest := DeleteEach(next, Advance(faults), objType, rs[1..]);
        DropAdvance(faults, |rest.issued|);
        assert Calls(objType, rs) == [NeutronDelete(objType, rs[0].id)] + Calls(objType, rs[1..]);
      }
    }
  }

  lemma {:induction false} DeleteEachTouchesOne(store: Store, faults: seq<Option<Error>>, objType: string, rs: seq<Resource>)
    ensures var run := DeleteEach(store, faults, objType, rs);
      && run.store.Keys == store.Keys
      && (forall k :: k in store && k != Plural(objType) ==> run.store[k] == store[k])
    decreases |rs|
  {
    if rs != [] {
      DeleteEachTouchesOne(AfterDelete(store, faults, objType, rs[0].id), Advance(faults), objType, rs[1..]);
    }
  }

  lemma {:induction false} PlanAgrees(store: Store, other: Store, types: seq<string>, prefix: string)
    requires forall t :: t in types ==> (Plural(t) in store <==> Plural(t) in other)
    requires forall t :: t in types && Plural(t) in store ==> store[Plural(t)] == other[Plural(t)]
    ensures Plan(store, types, prefix) == Plan(other, types, prefix)
    decreases |types|
  {
    if types != [] {
      assert types[0] in types;
      assert forall t :: t in types[1..] ==> t in types;
      PlanAgrees(store, other, types[1..], prefix);
    }
  }

  /** Two runs in a row, each following its part of the plan, follow the whole plan. */
  lemma FollowsPlanJoin(faults: seq<Option<Error>>, first: Run, rest: Run, restPlan: seq<Call>)
    requires first.faults == Drop(faults, |first.issued|)
    requires rest.issued <= restPlan && (rest.err.None? ==> rest.issued == restPlan)
    requires rest.faults == Drop(first.faults, |rest.issued|)
    ensures first.issued + rest.issued <= first.issued + restPlan
    ensures rest.err.None? ==> first.issued + rest.issued == first.issued + restPlan
    ensures rest.faults == Drop(faults, |first.issued + rest.issued|)
  {
    DropDrop(faults, |first.issued|, |rest.issued|);
  }

  lemma {:induction false} DeleteTypesFollowsPlan(store: Store, faults: seq<Option<Error>>, types: seq<string>, prefix: string)
    requires Distinct(types)
    ensures var run := DeleteTypes(store, faults, types, prefix);
      && run.issued <= Plan(store, types, prefix)
      && (run.err.None? ==> run.issued == Plan(store, types, prefix))
      && (run.err.Some? && Listable(store, types) ==> run.issued != [])
      && run.faults == Drop(faults, |run.issued|)
    decreases |types|
  {
    if types != [] {
      var t := types[0];
      assert t in types;
      if Plural(t) in store {
        DeleteTypesStep(store, faults, types, prefix);
        PlanStep(store, types, prefix);
        var rs := KeepPrefixed(store[Plural(t)], prefix);
        var first := DeleteEach(store, faults, t, rs);
        DeleteEachFollowsCalls(store, faults, t, rs);
        if first.err.None? {
          DistinctTail(types);
          DeleteEachTouchesOne(store, faults, t, rs);
          DeleteTypesFollowsPlan(first.store, first.faults, types[1..], prefix);
          var rest := DeleteTypes(first.store, first.faults, types[1..], prefix);
          PlanAgrees(first.store, store, types[1..], prefix);
          FollowsPlanJoin(faults, first, rest, Plan(store, types[1..], prefix));
          assert Listable(store, types) ==> Listable(first.store, types[1..]);
        }
      }
    }
  }

  lemma {:induction false} DeleteTypesKeepsOthers(store: Store, faults: seq<Option<Error>>, types: seq<string>, prefix: string)
    ensures var run := DeleteTypes(store, faults, types, prefix);
      && run.store.Keys == store.Keys
      && (forall k :: k in store && k !in Plurals(types) ==> run.store[k] == store[k])
    decreases |types|
  {
    if types != [] && Plural(types[0]) in store {
      var t := types[0];
      DeleteTypesStep(store, faults, types, prefix);
      var rs := KeepPrefixed(store[Plural(t)], prefix);
      var first := DeleteEach(store, faults, t, rs);
      DeleteEachTouchesOne(store, faults, t, rs);
      if first.err.None? {
        DeleteTypesKeepsOthers(first.store, first.faults, types[1..], prefix);
        assert t in types;
        assert forall u :: u in types[1..] ==> u in types;
      }
    }
  }

  // ---------------------------------------------------------------------------------------------
  // Nothing but prefixed records is deleted

  lemma ExceptUnique(rs: seq<Resource>, gone: set<nat>)
    requires UniqueIds(rs)
    ensures UniqueIds(Except(rs, gone))
  {
    WhereUnique(rs, (r: Resource) => r.id !in gone);
  }

  lemma ShrunkRefl(store: Store, prefix: string)
    requires AllUnique(store)
    ensures Shrunk(store, store, prefix)
  {
  }

  lemma DeleteOneShrinks(store0: Store, store: Store, objType: string, r0: Resource, prefix: string)
    requires AllUnique(store0) && Shrunk(store0, store, prefix)
    requires Plural(objType) in store0 && r0 in store0[Plural(objType)] && StartsWith(r0.name, prefix)
    ensures Shrunk(store0, store[Plural(objType) := Except(store[Plural(objType)], {r0.id})], prefix)
  {
    var p := Plural(objType);
    var kept := Except(store[p], {r0.id});
    var next := store[p := kept];
    assert forall r :: r in kept <==> r in store[p] && r.id != r0.id;
    assert next.Keys == store0.Keys;
    assert AllUnique(next) by {
      ExceptUnique(store[p], {r0.id});
    }
    assert forall k, r :: k in store0 && r in next[k] ==> r in store0[k];
    ExceptKeepsUnprefixed(store0[p], store[p], r0, prefix);
  }

  /** Deleting a prefixed record by id keeps every unprefixed record of the original listing. */
  lemma ExceptKeepsUnprefixed(rs0: seq<Resource>, rs: seq<Resource>, r0: Resource, prefix: string)
    requires UniqueIds(rs0) && r0 in rs0 && StartsWith(r0.name, prefix)
    requires forall r :: r in rs0 && !StartsWith(r.name, prefix) ==> r in rs
    ensures forall r :: r in rs0 && !StartsWith(r.name, prefix) ==> r in Except(rs, {r0.id})
  {
    IdDeterminesRecord(rs0, r0);
  }

  lemma {:induction false} DeleteEachShrinks(store0: Store, store: Store, faults: seq<Option<Error>>,
                                             objType: string, rs: seq<Resource>, prefix: string)
    requires AllUnique(store0) && Shrunk(store0, store, prefix)
    requires forall r :: r in rs ==> Plural(objType) in store0 && r in store0[Plural(objType)] && StartsWith(r.name, prefix)
    ensures Shrunk(store0, DeleteEach(store, faults, objType, rs).store, prefix)
    decreases |rs|
  {
    if rs != [] {
      assert rs[0] in rs;
      var next := AfterDelete(store, faults, objType, rs[0].id);
      if DeleteError(store, faults, objType, rs[0].id).None? {
        DeleteOneShrinks(store0, store, objType, rs[0], prefix);
      }
      assert forall r :: r in rs[1..] ==> r in rs;
      DeleteEachShrinks(store0, next, Advance(faults), objType, rs[1..], prefix);
    }
  }

  lemma {:induction false} DeleteTypesShrinks(store0: Store, store: Store, faults: seq<Option<Error>>,
                                              types: seq<string>, prefix: string)
    requires AllUnique(store0) && Shrunk(store0, store, prefix)
    ensures Shrunk(store0, DeleteTypes(store, faults, types, prefix).store, prefix)
    decreases |types|
  {
    if types != [] && Plural(types[0]) in store {
      var t := types[0];
      DeleteTypesStep(store, faults, types, prefix);
      var rs := KeepPrefixed(store[Plural(t)], prefix);
      DeleteEachShrinks(store0, store, faults, t, rs, prefix);
      var first := DeleteEach(store, faults, t, rs);
      if first.err.None? {
        DeleteTypesShrinks(store0, first.store, first.faults, types[1..], prefix);
      }
    }
  }

  // ---------------------------------------------------------------------------------------------
  // Without failures, every prefixed record goes

  lemma {:induction false} DeleteEachClean(store: Store, faults: seq<Option<Error>>, objType: string, rs: seq<Resource>)
    requires Plural(objType) in store
    requires UniqueIds(rs) && Ids(rs) <= Ids(store[Plural(objType)])
    requires Quiet(faults, |rs|)
    ensures var run := DeleteEach(store, faults, objType, rs);
      run.err.None? && run.store == store[Plural(objType) := Except(store[Plural(objType)], Ids(rs))]
    decreases |rs|
  {
    var p := Plural(objType);
    if rs == [] {
      WhereKeepsAll(store[p], (r: Resource) => r.id !in Ids(rs));
      assert store[p := store[p]] == store;
    } else {
      var id := rs[0].id;
      assert id in Ids(rs);
      assert NextFault(faults).None? by { assert Quiet(faults, |rs|); }
      var next := AfterDelete(store, faults, objType, id);
      HasIdIff(store[p], id);
      assert next == store[p := Except(store[p], {id})];
      IdsSplit(rs);
      forall i | i in Ids(rs[1..])
        ensures i in Ids(next[p])
      {
        var r :| r in store[p] && r.id == i;
        assert i != id;
        assert r in Except(store[p], {id});
      }
      QuietAdvance(faults, |rs| - 1);
      DeleteEachClean(next, Advance(faults), objType, rs[1..]);
      ExceptTwice(store[p], {id}, Ids(rs[1..]));
    }
  }

  lemma CleanedStep(store: Store, types: seq<string>, prefix: string)
    requires types != [] && Plural(types[0]) in store
    requires Plurals(types) == {Plural(types[0])} + Plurals(types[1..]) && Plural(types[0]) !in Plurals(types[1..])
    ensures var p := Plural(types[0]);
            Cleaned(store[p := Unprefixed(store[p], prefix)], types[1..], prefix) == Cleaned(store, types, prefix)
  {
  }

  lemma {:induction false} DeleteTypesClean(store: Store, faults: seq<Option<Error>>, types: seq<string>, prefix: string)
    requires Distinct(types) && Listable(store, types) && AllUnique(store)
    requires Quiet(faults, |Plan(store, types, prefix)|)
    ensures var run := DeleteTypes(store, faults, types, prefix);
      run.err.None? && run.store == Cleaned(store, types, prefix)
    decreases |types|
  {
    if types == [] {
      assert Cleaned(store, types, prefix) == store;
    } else {
      var t := types[0];
      var p := Plural(t);
      assert t in types;
      DeleteTypesStep(store, faults, types, prefix);
      PlanStep(store, types, prefix);
      var rs := KeepPrefixed(store[p], prefix);
      WhereUnique(store[p], (r: Resource) => StartsWith(r.name, prefix));
      DeleteEachClean(store, faults, t, rs);
      ExceptPrefixed(store[p], prefix);
      var first := DeleteEach(store, faults, t, rs);
      assert first.store == store[p := Unprefixed(store[p], prefix)];
      DeleteEachFollowsCalls(store, faults, t, rs);
      DistinctTail(types);
      WhereUnique(store[p], (r: Resource) => !StartsWith(r.name, prefix));
      assert AllUnique(first.store);
      assert Listable(first.store, types[1..]);
      PlanAgrees(first.store, store, types[1..], prefix);
      QuietDrop(faults, |rs|, |Plan(store, types[1..], prefix)|);
      DeleteTypesClean(first.store, first.faults, types[1..], prefix);
      CleanedStep(store, types, prefix);
    }
  }

  // ---------------------------------------------------------------------------------------------
  // A failure at the first call ends the run at once

  lemma {:induction false} DeleteTypesFirstFault(store: Store, faults: seq<Option<Error>>, types: seq<string>, prefix: string)
    requires Listable(store, types) && Plan(store, types, prefix) != []
    requires NextFault(faults).Some?
    ensures DeleteTypes(store, faults, types, prefix)
              == Run(store, Advance(faults), [Plan(store, types, prefix)[0]], NextFault(faults))
    decreases |types|
  {
    var t := types[0];
    assert t in types;
    ListPrefixedExact(store, t, prefix);
    var rs := KeepPrefixed(store[Plural(t)], prefix);
    if rs == [] {
      assert forall u :: u in types[1..] ==> u in types;
      DeleteTypesFirstFault(store, faults, types[1..], prefix);
    }
  }

  // ---------------------------------------------------------------------------------------------
  // A failure at any call ends the run there, after every earlier call went through

  /** The store after a network delete request has gone through. */
  function ApplyCall(store: Store, c: Call): Store {
    match c
    case NeutronDelete(t, id) =>
      if Plural(t) in store then store[Plural(t) := Except(store[Plural(t)], {id})] else store
    case NovaDelete(_) => store
  }

  /** The store after each of the calls, in order, has gone through. */
  function Applied(store: Store, calls: seq<Call>): Store
    decreases |calls|
  {
    if calls == [] then store else Applied(ApplyCall(store, calls[0]), calls[1..])
  }

  lemma {:induction false} AppliedJoin(store: Store, a: seq<Call>, b: seq<Call>)
    ensures Applied(store, a + b) == Applied(Applied(store, a), b)
    decreases |a|
  {
    if a != [] {
      assert (a + b)[1..] == a[1..] + b;
      AppliedJoin(ApplyCall(store, a[0]), a[1..], b);
    } else {
      assert a + b == b;
    }
  }

  /** Applying one type's delete calls removes exactly those records' ids from that type and changes nothing else. */
  lemma {:induction false} AppliedCalls(store: Store, objType: string, rs: seq<Resource>)
    requires Plural(objType) in store
    ensures Applied(store, Calls(objType, rs)) == store[Plural(objType) := Except(store[Plural(objType)], Ids(rs))]
    decreases |rs|
  {
    var p := Plural(objType);
    if rs == [] {
      assert Ids(rs) == {};
      ExceptNone(store[p]);
      assert store[p := store[p]] == store;
    } else {
      var next := ApplyCall(store, NeutronDelete(objType, rs[0].id));
      assert Calls(objType, rs)[1..] == Calls(objType, rs[1..]);
      AppliedCalls(next, objType, rs[1..]);
      ExceptTwice(store[p], {rs[0].id}, Ids(rs[1..]));
      IdsSplit(rs);
    }
  }

  /** The first listed record of a type goes through when nothing is scripted to fail. */
  lemma DeleteFirstGoesThrough(store: Store, faults: seq<Option<Error>>, objType: string, rs: seq<Resource>)
    requires Plural(objType) in store && rs != []
    requires UniqueIds(rs) && Ids(rs) <= Ids(store[Plural(objType)])
    requires NextFault(faults).None?
    ensures DeleteError(store, faults, objType, rs[0].id).None?
    ensures var next := AfterDelete(store, faults, objType, rs[0].id);
      && next == ApplyCall(store, NeutronDelete(objType, rs[0].id))
      && Plural(objType) in next
      && UniqueIds(rs[1..]) && Ids(rs[1..]) <= Ids(next[Plural(objType)])
  {
    var p, id := Plural(objType), rs[0].id;
    assert id in Ids(rs);
    HasIdIff(store[p], id);
    var next := AfterDelete(store, faults, objType, id);
    IdsSplit(rs);
    forall i | i in Ids(rs[1..])
      ensures i in Ids(next[p])
    {
      var r :| r in store[p] && r.id == i;
      assert r in Except(store[p], {id});
    }
  }

  /**
   * A run of the inner loop whose calls go through until the n-th fails: it issues the first n + 1
   * deletes and stops, raising the n-th call's error, with exactly the first n records gone.
   */
  lemma {:induction false} DeleteEachStopsAt(store: Store, faults: seq<Option<Error>>, objType: string,
                                             rs: seq<Resource>, n: nat)
    requires Plural(objType) in store
    requires UniqueIds(rs) && Ids(rs) <= Ids(store[Plural(objType)])
    requires n < |rs| && n < |faults| && Quiet(faults, n) && faults[n].Some?
    ensures var run := DeleteEach(store, faults, objType, rs);
      && run.issued == Calls(objType, rs)[..n + 1]
      && run.err == faults[n]
      && run.faults == Drop(faults, n + 1)
      && run.store == Applied(store, Calls(objType, rs)[..n])
    decreases n
  {
    var call := NeutronDelete(objType, rs[0].id);
    assert Calls(objType, rs) == [call] + Calls(objType, rs[1..]);
    if n == 0 {
      assert NextFault(faults) == faults[0];
    } else {
      assert NextFault(faults).None? by { assert faults[0].None?; }
      DeleteFirstGoesThrough(store, faults, objType, rs);
      var next := AfterDelete(store, faults, objType, rs[0].id);
      QuietAdvance(faults, n - 1);
      assert Advance(faults)[n - 1] == faults[n];
      DeleteEachStopsAt(next, Advance(faults), objType, rs[1..], n - 1);
      DropAdvance(faults, n);
      assert Calls(objType, rs)[..n + 1] == [call] + Calls(objType, rs[1..])[..n];
      assert Calls(objType, rs)[..n] == [call] + Calls(objType, rs[1..])[..n - 1];
    }
  }

  /** The calls for the first n records are the first n calls. */
  lemma {:induction false} CallsPrefix(objType: string, rs: seq<Resource>, n: nat)
    requires n <= |rs|
    ensures Calls(objType, rs)[..n] == Calls(objType, rs[..n])
    decreases n
  {
    if n > 0 {
      CallsPrefix(objType, rs[1..], n - 1);
      assert rs[..n][1..] == rs[1..][..n - 1];
    }
  }

  /** Stopped at the n-th delete, the inner loop has removed exactly the first n listed records. */
  lemma DeleteEachStopsRemoving(store: Store, faults: seq<Option<Error>>, objType: string, rs: seq<Resource>, n: nat)
    requires Plural(objType) in store
    requires UniqueIds(rs) && Ids(rs) <= Ids(store[Plural(objType)])
    requires n < |rs| && n < |faults| && Quiet(faults, n) && faults[n].Some?
    ensures DeleteEach(store, faults, objType, rs).store
              == store[Plural(objType) := Except(store[Plural(objType)], Ids(rs[..n]))]
  {
    DeleteEachStopsAt(store, faults, objType, rs, n);
    CallsPrefix(objType, rs, n);
    AppliedCalls(store, objType, rs[..n]);
  }

  /** A run of the inner loop in which no call fails leaves the store with every call applied. */
  lemma {:induction false} DeleteEachApplies(store: Store, faults: seq<Option<Error>>, objType: string, rs: seq<Resource>)
    requires Plural(objType) in store
    requires UniqueIds(rs) && Ids(rs) <= Ids(store[Plural(objType)])
    requires Quiet(faults, |rs|)
    ensures DeleteEach(store, faults, objType, rs).store == Applied(store, Calls(objType, rs))
    decreases |rs|
  {
    if rs != [] {
      var call := NeutronDelete(objType, rs[0].id);
      assert Calls(objType, rs) == [call] + Calls(objType, rs[1..]);
      assert NextFault(faults).None? by { assert Quiet(faults, |rs|); }
      DeleteFirstGoesThrough(store, faults, objType, rs);
      QuietAdvance(faults, |rs| - 1);
      DeleteEachApplies(AfterDelete(store, faults, objType, rs[0].id), Advance(faults), objType, rs[1..]);
    }
  }

  /**
   * A run of the outer loop whose calls go through until the n-th planned one fails: it issues the
   * first n + 1 planned deletes and stops, raising that call's error, with the first n applied.
   */
  lemma {:induction false} DeleteTypesStopsAt(store: Store, faults: seq<Option<Error>>, types: seq<string>,
                                              prefix: string, n: nat)
    requires Distinct(types) && Listable(store, types) && AllUnique(store)
    requires n < |Plan(store, types, prefix)| && n < |faults| && Quiet(faults, n) && faults[n].Some?
    ensures var run := DeleteTypes(store, faults, types, prefix);
      && run.issued == Plan(store, types, prefix)[..n + 1]
      && run.err == faults[n]
      && run.faults == Drop(faults, n + 1)
      && run.store == Applied(store, Plan(store, types, prefix)[..n])
    decreases |types|
  {
    assert types[0] in types;
    if n < |KeepPrefixed(store[Plural(types[0])], prefix)| {
      StopsInFirstType(store, faults, types, prefix, n);
    } else {
      var later, rest, m := LaterTypeStep(store, faults, types, prefix, n);
      DeleteTypesStopsAt(later, rest, types[1..], prefix, m);
    }
  }

  /**
   * When the failing call belongs to a later type, the first type's deletes all go through, and
   * the outer loop stops where the run over the remaining types, from the store and script they
   * leave, stops.
   */
  lemma LaterTypeStep(store: Store, faults: seq<Option<Error>>, types: seq<string>, prefix: string, n: nat)
      returns (later: Store, rest: seq<Option<Error>>, m: nat)
    requires Distinct(types) && Listable(store, types) && AllUnique(store) && types != []
    requires Plural(types[0]) in store && |KeepPrefixed(store[Plural(types[0])], prefix)| <= n
    requires n < |Plan(store, types, prefix)| && n < |faults| && Quiet(faults, n) && faults[n].Some?
    ensures Distinct(types[1..]) && Listable(later, types[1..]) && AllUnique(later)
    ensures m < |Plan(later, types[1..], prefix)| && m < |rest| && Quiet(rest, m) && rest[m].Some?
    ensures var tail := DeleteTypes(later, rest, types[1..], prefix);
            && tail.issued == Plan(later, types[1..], prefix)[..m + 1]
            && tail.err == rest[m]
            && tail.faults == Drop(rest, m + 1)
            && tail.store == Applied(later, Plan(later, types[1..], prefix)[..m])
            ==>
            var run := DeleteTypes(store, faults, types, prefix);
            && run.issued == Plan(store, types, prefix)[..n + 1]
            && run.err == faults[n]
            && run.faults == Drop(faults, n + 1)
            && run.store == Applied(store, Plan(store, types, prefix)[..n])
  {
    var first, calls, plan := FirstTypeGoesThrough(store, faults, types, prefix);
    var k := |calls|;
    ShiftFault(faults, k, n);
    later, rest, m := first.store, first.faults, n - k;
    var tail := DeleteTypes(later, rest, types[1..], prefix);
    if && tail.issued == Plan(later, types[1..], prefix)[..m + 1]
       && tail.err == rest[m]
       && tail.faults == Drop(rest, m + 1)
       && tail.store == Applied(later, Plan(later, types[1..], prefix)[..m])
    {
      JoinStopped(store, faults, DeleteTypes(store, faults, types, prefix), calls, plan, n, later, rest, m, tail);
    }
  }

  /** The script seen after k calls: the n-th fault of the whole script is its (n - k)-th. */
  lemma ShiftFault(faults: seq<Option<Error>>, k: nat, n: nat)
    requires k <= n < |faults| && Quiet(faults, n) && faults[n].Some?
    ensures Quiet(Drop(faults, k), n - k) && n - k < |Drop(faults, k)| && Drop(faults, k)[n - k] == faults[n]
  {
    QuietDrop(faults, k, n - k);
    DropAt(faults, k, n - k);
  }

  /**
   * A run whose first calls all went through, leaving mid and midFaults, followed by a run from
   * there that stopped at its m-th call, stopped at the (|calls| + m)-th call of the whole plan.
   */
  lemma JoinStopped(store: Store, faults: seq<Option<Error>>, whole: Run, calls: seq<Call>, plan: seq<Call>,
                    n: nat, mid: Store, midFaults: seq<Option<Error>>, m: nat, tail: Run)
    requires whole == Run(tail.store, tail.faults, calls + tail.issued, tail.err)
    requires n == |calls| + m && m < |plan|
    requires midFaults == Drop(faults, |calls|) && mid == Applied(store, calls)
    requires tail.issued == plan[..m + 1] && tail.faults == Drop(midFaults, m + 1)
    requires tail.store == Applied(mid, plan[..m])
    ensures whole.issued == (calls + plan)[..n + 1] && whole.err == tail.err
    ensures whole.faults == Drop(faults, n + 1)
    ensures whole.store == Applied(store, (calls + plan)[..n])
  {
    DropDrop(faults, |calls|, m + 1);
    PrefixOfJoin(calls, plan, n + 1);
    PrefixOfJoin(calls, plan, n);
    AppliedJoin(store, calls, plan[..m]);
  }

  /** The failing call is one of the first type's deletes. */
  lemma StopsInFirstType(store: Store, faults: seq<Option<Error>>, types: seq<string>, prefix: string, n: nat)
    requires types != [] && Plural(types[0]) in store && AllUnique(store)
    requires n < |KeepPrefixed(store[Plural(types[0])], prefix)|
    requires n < |faults| && Quiet(faults, n) && faults[n].Some?
    ensures var run := DeleteTypes(store, faults, types, prefix);
      && run.issued == Plan(store, types, prefix)[..n + 1]
      && run.err == faults[n]
      && run.faults == Drop(faults, n + 1)
      && run.store == Applied(store, Plan(store, types, prefix)[..n])
  {
    var t := types[0];
    var p := Plural(t);
    DeleteTypesStep(store, faults, types, prefix);
    PlanStep(store, types, prefix);
    var rs := KeepPrefixed(store[p], prefix);
    var calls, later := Calls(t, rs), Plan(store, types[1..], prefix);
    WhereUnique(store[p], (r: Resource) => StartsWith(r.name, prefix));
    DeleteEachStopsAt(store, faults, t, rs, n);
    assert (calls + later)[..n + 1] == calls[..n + 1];
    assert (calls + later)[..n] == calls[..n];
  }

  /**
   * When none of the first type's deletes fails, they all go through, and the run of the outer
   * loop is theirs followed by the run of the remaining types, whose plan is unchanged.
   */
  lemma FirstTypeGoesThrough(store: Store, faults: seq<Option<Error>>, types: seq<string>, prefix: string)
      returns (first: Run, calls: seq<Call>, later: seq<Call>)
    requires Distinct(types) && Listable(store, types) && AllUnique(store) && types != []
    requires Quiet(faults, |KeepPrefixed(store[Plural(types[0])], prefix)|)
    ensures |calls| == |KeepPrefixed(store[Plural(types[0])], prefix)|
    ensures first.err.None? && first.issued == calls && first.faults == Drop(faults, |calls|)
    ensures first.store == Applied(store, calls)
    ensures Distinct(types[1..]) && Listable(first.store, types[1..]) && AllUnique(first.store)
    ensures Plan(first.store, types[1..], prefix) == later && Plan(store, types, prefix) == calls + later
    ensures var rest := DeleteTypes(first.store, first.faults, types[1..], prefix);
            DeleteTypes(store, faults, types, prefix) == Run(rest.store, rest.faults, first.issued + rest.issued, rest.err)
  {
    var t := types[0];
    var p := Plural(t);
    assert t in types;
    DeleteTypesStep(store, faults, types, prefix);
    PlanStep(store, types, prefix);
    var rs := KeepPrefixed(store[p], prefix);
    WhereUnique(store[p], (r: Resource) => StartsWith(r.name, prefix));
    DeleteEachClean(store, faults, t, rs);
    DeleteEachApplies(store, faults, t, rs);
    DeleteEachFollowsCalls(store, faults, t, rs);
    first := DeleteEach(store, faults, t, rs);
    calls, later := Calls(t, rs), Plan(store, types[1..], prefix);
    DistinctTail(types);
    ExceptUnique(store[p], Ids(rs));
    assert AllUnique(first.store);
    assert Listable(first.store, types[1..]);
    PlanAgrees(first.store, store, types[1..], prefix);
  }


  // ---------------------------------------------------------------------------------------------
  // cosmo_delete_prefixed

  /** The plan of cosmo_delete_prefixed: ports, then routers, then networks, then subnets. */
  lemma CleanupPlanOrder(store: Store, prefix: string)
    ensures Plan(store, CleanupOrder, prefix)
              == TypeCalls(store, "port", prefix) + TypeCalls(store, "router", prefix)
               + TypeCalls(store, "network", prefix) + TypeCalls(store, "subnet", prefix)
  {
    PlanOfFour(store, CleanupOrder, prefix);
  }

  /** The plan of four types is their four call lists, in order. */
  lemma PlanOfFour(store: Store, types: seq<string>, prefix: string)
    requires |types| == 4
    ensures Plan(store, types, prefix)
              == TypeCalls(store, types[0], prefix) + TypeCalls(store, types[1], prefix)
               + TypeCalls(store, types[2], prefix) + TypeCalls(store, types[3], prefix)
  {
    var a, b, c, d := TypeCalls(store, types[0], prefix), TypeCalls(store, types[1], prefix),
                      TypeCalls(store, types[2], prefix), TypeCalls(store, types[3], prefix);
    var t3 := types[3..];
    assert t3[1..] == [];
    assert Plan(store, t3, prefix) == d + [] == d;
    assert types[2..][1..] == t3;
    assert Plan(store, types[2..], prefix) == c + d;
    assert types[1..][1..] == types[2..];
    assert Plan(store, types[1..], prefix) == b + (c + d);
    AppendAssoc(b, c, d);
    AppendAssoc(a, b + c, d);
    AppendAssoc(a, b, c);
  }

  lemma CleanupOrderDistinct()
    ensures Distinct(CleanupOrder)
  {
  }

  /**
   * cosmo_delete_prefixed issues a prefix of its plan (ports, routers, networks, subnets, each in
   * listing order), the whole plan when nothing fails, and consumes one script entry per call.
   */
  lemma DeletePrefixedOrder(store: Store, faults: seq<Option<Error>>, prefix: string)
    ensures var run := DeletePrefixedRun(store, faults, prefix);
      && run.issued <= Plan(store, CleanupOrder, prefix)
      && (run.err.None? ==> run.issued == Plan(store, CleanupOrder, prefix))
      && (run.err.Some? && Listable(store, CleanupOrder) ==> run.issued != [])
      && run.faults == Drop(faults, |run.issued|)
  {
    CleanupOrderDistinct();
    DeleteTypesFollowsPlan(store, faults, CleanupOrder, prefix);
  }

  /**
   * When the script lets the first n planned deletes through and fails the n-th, cosmo_delete_prefixed
   * issues exactly the first n + 1 planned deletes, raises that call's error, and leaves the store
   * with the first n applied.
   */
  lemma DeletePrefixedStopsAt(store: Store, faults: seq<Option<Error>>, prefix: string, n: nat)
    requires Listable(store, CleanupOrder) && AllUnique(store)
    requires n < |Plan(store, CleanupOrder, prefix)| && n < |faults| && Quiet(faults, n) && faults[n].Some?
    ensures var run := DeletePrefixedRun(store, faults, prefix);
      && run.issued == Plan(store, CleanupOrder, prefix)[..n + 1]
      && run.err == faults[n]
      && run.faults == Drop(faults, n + 1)
      && run.store == Applied(store, Plan(store, CleanupOrder, prefix)[..n])
  {
    CleanupOrderDistinct();
    DeleteTypesStopsAt(store, faults, CleanupOrder, prefix, n);
  }

  /**
   * Whatever fails, cosmo_delete_prefixed deletes only prefixed records: it adds none, keeps every
   * record without the prefix, and leaves every type other than the four untouched.
   */
  lemma DeletePrefixedSafe(store: Store, faults: seq<Option<Error>>, prefix: string)
    requires AllUnique(store)
    ensures var run := DeletePrefixedRun(store, faults, prefix);
      && run.store.Keys == store.Keys
      && (forall k, r :: k in store && r in run.store[k] ==> r in store[k])
      && (forall k, r :: k in store && r in store[k] && !StartsWith(r.name, prefix) ==> r in run.store[k])
      && (forall k :: k in store && k !in Plurals(CleanupOrder) ==> run.store[k] == store[k])
      && AllUnique(run.store)
  {
    DeleteTypesKeepsOthers(store, faults, CleanupOrder, prefix);
    ShrunkRefl(store, prefix);
    DeleteTypesShrinks(store, store, faults, CleanupOrder, prefix);
  }

  /** When none of its calls fails, cosmo_delete_prefixed leaves no prefixed port, router, network or subnet. */
  lemma DeletePrefixedClean(store: Store, faults: seq<Option<Error>>, prefix: string)
    requires Listable(store, CleanupOrder) && AllUnique(store)
    requires Quiet(faults, |Plan(store, CleanupOrder, prefix)|)
    ensures var run := DeletePrefixedRun(store, faults, prefix);
      && run.err.None?
      && run.store == Cleaned(store, CleanupOrder, prefix)
      && (forall t, r :: t in CleanupOrder && r in run.store[Plural(t)] ==> !StartsWith(r.name, prefix))
  {
    CleanupOrderDistinct();
    DeleteTypesClean(store, faults, CleanupOrder, prefix);
    forall t, r | t in CleanupOrder && r in Cleaned(store, CleanupOrder, prefix)[Plural(t)]
      ensures !StartsWith(r.name, prefix)
    {
      assert Plural(t) in Plurals(CleanupOrder);
    }
  }

  /** A failure scripted for the very first delete ends cosmo_delete_prefixed after that one call, deleting nothing. */
  lemma DeletePrefixedFirstFault(store: Store, faults: seq<Option<Error>>, prefix: string)
    requires Listable(store, CleanupOrder) && Plan(store, CleanupOrder, prefix) != []
    requires NextFault(faults).Some?
    ensures DeletePrefixedRun(store, faults, prefix)
              == Run(store, Advance(faults), [Plan(store, CleanupOrder, prefix)[0]], NextFault(faults))
  {
    DeleteTypesFirstFault(store, faults, CleanupOrder, prefix);
  }
}
