/**
 * An in-memory cloud standing in for the network and compute services, with the calls the core
 * makes on it, and cosmo_delete_prefixed as NeutronClientWithSugar runs it against that cloud.
 */
module CloudDouble {
  import opened Types
  import opened Sugar
  import opened Neutron
  import opened Nova

  class Cloud {
    var store: Store                       // network records, keyed by plural type
    var faults: seq<Option<Error>>         // scripted outcomes of the next network delete calls
    var servers: seq<Resource>             // compute instances
    var serverFaults: seq<Option<Error>>   // scripted outcomes of the next server delete calls
    var calls: seq<Call>                   // every delete request the cloud received, in order
    var nextId: nat                        // the id the next created record gets

    /** Ids are unique per type and below the next id to hand out. */
    ghost predicate Valid()
      reads this
    {
      && AllUnique(store)
      && UniqueIds(servers)
      && (forall k, r :: k in store && r in store[k] ==> r.id < nextId)
      && (forall r :: r in servers ==> r.id < nextId)
    }

    constructor (store: Store, servers: seq<Resource>, faults: seq<Option<Error>>,
                 serverFaults: seq<Option<Error>>, nextId: nat)
      ensures this.store == store && this.servers == servers && this.faults == faults
      ensures this.serverFaults == serverFaults && this.nextId == nextId && calls == []
    {
      this.store := store;
      this.servers := servers;
      this.faults := faults;
      this.serverFaults := serverFaults;
      this.nextId := nextId;
      calls := [];
    }

    /** delete_<objType>(id) on the network service. */
    method Delete(objType: string, id: nat) returns (err: Option<Error>)
      requires Valid()
      modifies this
      ensures Valid()
      ensures err == DeleteError(old(store), old(faults), objType, id)
      ensures store == AfterDelete(old(store), old(faults), objType, id)
      ensures faults == Advance(old(faults))
      ensures calls == old(calls) + [NeutronDelete(objType, id)]
      ensures servers == old(servers) && serverFaults == old(serverFaults) && nextId == old(nextId)
    {
      calls := calls + [NeutronDelete(objType, id)];
      var plural := Plural(objType);
      if NextFault(faults).Some? {
        err := NextFault(faults);
      } else if plural in store && HasId(store[plural], id) {
        ExceptUnique(store[plural], {id});
        store := store[plural := Except(store[plural], {id})];
        err := None;
      } else {
        err := Some(NotFound);
      }
      faults := Advance(faults);
    }

    /** server.delete() on the compute service. */
    method DeleteServer(id: nat) returns (err: Option<Error>)
      requires Valid()
      modifies this
      ensures Valid()
      ensures err == ServerDeleteError(old(servers), old(serverFaults), id)
      ensures servers == AfterServerDelete(old(servers), old(serverFaults), id)
      ensures serverFaults == Advance(old(serverFaults))
      ensures calls == old(calls) + [NovaDelete(id)]
      ensures store == old(store) && faults == old(faults) && nextId == old(nextId)
    {
      calls := calls + [NovaDelete(id)];
      if NextFault(serverFaults).Some? {
        err := NextFault(serverFaults);
      } else if HasId(servers, id) {
        ExceptUnique(servers, {id});
        servers := Except(servers, {id});
        err := None;
      } else {
        err := Some(NotFound);
      }
      serverFaults := Advance(serverFaults);
    }

    /** create_<objType>(body) on the network service: a new record with a fresh id, the body's name and its other fields. */
    method Create(objType: string, body: map<string, Value>) returns (r: Result<Resource>)
      requires Valid()
      modifies this
      ensures Valid()
      ensures Plural(objType) !in old(store) ==>
                r == Err(MissingCall("create_" + objType)) && store == old(store) && nextId == old(nextId)
      ensures Plural(objType) in old(store) ==>
                && r == Ok(Resource(old(nextId), BodyName(body), body - {"name"}))
                && store == old(store)[Plural(objType) := old(store)[Plural(objType)] + [r.value]]
                && old(nextId) !in Ids(old(store)[Plural(objType)])
                && nextId == old(nextId) + 1
      ensures faults == old(faults) && servers == old(servers) && serverFaults == old(serverFaults)
      ensures calls == old(calls)
    {
      var plural := Plural(objType);
      if plural !in store {
        return Err(MissingCall("create_" + objType));
      }
      var created := Resource(nextId, BodyName(body), body - {"name"});
      assert nextId !in Ids(store[plural]);
      AppendUnique(store[plural], created);
      store := store[plural := store[plural] + [created]];
      nextId := nextId + 1;
      r := Ok(created);
    }

    /** The inner loop of cosmo_delete_prefixed: delete each listed record of one type; the first failure propagates. */
    method DeleteListed(objType: string, rs: seq<Resource>) returns (err: Option<Error>)
      requires Valid()
      modifies this
      ensures Valid()
      ensures var run := DeleteEach(old(store), old(faults), objType, rs);
        store == run.store && faults == run.faults && calls == old(calls) + run.issued && err == run.err
      ensures servers == old(servers) && serverFaults == old(serverFaults) && nextId == old(nextId)
    {
      ghost var whole := DeleteEach(store, faults, objType, rs);
      ghost var issued: seq<Call> := [];
      var i := 0;
      while i < |rs|
        invariant 0 <= i <= |rs|
        invariant Valid()
        invariant calls == old(calls) + issued
        invariant servers == old(servers) && serverFaults == old(serverFaults) && nextId == old(nextId)
        invariant EachRemaining(whole, issued, store, faults, objType, rs[i..])
      {
        DeleteEachAdvance(whole, issued, store, faults, objType, rs, i);
        err := Delete(objType, rs[i].id);
        AppendAssoc(old(calls), issued, [NeutronDelete(objType, rs[i].id)]);
        issued := issued + [NeutronDelete(objType, rs[i].id)];
        if err.Some? {
          return;
        }
        i := i + 1;
      }
      assert rs[i..] == [];
      DeleteEachDone(whole, issued, store, faults, objType);
      err := None;
    }

    /** One pass of the outer loop of cosmo_delete_prefixed: list the prefixed records of one type once, then delete them. */
    method DeleteTypePrefixed(objType: string, prefix: string) returns (err: Option<Error>)
      requires Valid()
      modifies this
      ensures Valid()
      ensures Plural(objType) !in old(store) ==>
                && err == Some(MissingCall("list_" + Plural(objType)))
                && store == old(store) && faults == old(faults) && calls == old(calls)
      ensures Plural(objType) in old(store) ==>
                var run := DeleteEach(old(store), old(faults), objType, KeepPrefixed(old(store)[Plural(objType)], prefix));
                store == run.store && faults == run.faults && calls == old(calls) + run.issued && err == run.err
      ensures servers == old(servers) && serverFaults == old(serverFaults) && nextId == old(nextId)
    {
      var listing := ListPrefixed(store, objType, prefix);
      if listing.Err? {
        return Some(listing.error);
      }
      ListPrefixedExact(store, objType, prefix);
      err := DeleteListed(objType, listing.value);
    }

    /** The outer loop of cosmo_delete_prefixed: each type in turn; the first failure propagates. */
    method DeleteTypesListed(types: seq<string>, prefix: string) returns (err: Option<Error>)
      requires Valid()
      modifies this
      ensures Valid()
      ensures var run := DeleteTypes(old(store), old(faults), types, prefix);
        store == run.store && faults == run.faults && calls == old(calls) + run.issued && err == run.err
      ensures servers == old(servers) && serverFaults == old(serverFaults) && nextId == old(nextId)
    {
      ghost var whole := DeleteTypes(store, faults, types, prefix);
      ghost var issued: seq<Call> := [];
      var t := 0;
      while t < |types|
        invariant 0 <= t <= |types|
        invariant Valid()
        invariant calls == old(calls) + issued
        invariant servers == old(servers) && serverFaults == old(serverFaults) && nextId == old(nextId)
        invariant var rest := DeleteTypes(store, faults, types[t..], prefix);
                  whole == Run(rest.store, rest.faults, issued + rest.issued, rest.err)
      {
        if Plural(types[t]) !in store {
          DeleteTypesMissing(whole, issued, store, faults, types, t, prefix);
          err := DeleteTypePrefixed(types[t], prefix);
          return;
        }
        ghost var first := DeleteEach(store, faults, types[t], KeepPrefixed(store[Plural(types[t])], prefix));
        DeleteTypesAdvance(whole, issued, store, faults, types, t, prefix, first);
        ghost var done := issued;
        ghost var before := calls;
        err := DeleteTypePrefixed(types[t], prefix);
        assert calls == before + first.issued;
        issued := issued + first.issued;
        AppendAssoc(old(calls), done, first.issued);
        if err.Some? {
          return;
        }
        t := t + 1;
      }
      assert types[t..] == [];
      err := None;
    }

    /** cosmo_delete_prefixed: ports, then routers, then networks, then subnets. */
    method DeletePrefixed(prefix: string) returns (err: Option<Error>)
      requires Valid()
      modifies this
      ensures Valid()
      ensures var run := DeletePrefixedRun(old(store), old(faults), prefix);
        store == run.store && faults == run.faults && calls == old(calls) + run.issued && err == run.err
      ensures servers == old(servers) && serverFaults == old(serverFaults) && nextId == old(nextId)
    {
      err := DeleteTypesListed(CleanupOrder, prefix);
    }
  }

  /** The name a create body carries, as the service stores it. */
  function BodyName(body: map<string, Value>): string {
    if "name" in body && body["name"].Str? then body["name"].s else ""
  }

  lemma AppendUnique(rs: seq<Resource>, r: Resource)
    requires UniqueIds(rs) && r.id !in Ids(rs)
    ensures UniqueIds(rs + [r]) && Ids(rs + [r]) == Ids(rs) + {r.id}
    decreases |rs|
  {
    if rs != [] {
      assert (rs + [r])[1..] == rs[1..] + [r];
      AppendUnique(rs[1..], r);
    } else {
      assert rs + [r] == [r];
    }
  }
}
