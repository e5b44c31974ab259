/**
 * The read side of NeutronClientWithSugar: pluralisation, listing with equality filters,
 * exactly-one lookup and the client-side name-prefix filter. A listing call is one round trip,
 * so each of these works on a snapshot of the store.
 */
module Sugar {
  import opened Types

  /** Python's str.startswith. */
  predicate StartsWith(s: string, prefix: string) {
    prefix <= s
  }

  /** The listing call for a type is named after the type with one "s" appended; there are no irregular plurals. */
  function Plural(objType: string): string {
    objType + "s"
  }

  /** Distinct types never share a listing call, so a store keyed by plural keeps the types apart. */
  lemma PluralInjective(a: string, b: string)
    ensures Plural(a) == Plural(b) <==> a == b
  {
    if Plural(a) == Plural(b) {
      assert a == Plural(a)[..|a|] == Plural(b)[..|b|] == b;
    }
  }

  /** The value a record holds under a filter key, if any. */
  function Field(r: Resource, key: string): Option<Value> {
    if key == "id" then Some(Int(r.id))
    else if key == "name" then Some(Str(r.name))
    else if key in r.attrs then Some(r.attrs[key])
    else None
  }

  /** A record passes a filter when it holds every filtered field with exactly the filtered value. */
  predicate Matches(r: Resource, filter: Filter) {
    forall key :: key in filter ==> Field(r, key) == Some(filter[key])
  }

  /** xs is obtained from ys by leaving records out, keeping the order of the rest. */
  predicate IsSubsequence(xs: seq<Resource>, ys: seq<Resource>)
    decreases |ys|
  {
    if xs == [] then true
    else if ys == [] then false
    else if xs[0] == ys[0] then IsSubsequence(xs[1..], ys[1..])
    else IsSubsequence(xs, ys[1..])
  }

  /** The records of rs that keep accepts, in their original order. */
  function Where(rs: seq<Resource>, keep: Resource -> bool): (kept: seq<Resource>)
    ensures forall x :: x in kept <==> x in rs && keep(x)
    ensures |kept| <= |rs|
  {
    if rs == [] then []
    else (if keep(rs[0]) then [rs[0]] else []) + Where(rs[1..], keep)
  }

  lemma {:induction false} WhereIsSubsequence(rs: seq<Resource>, keep: Resource -> bool)
    ensures IsSubsequence(Where(rs, keep), rs)
  {
    if rs != [] {
      var rest := Where(rs[1..], keep);
      WhereIsSubsequence(rs[1..], keep);
      if keep(rs[0]) {
        assert Where(rs, keep) == [rs[0]] + rest;
        assert ([rs[0]] + rest)[1..] == rest;
      } else {
        assert Where(rs, keep) == rest;
        assert rest != [] ==> rest[0] in rest && rest[0] != rs[0];
      }
    }
  }

  lemma {:induction false} WhereKeepsAll(rs: seq<Resource>, keep: Resource -> bool)
    requires forall x :: x in rs ==> keep(x)
    ensures Where(rs, keep) == rs
  {
    if rs != [] {
      assert rs[0] in rs;
      assert forall x :: x in rs[1..] ==> x in rs;
      WhereKeepsAll(rs[1..], keep);
      assert rs == [rs[0]] + rs[1..];
    }
  }

  /** The filtering a listing call does on the service side. */
  function Select(rs: seq<Resource>, filter: Filter): seq<Resource> {
    Where(rs, (r: Resource) => Matches(r, filter))
  }

  /** cosmo_list: the records list_<plural>(**filter) returns, or the error of a call that does not exist. */
  function List(store: Store, objType: string, filter: Filter): (r: Result<seq<Resource>>)
    ensures r.Ok? <==> Plural(objType) in store
    ensures r.Ok? ==> forall x :: x in r.value <==> x in store[Plural(objType)] && Matches(x, filter)
    ensures r.Err? ==> r.error == MissingCall("list_" + Plural(objType))
  {
    var plural := Plural(objType);
    if plural in store then Ok(Select(store[plural], filter)) else Err(MissingCall("list_" + plural))
  }

  /** A listing keeps the service's order and never invents records. */
  lemma ListIsSubsequence(store: Store, objType: string, filter: Filter)
    requires Plural(objType) in store
    ensures List(store, objType, filter).Ok?
    ensures IsSubsequence(List(store, objType, filter).value, store[Plural(objType)])
  {
    WhereIsSubsequence(store[Plural(objType)], (r: Resource) => Matches(r, filter));
  }

  /** Listing without filters returns the whole of that type, in order. */
  lemma ListUnfiltered(store: Store, objType: string)
    requires Plural(objType) in store
    ensures List(store, objType, map[]) == Ok(store[Plural(objType)])
  {
    WhereKeepsAll(store[Plural(objType)], (r: Resource) => Matches(r, map[]));
  }

  /** cosmo_get: the single record the filtered listing holds; any other count is an error that reports it. */
  function Get(store: Store, objType: string, filter: Filter): (r: Result<Resource>)
    ensures r.Ok? <==> Plural(objType) in store && |Select(store[Plural(objType)], filter)| == 1
    ensures r.Ok? ==> r.value in store[Plural(objType)] && Matches(r.value, filter)
    ensures Plural(objType) in store && |Select(store[Plural(objType)], filter)| != 1 ==>
              r == Err(Cardinality(objType, filter, |Select(store[Plural(objType)], filter)|))
    ensures Plural(objType) !in store ==> r == Err(MissingCall("list_" + Plural(objType)))
  {
    match List(store, objType, filter)
    case Err(e) => Err(e)
    case Ok(ls) =>
      if |ls| != 1 then Err(Cardinality(objType, filter, |ls|))
      else assert ls[0] in ls; Ok(ls[0])
  }

  /** The record cosmo_get returns is the only matching one. */
  lemma GetIsUnique(store: Store, objType: string, filter: Filter, x: Resource, y: Resource)
    requires Get(store, objType, filter) == Ok(x)
    requires y in store[Plural(objType)] && Matches(y, filter)
    ensures y == x
  {
    var ls := Select(store[Plural(objType)], filter);
    assert y in ls;
    assert x in ls;
    assert |ls| == 1;
  }

  /** Two different matching records make cosmo_get fail, however many more there are. */
  lemma GetRejectsAmbiguity(store: Store, objType: string, filter: Filter, x: Resource, y: Resource)
    requires Plural(objType) in store
    requires x in store[Plural(objType)] && Matches(x, filter)
    requires y in store[Plural(objType)] && Matches(y, filter)
    requires x != y
    ensures Get(store, objType, filter).Err?
    ensures Get(store, objType, filter).error.Cardinality? && Get(store, objType, filter).error.count >= 2
  {
    var ls := Select(store[Plural(objType)], filter);
    assert x in ls && y in ls;
    var i :| 0 <= i < |ls| && ls[i] == x;
    var j :| 0 <= j < |ls| && ls[j] == y;
    assert i != j;
  }

  /** cosmo_get_named: cosmo_get with the name added to the filters; a second "name" keyword is a call error. */
  function GetNamed(store: Store, objType: string, name: string, filter: Filter): (r: Result<Resource>)
    ensures "name" in filter ==> r == Err(DuplicateKeyword("name"))
    ensures "name" !in filter ==> r == Get(store, objType, filter["name" := Str(name)])
    ensures r.Ok? ==> r.value.name == name
  {
    if "name" in filter then Err(DuplicateKeyword("name"))
    else
      var r := Get(store, objType, filter["name" := Str(name)]);
      assert r.Ok? ==> Matches(r.value, filter["name" := Str(name)]) && Field(r.value, "name") == Some(Str(name));
      r
  }

  /** The records whose name starts with prefix, in order. */
  function KeepPrefixed(rs: seq<Resource>, prefix: string): seq<Resource> {
    Where(rs, (r: Resource) => StartsWith(r.name, prefix))
  }

  /** The records whose name does not start with prefix, in order. */
  function Unprefixed(rs: seq<Resource>, prefix: string): seq<Resource> {
    Where(rs, (r: Resource) => !StartsWith(r.name, prefix))
  }

  /** cosmo_list_prefixed: the unfiltered listing restricted to names starting with prefix. */
  function ListPrefixed(store: Store, objType: string, prefix: string): (r: Result<seq<Resource>>)
    ensures r.Ok? <==> Plural(objType) in store
    ensures r.Err? ==> r.error == MissingCall("list_" + Plural(objType))
  {
    match List(store, objType, map[])
    case Err(e) => Err(e)
    case Ok(rs) => Ok(KeepPrefixed(rs, prefix))
  }

  /** cosmo_list_prefixed yields exactly the prefixed records of the listing, in listing order, and adds none. */
  lemma ListPrefixedExact(store: Store, objType: string, prefix: string)
    requires Plural(objType) in store
    ensures ListPrefixed(store, objType, prefix) == Ok(KeepPrefixed(store[Plural(objType)], prefix))
    ensures forall x :: x in ListPrefixed(store, objType, prefix).value <==>
                          x in store[Plural(objType)] && StartsWith(x.name, prefix)
    ensures IsSubsequence(ListPrefixed(store, objType, prefix).value, store[Plural(objType)])
  {
    ListUnfiltered(store, objType);
    WhereIsSubsequence(store[Plural(objType)], (r: Resource) => StartsWith(r.name, prefix));
  }

  /** Filtering by the same prefix twice changes nothing. */
  lemma {:induction false} KeepPrefixedIdempotent(rs: seq<Resource>, prefix: string)
    ensures KeepPrefixed(KeepPrefixed(rs, prefix), prefix) == KeepPrefixed(rs, prefix)
  {
    WhereKeepsAll(KeepPrefixed(rs, prefix), (r: Resource) => StartsWith(r.name, prefix));
  }

  /** A filter on the name alone matches exactly the records with that name. */
  lemma MatchesName(r: Resource, name: string)
    ensures Matches(r, map["name" := Str(name)]) <==> r.name == name
  {
    assert "name" in map["name" := Str(name)];
    assert "name" != "id";
  }

  /** Two records named alike make cosmo_get_named fail with a count of two. */
  lemma GetDuplicateNameExample()
    ensures var nets := [Resource(1, "A", map[]), Resource(2, "A", map[])];
            GetNamed(map["networks" := nets], "network", "A", map[])
              == Err(Cardinality("network", map["name" := Str("A")], 2))
  {
    var nets := [Resource(1, "A", map[]), Resource(2, "A", map[])];
    var f := map["name" := Str("A")];
    assert Plural("network") == "networks";
    assert map[]["name" := Str("A")] == f;
    MatchesName(nets[0], "A");
    MatchesName(nets[1], "A");
    assert Select(nets, f) == nets by {
      assert Select(nets, f) == [nets[0]] + Select(nets[1..], f);
      assert nets[1..] == [nets[1]];
      assert Select([nets[1]], f) == [nets[1]] + Select([], f);
    }
  }

  /** Only the record carrying this test's prefix is listed; another test's and a foreign record are not. */
  lemma ListPrefixedExample()
    ensures var nets := [Resource(1, "cosmo_test_ABC_net1", map[]), Resource(2, "cosmo_test_XYZ_net2", map[]),
                         Resource(3, "other_net", map[])];
            ListPrefixed(map["networks" := nets], "network", "cosmo_test_ABC_") == Ok([nets[0]])
  {
    var nets := [Resource(1, "cosmo_test_ABC_net1", map[]), Resource(2, "cosmo_test_XYZ_net2", map[]),
                 Resource(3, "other_net", map[])];
    var p := "cosmo_test_ABC_";
    assert Plural("network") == "networks";
    ListUnfiltered(map["networks" := nets], "network");
    var keep := (r: Resource) => StartsWith(r.name, p);
    assert keep(nets[0]) by { assert nets[0].name == p + "net1"; }
    assert !keep(nets[1]) by { assert nets[1].name[11] != p[11]; }
    assert !keep(nets[2]) by { assert nets[2].name[0] != p[0]; }
    assert nets[1..][1..] == [nets[2]] && [nets[2]][1..] == [];
    calc {
      KeepPrefixed(nets, p);
      [nets[0]] + Where(nets[1..], keep);
      [nets[0]] + Where([nets[2]], keep);
      [nets[0]];
    }
  }
}
