/**
 * The base test case of the OpenStack plugins: setUp draws a random name prefix, the tests create
 * prefixed networks and subnets, and tearDown deletes every prefixed server, then retries the
 * neutron cleanup while a network is still in use.
 *
 * random.choice is modelled by the indices it picks, and time.sleep by a counter of seconds slept.
 */
module Testing {
  import opened Types
  import opened Sugar
  import opened Neutron
  import opened Nova
  import opened CloudDouble
  import opened Cleanup

  /** How many random characters the name prefix carries. */
  const PrefixRandomChars: nat := 3

  /** The fixed part that starts every name prefix. */
  const PrefixHead: string := "cosmo_test_"

  /** The n characters with consecutive codes from lo on. */
  function CharRange(lo: nat, n: nat): (s: string)
    requires lo + n <= 0xD800
  {
    seq(n, i requires 0 <= i < n => (lo + i) as char)
  }

  /** The characters the random part of the prefix is drawn from: string.ascii_uppercase + string.digits. */
  const PrefixChars: string := CharRange('A' as nat, 26) + CharRange('0' as nat, 10)

  /** An upper-case letter or a decimal digit. */
  predicate IsPrefixChar(c: char) {
    'A' <= c <= 'Z' || '0' <= c <= '9'
  }

  /** The position of a letter or digit in PrefixChars. */
  function PrefixCharIndex(c: char): (k: nat)
    requires IsPrefixChar(c)
    ensures k < |PrefixChars| && PrefixChars[k] == c
  {
    if 'A' <= c <= 'Z' then c as int - 'A' as int else 26 + c as int - '0' as int
  }

  /** PrefixChars holds exactly the upper-case letters and the digits, each once. */
  lemma PrefixCharsExactly()
    ensures forall c :: c in PrefixChars <==> IsPrefixChar(c)
    ensures forall i, j :: 0 <= i < j < |PrefixChars| ==> PrefixChars[i] != PrefixChars[j]
  {
    forall c | IsPrefixChar(c)
      ensures c in PrefixChars
    {
      assert PrefixChars[PrefixCharIndex(c)] == c;
    }
    forall i, j | 0 <= i < j < |PrefixChars|
      ensures PrefixChars[i] != PrefixChars[j]
    {
      assert PrefixChars[i] as int == if i < 26 then 'A' as int + i else '0' as int + i - 26;
      assert PrefixChars[j] as int == if j < 26 then 'A' as int + j else '0' as int + j - 26;
    }
  }

  /** Every pick is a position in PrefixChars. */
  predicate ValidPicks(picks: seq<nat>) {
    forall i :: 0 <= i < |picks| ==> picks[i] < |PrefixChars|
  }

  /** The characters random.choice returns for the given picks. */
  function Drawn(picks: seq<nat>): string
    requires ValidPicks(picks)
  {
    seq(|picks|, i requires 0 <= i < |picks| => PrefixChars[picks[i]])
  }

  /** 'cosmo_test_{0}_' filled with the drawn characters. */
  function NamePrefix(picks: seq<nat>): string
    requires ValidPicks(picks)
  {
    PrefixHead + Drawn(picks) + "_"
  }

  /** The shape of every prefix setUp can draw. */
  predicate IsNamePrefix(p: string) {
    && |p| == |PrefixHead| + PrefixRandomChars + 1
    && p[..|PrefixHead|] == PrefixHead
    && (forall i :: |PrefixHead| <= i < |PrefixHead| + PrefixRandomChars ==> IsPrefixChar(p[i]))
    && p[|p| - 1] == '_'
  }

  /** Every draw of setUp gives a prefix of that shape. */
  lemma NamePrefixShape(picks: seq<nat>)
    requires |picks| == PrefixRandomChars && ValidPicks(picks)
    ensures IsNamePrefix(NamePrefix(picks))
  {
    var p := NamePrefix(picks);
    assert p[..|PrefixHead|] == PrefixHead;
    forall i | |PrefixHead| <= i < |PrefixHead| + PrefixRandomChars
      ensures IsPrefixChar(p[i])
    {
      assert p[i] == PrefixChars[picks[i - |PrefixHead|]];
      PrefixCharsExactly();
    }
  }

  /** Every prefix of that shape is drawn by some picks. */
  lemma NamePrefixReachable(p: string)
    requires IsNamePrefix(p)
    ensures exists picks :: |picks| == PrefixRandomChars && ValidPicks(picks) && NamePrefix(picks) == p
  {
    var h := |PrefixHead|;
    var middle := p[h..h + PrefixRandomChars];
    var picks: seq<nat> := [PrefixCharIndex(p[h]), PrefixCharIndex(p[h + 1]), PrefixCharIndex(p[h + 2])];
    assert ValidPicks(picks);
    assert Drawn(picks) == middle;
    assert p == p[..h] + middle + [p[|p| - 1]];
    assert NamePrefix(picks) == p;
  }

  /** Different picks draw different prefixes. */
  lemma NamePrefixInjective(a: seq<nat>, b: seq<nat>)
    requires ValidPicks(a) && ValidPicks(b) && |a| == |b|
    ensures NamePrefix(a) == NamePrefix(b) <==> a == b
  {
    if NamePrefix(a) == NamePrefix(b) {
      PrefixCharsExactly();
      forall i | 0 <= i < |a|
        ensures a[i] == b[i]
      {
        assert NamePrefix(a)[|PrefixHead| + i] == PrefixChars[a[i]];
        assert NamePrefix(b)[|PrefixHead| + i] == PrefixChars[b[i]];
      }
    }
  }

  /** A name carries at most one prefix of that shape: tests with different prefixes never clean up each other's resources. */
  lemma PrefixesIsolate(p: string, q: string, name: string)
    requires IsNamePrefix(p) && IsNamePrefix(q)
    ensures StartsWith(name, p) && StartsWith(name, q) ==> p == q
  {
    if StartsWith(name, p) && StartsWith(name, q) {
      assert p == name[..|p|];
      assert q == name[..|q|];
    }
  }

  /** The body of create_network. */
  function NetworkBody(prefix: string, suffix: string): map<string, Value> {
    map["name" := Str(prefix + suffix), "admin_state_up" := Bool(true)]
  }

  /** The body of create_subnet. */
  function SubnetBody(prefix: string, suffix: string, cidr: string, networkId: nat): map<string, Value> {
    map["name" := Str(prefix + suffix), "ip_version" := Int(4), "cidr" := Str(cidr), "network_id" := Int(networkId)]
  }

  class TestCase {
    var namePrefix: string
    var timeout: nat
    var slept: nat        // seconds spent in time.sleep
    const cloud: Cloud    // the services every client of the test talks to

    constructor (cloud: Cloud)
      ensures this.cloud == cloud && namePrefix == "" && timeout == 0 && slept == 0
    {
      this.cloud := cloud;
      namePrefix := "";
      timeout := 0;
      slept := 0;
    }

    /** setUp: draw the name prefix from the picks of random.choice and set the timeout. */
    method SetUp(picks: seq<nat>)
      requires |picks| == PrefixRandomChars && ValidPicks(picks)
      modifies this
      ensures namePrefix == NamePrefix(picks) && IsNamePrefix(namePrefix)
      ensures timeout == 120 && slept == old(slept)
    {
      namePrefix := NamePrefix(picks);
      timeout := 120;
      NamePrefixShape(picks);
    }

    /** The first pass of tearDown: request deletion of every prefixed server; a failure is logged and skipped. */
    method DeleteServers()
      requires cloud.Valid() && IsNamePrefix(namePrefix)
      modifies cloud
      ensures cloud.Valid()
      ensures var pass := ServerPass(old(cloud.servers), old(cloud.serverFaults), old(cloud.servers), namePrefix);
        cloud.servers == pass.servers && cloud.serverFaults == pass.faults && cloud.calls == old(cloud.calls) + pass.issued
      ensures cloud.store == old(cloud.store) && cloud.faults == old(cloud.faults) && cloud.nextId == old(cloud.nextId)
    {
      var snapshot := cloud.servers;
      ghost var whole := ServerPass(cloud.servers, cloud.serverFaults, snapshot, namePrefix);
      ghost var issued: seq<Call> := [];
      var i := 0;
      while i < |snapshot|
        invariant 0 <= i <= |snapshot|
        invariant cloud.Valid()
        invariant cloud.calls == old(cloud.calls) + issued
        invariant cloud.store == old(cloud.store) && cloud.faults == old(cloud.faults) && cloud.nextId == old(cloud.nextId)
        invariant var rest := ServerPass(cloud.servers, cloud.serverFaults, snapshot[i..], namePrefix);
                  whole == Pass(rest.servers, rest.faults, issued + rest.issued)
      {
        ServerPassAdvance(whole, issued, cloud.servers, cloud.serverFaults, snapshot, i, namePrefix);
        if StartsWith(snapshot[i].name, namePrefix) {
          ghost var done := issued;
          var failure := cloud.DeleteServer(snapshot[i].id);
          issued := issued + [NovaDelete(snapshot[i].id)];
          AppendAssoc(old(cloud.calls), done, [NovaDelete(snapshot[i].id)]);
        }
        i := i + 1;
      }
      assert snapshot[i..] == [];
    }

    /** The second pass of tearDown: cosmo_delete_prefixed, retried while a network is in use. */
    method CleanupNetworkResources() returns (err: Option<Error>)
      requires cloud.Valid() && IsNamePrefix(namePrefix)
      modifies this, cloud
      ensures cloud.Valid()
      ensures var a := NeutronCleanup(old(cloud.store), old(cloud.faults), namePrefix);
        && cloud.store == a.store && cloud.faults == a.faults
        && cloud.calls == old(cloud.calls) + a.issued
        && err == a.escaped
        && slept == old(slept) + CleanupRetrySleep * a.sleeps
      ensures cloud.servers == old(cloud.servers) && cloud.serverFaults == old(cloud.serverFaults)
      ensures cloud.nextId == old(cloud.nextId)
      ensures namePrefix == old(namePrefix) && timeout == old(timeout)
    {
      ghost var attempt := DeletePrefixedAttempt(namePrefix);
      ghost var whole := NeutronCleanup(cloud.store, cloud.faults, namePrefix);
      ghost var st, fa := cloud.store, cloud.faults;
      ghost var left := CleanupRetries;
      ghost var issued: seq<Call> := [];
      ghost var outcomes: seq<Option<Error>> := [];
      ghost var sleeps: nat := 0;
      var i := 1;
      while i <= CleanupRetries
        invariant 1 <= i <= CleanupRetries + 1 && left == CleanupRetries + 1 - i
        invariant cloud.Valid()
        invariant cloud.store == st && cloud.faults == fa
        invariant cloud.calls == old(cloud.calls) + issued
        invariant slept == old(slept) + CleanupRetrySleep * sleeps
        invariant cloud.servers == old(cloud.servers) && cloud.serverFaults == old(cloud.serverFaults)
        invariant cloud.nextId == old(cloud.nextId)
        invariant namePrefix == old(namePrefix) && timeout == old(timeout)
        invariant Remaining(whole, attempt, st, fa, left, issued, outcomes, sleeps)
      {
        ghost var run := DeletePrefixedRun(st, fa, namePrefix);
        DeletePrefixedAttemptIsRun(namePrefix, st, fa);
        ghost var done := issued;
        var e := cloud.DeletePrefixed(namePrefix);
        issued := issued + run.issued;
        AppendAssoc(old(cloud.calls), done, run.issued);
        if e != Some(InUse) {
          RetryStops(whole, attempt, st, fa, left, done, outcomes, sleeps, run);
          outcomes := outcomes + [e];
          return e;
        }
        RetryContinues(whole, attempt, st, fa, left, done, outcomes, sleeps, run);
        outcomes := outcomes + [e];
        st, fa, left := run.store, run.faults, left - 1;
        slept := slept + CleanupRetrySleep;
        sleeps := sleeps + 1;
        i := i + 1;
      }
      RetryDone(whole, attempt, st, fa, issued, outcomes, sleeps);
      err := None;
    }

    /** tearDown: the server pass, then the neutron cleanup; an error other than "network in use" escapes. */
    method TearDown() returns (err: Option<Error>)
      requires cloud.Valid() && IsNamePrefix(namePrefix)
      modifies this, cloud
      ensures cloud.Valid()
      ensures var pass := ServerPass(old(cloud.servers), old(cloud.serverFaults), old(cloud.servers), namePrefix);
              var a := NeutronCleanup(old(cloud.store), old(cloud.faults), namePrefix);
        && cloud.servers == pass.servers && cloud.serverFaults == pass.faults
        && cloud.store == a.store && cloud.faults == a.faults
        && cloud.calls == old(cloud.calls) + pass.issued + a.issued
        && err == a.escaped
        && slept == old(slept) + CleanupRetrySleep * a.sleeps
      ensures cloud.nextId == old(cloud.nextId) && namePrefix == old(namePrefix) && timeout == old(timeout)
    {
      DeleteServers();
      err := CleanupNetworkResources();
    }

    /** create_network: a network named with the prefix and the suffix, administratively up. */
    method CreateNetwork(suffix: string) returns (r: Result<Resource>)
      requires cloud.Valid()
      modifies cloud
      ensures cloud.Valid()
      ensures "networks" !in old(cloud.store) ==>
                r == Err(MissingCall("create_network")) && cloud.store == old(cloud.store) && cloud.nextId == old(cloud.nextId)
      ensures "networks" in old(cloud.store) ==>
                && r == Ok(Resource(old(cloud.nextId), namePrefix + suffix, map["admin_state_up" := Bool(true)]))
                && StartsWith(r.value.name, namePrefix)
                && cloud.store == old(cloud.store)["networks" := old(cloud.store)["networks"] + [r.value]]
                && cloud.nextId == old(cloud.nextId) + 1
      ensures cloud.faults == old(cloud.faults) && cloud.servers == old(cloud.servers)
      ensures cloud.serverFaults == old(cloud.serverFaults) && cloud.calls == old(cloud.calls)
    {
      assert Plural("network") == "networks" && "create_" + "network" == "create_network";
      assert NetworkBody(namePrefix, suffix) - {"name"} == map["admin_state_up" := Bool(true)];
      r := cloud.Create("network", NetworkBody(namePrefix, suffix));
    }

    /** create_subnet: an IPv4 subnet named with the prefix and the suffix, on the given network or on a new one. */
    method CreateSubnet(suffix: string, cidr: string, network: Option<Resource>) returns (r: Result<Resource>)
      requires cloud.Valid()
      modifies cloud
      ensures cloud.Valid()
      ensures network.None? && "networks" !in old(cloud.store) ==>
                r == Err(MissingCall("create_network")) && cloud.store == old(cloud.store)
      ensures network.None? && "networks" in old(cloud.store) ==>
                var net := Resource(old(cloud.nextId), namePrefix + suffix, map["admin_state_up" := Bool(true)]);
                var withNet := old(cloud.store)["networks" := old(cloud.store)["networks"] + [net]];
                && ("subnets" !in withNet ==> r == Err(MissingCall("create_subnet")) && cloud.store == withNet)
                && ("subnets" in withNet ==>
                      && r == Ok(Resource(old(cloud.nextId) + 1, namePrefix + suffix, SubnetBody(namePrefix, suffix, cidr, net.id) - {"name"}))
                      && cloud.store == withNet["subnets" := withNet["subnets"] + [r.value]])
      ensures network.Some? ==>
                && ("subnets" !in old(cloud.store) ==> r == Err(MissingCall("create_subnet")) && cloud.store == old(cloud.store))
                && ("subnets" in old(cloud.store) ==>
                      && r == Ok(Resource(old(cloud.nextId), namePrefix + suffix, SubnetBody(namePrefix, suffix, cidr, network.value.id) - {"name"}))
                      && cloud.store == old(cloud.store)["subnets" := old(cloud.store)["subnets"] + [r.value]])
      ensures r.Ok? ==>
                && StartsWith(r.value.name, namePrefix)
                && "network_id" in r.value.attrs
                && r.value.attrs == map["ip_version" := Int(4), "cidr" := Str(cidr), "network_id" := r.value.attrs["network_id"]]
      ensures cloud.faults == old(cloud.faults) && cloud.servers == old(cloud.servers)
      ensures cloud.serverFaults == old(cloud.serverFaults) && cloud.calls == old(cloud.calls)
    {
      var net: Resource;
      if network.None? {
        var created := CreateNetwork(suffix);
        if created.Err? {
          return Err(created.error);
        }
        net := created.value;
      } else {
        net := network.value;
      }
      assert Plural("subnet") == "subnets" && "create_" + "subnet" == "create_subnet";
      var body := SubnetBody(namePrefix, suffix, cidr, net.id);
      assert body - {"name"} == map["ip_version" := Int(4), "cidr" := Str(cidr), "network_id" := Int(net.id)];
      r := cloud.Create("subnet", body);
    }
  }
}
