/**
 * The best-effort server pass of tearDown, as a function of the server list and of the scripted
 * outcomes of server.delete(): every server whose name starts with the prefix gets one delete
 * request, a failing request is logged and skipped, and no other server is touched.
 */
module Nova {
  import opened Types
  import opened Sugar
  import opened Neutron

  /** The error server.delete() raises, if any: a scripted failure, or NotFound for a server already gone. */
  function ServerDeleteError(servers: seq<Resource>, faults: seq<Option<Error>>, id: nat): Option<Error> {
    if NextFault(faults).Some? then NextFault(faults)
    else if HasId(servers, id) then None
    else Some(NotFound)
  }

  /** The servers after server.delete(): unchanged when the call fails, without that server when it succeeds. */
  function AfterServerDelete(servers: seq<Resource>, faults: seq<Option<Error>>, id: nat): seq<Resource> {
    if ServerDeleteError(servers, faults, id).None? then Except(servers, {id}) else servers
  }

  /** The outcome of the server pass: the servers and script left, and the delete requests issued. */
  datatype Pass = Pass(servers: seq<Resource>, faults: seq<Option<Error>>, issued: seq<Call>)

  /** Walk the snapshot of servers; request deletion of each prefixed one and carry on whatever the outcome. */
  function ServerPass(servers: seq<Resource>, faults: seq<Option<Error>>, snapshot: seq<Resource>, prefix: string): Pass
    decreases |snapshot|
  {
    if snapshot == [] then Pass(servers, faults, [])
    else if !StartsWith(snapshot[0].name, prefix) then ServerPass(servers, faults, snapshot[1..], prefix)
    else
      var id := snapshot[0].id;
      var rest := ServerPass(AfterServerDelete(servers, faults, id), Advance(faults), snapshot[1..], prefix);
      Pass(rest.servers, rest.faults, [NovaDelete(id)] + rest.issued)
  }

  /** One server delete request per server, in order. */
  function ServerCalls(rs: seq<Resource>): (calls: seq<Call>)
    ensures |calls| == |rs|
    ensures forall i :: 0 <= i < |rs| ==> calls[i] == NovaDelete(rs[i].id)
    decreases |rs|
  {
    if rs == [] then [] else [NovaDelete(rs[0].id)] + ServerCalls(rs[1..])
  }

  /** The remaining-work invariant of the server loop, carried over one server of the snapshot. */
  lemma ServerPassAdvance(whole: Pass, issued: seq<Call>, servers: seq<Resource>, faults: seq<Option<Error>>,
                          snapshot: seq<Resource>, i: nat, prefix: string)
    requires i < |snapshot|
    requires var rest := ServerPass(servers, faults, snapshot[i..], prefix);
             whole == Pass(rest.servers, rest.faults, issued + rest.issued)
    ensures !StartsWith(snapshot[i].name, prefix) ==>
            var rest := ServerPass(servers, faults, snapshot[i + 1..], prefix);
            whole == Pass(rest.servers, rest.faults, issued + rest.issued)
    ensures StartsWith(snapshot[i].name, prefix) ==>
            var id := snapshot[i].id;
            var rest := ServerPass(AfterServerDelete(servers, faults, id), Advance(faults), snapshot[i + 1..], prefix);
            whole == Pass(rest.servers, rest.faults, (issued + [NovaDelete(id)]) + rest.issued)
  {
    assert snapshot[i..][1..] == snapshot[i + 1..];
    if StartsWith(snapshot[i].name, prefix) {
      var id := snapshot[i].id;
      var rest := ServerPass(AfterServerDelete(servers, faults, id), Advance(faults), snapshot[i + 1..], prefix);
      assert issued + ([NovaDelete(id)] + rest.issued) == (issued + [NovaDelete(id)]) + rest.issued;
    }
  }

  /**
   * The pass requests deletion of exactly the prefixed servers of the snapshot, in order, whatever
   * the outcome of each request: a failure does not stop it.
   */
  lemma {:induction false} ServerPassCalls(servers: seq<Resource>, faults: seq<Option<Error>>, snapshot: seq<Resource>, prefix: string)
    ensures ServerPass(servers, faults, snapshot, prefix).issued == ServerCalls(KeepPrefixed(snapshot, prefix))
    ensures var pass := ServerPass(servers, faults, snapshot, prefix);
            pass.faults == Drop(faults, |KeepPrefixed(snapshot, prefix)|)
    decreases |snapshot|
  {
    if snapshot != [] {
      var id := snapshot[0].id;
      var tail := KeepPrefixed(snapshot[1..], prefix);
      if StartsWith(snapshot[0].name, prefix) {
        ServerPassCalls(AfterServerDelete(servers, faults, id), Advance(faults), snapshot[1..], prefix);
        assert KeepPrefixed(snapshot, prefix) == [snapshot[0]] + tail;
        assert ([snapshot[0]] + tail)[1..] == tail;
        DropAdvance(faults, |tail|);
      } else {
        ServerPassCalls(servers, faults, snapshot[1..], prefix);
        assert KeepPrefixed(snapshot, prefix) == tail;
      }
    }
  }

  /**
   * Whatever fails, the pass only removes prefixed servers of the snapshot: it adds none and keeps
   * every server whose name lacks the prefix.
   */
  lemma {:induction false} ServerPassKeepsOthers(servers0: seq<Resource>, servers: seq<Resource>,
                                                 faults: seq<Option<Error>>, snapshot: seq<Resource>, prefix: string)
    requires UniqueIds(servers0) && UniqueIds(servers)
    requires forall r :: r in servers ==> r in servers0
    requires forall r :: r in servers0 && !StartsWith(r.name, prefix) ==> r in servers
    requires forall r :: r in snapshot && StartsWith(r.name, prefix) ==> r in servers0
    ensures var pass := ServerPass(servers, faults, snapshot, prefix);
      && UniqueIds(pass.servers)
      && (forall r :: r in pass.servers ==> r in servers0)
      && (forall r :: r in servers0 && !StartsWith(r.name, prefix) ==> r in pass.servers)
    decreases |snapshot|
  {
    if snapshot != [] {
      var x := snapshot[0];
      assert x in snapshot;
      assert forall r :: r in snapshot[1..] ==> r in snapshot;
      if StartsWith(x.name, prefix) {
        var after := AfterServerDelete(servers, faults, x.id);
        if ServerDeleteError(servers, faults, x.id).None? {
          ExceptUnique(servers, {x.id});
          IdDeterminesRecord(servers0, x);
          assert forall r :: r in after <==> r in servers && r.id != x.id;
        }
        ServerPassKeepsOthers(servers0, after, Advance(faults), snapshot[1..], prefix);
      } else {
        ServerPassKeepsOthers(servers0, servers, faults, snapshot[1..], prefix);
      }
    }
  }

  lemma {:induction false} ServerPassCleanFrom(servers: seq<Resource>, faults: seq<Option<Error>>, snapshot: seq<Resource>, prefix: string)
    requires UniqueIds(snapshot)
    requires forall r :: r in snapshot && StartsWith(r.name, prefix) ==> r.id in Ids(servers)
    requires Quiet(faults, |KeepPrefixed(snapshot, prefix)|)
    ensures ServerPass(servers, faults, snapshot, prefix).servers == Except(servers, Ids(KeepPrefixed(snapshot, prefix)))
    decreases |snapshot|
  {
    var kept := KeepPrefixed(snapshot, prefix);
    if snapshot == [] {
      WhereKeepsAll(servers, (r: Resource) => r.id !in Ids(kept));
    } else {
      var x := snapshot[0];
      var tail := KeepPrefixed(snapshot[1..], prefix);
      assert forall r :: r in snapshot[1..] ==> r in snapshot;
      WhereUnique(snapshot[1..], (r: Resource) => StartsWith(r.name, prefix));
      if StartsWith(x.name, prefix) {
        assert kept == [x] + tail;
        assert x in snapshot;
        assert NextFault(faults).None? by { assert Quiet(faults, |kept|); }
        var after := AfterServerDelete(servers, faults, x.id);
        HasIdIff(servers, x.id);
        assert after == Except(servers, {x.id});
        forall r | r in snapshot[1..] && StartsWith(r.name, prefix)
          ensures r.id in Ids(after)
        {
          assert r.id in Ids(snapshot[1..]);
          var s :| s in servers && s.id == r.id;
          assert s in after;
        }
        QuietAdvance(faults, |tail|);
        ServerPassCleanFrom(after, Advance(faults), snapshot[1..], prefix);
        ExceptTwice(servers, {x.id}, Ids(tail));
        assert kept[1..] == tail;
        IdsSplit(kept);
      } else {
        assert kept == tail;
        ServerPassCleanFrom(servers, faults, snapshot[1..], prefix);
      }
    }
  }

  /** When no server deletion fails, the pass leaves exactly the servers whose name lacks the prefix. */
  lemma ServerPassClean(servers: seq<Resource>, faults: seq<Option<Error>>, prefix: string)
    requires UniqueIds(servers)
    requires Quiet(faults, |KeepPrefixed(servers, prefix)|)
    ensures ServerPass(servers, faults, servers, prefix).servers == Unprefixed(servers, prefix)
  {
    ServerPassCleanFrom(servers, faults, servers, prefix);
    ExceptPrefixed(servers, prefix);
  }
}
