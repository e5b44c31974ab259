/**
 * The neutron cleanup of tearDown as a function of the store and of the scripted call outcomes:
 * up to CLEANUP_RETRIES runs of cosmo_delete_prefixed, retried only while a run fails with
 * "network in use", with a pause of CLEANUP_RETRY_SLEEP seconds after every such failure.
 *
 * The retry loop is stated for any attempt (a run against a store and a failure script) and then
 * instantiated with cosmo_delete_prefixed.
 */
module Cleanup {
  import opened Types
  import opened Sugar
  import opened Neutron

  /** How many times tearDown tries cosmo_delete_prefixed. */
  const CleanupRetries: nat := 10

  /** Seconds tearDown pauses after an attempt that failed with "network in use". */
  const CleanupRetrySleep: nat := 2

  /** One attempt of the retried operation, against a store and a failure script. */
  type Attempt = (Store, seq<Option<Error>>) -> Run

  /** n copies of x. */
  function Repeat<T>(x: T, n: nat): (r: seq<T>)
    ensures |r| == n
    ensures forall i :: 0 <= i < n ==> r[i] == x
    decreases n
  {
    if n == 0 then [] else [x] + Repeat(x, n - 1)
  }

  /**
   * The outcome of the retry loop: the store and script left, the delete calls issued, the outcome
   * of each attempt in order, the error that escapes tearDown, and how many pauses were taken.
   */
  datatype Attempts = Attempts(store: Store, faults: seq<Option<Error>>, issued: seq<Call>,
                               outcomes: seq<Option<Error>>, escaped: Option<Error>, sleeps: nat)

  /** The retry loop with left attempts to go. */
  function Retry(attempt: Attempt, store: Store, faults: seq<Option<Error>>, left: nat): Attempts
    decreases left
  {
    if left == 0 then Attempts(store, faults, [], [], None, 0)
    else
      var run := attempt(store, faults);
      if run.err == Some(InUse) then
        var rest := Retry(attempt, run.store, run.faults, left - 1);
        Attempts(rest.store, rest.faults, run.issued + rest.issued, [run.err] + rest.outcomes, rest.escaped, rest.sleeps + 1)
      else Attempts(run.store, run.faults, run.issued, [run.err], run.err, 0)
  }

  /** One run of cosmo_delete_prefixed with the given prefix. */
  function DeletePrefixedAttempt(prefix: string): Attempt {
    (store: Store, faults: seq<Option<Error>>) => DeletePrefixedRun(store, faults, prefix)
  }

  lemma DeletePrefixedAttemptIsRun(prefix: string, store: Store, faults: seq<Option<Error>>)
    ensures DeletePrefixedAttempt(prefix)(store, faults) == DeletePrefixedRun(store, faults, prefix)
  {
  }

  /** The neutron cleanup of tearDown. */
  function NeutronCleanup(store: Store, faults: seq<Option<Error>>, prefix: string): Attempts {
    Retry(DeletePrefixedAttempt(prefix), store, faults, CleanupRetries)
  }

  /** The loop stopped early: its last attempt either succeeded or failed with something other than "in use". */
  predicate Stopped(a: Attempts) {
    |a.outcomes| > 0 && a.outcomes[|a.outcomes| - 1] != Some(InUse)
  }

  // ---------------------------------------------------------------------------------------------
  // The retry loop, for any attempt

  /**
   * The shape of every run of the retry loop: at most left attempts, every attempt before the last
   * failed with "in use", "in use" never escapes; a loop that stopped early paused after each
   * attempt but the last and lets the last outcome escape; otherwise it made all left attempts,
   * paused after each of them, and raises nothing.
   */
  lemma {:induction false} RetryShape(attempt: Attempt, store: Store, faults: seq<Option<Error>>, left: nat)
    ensures var a := Retry(attempt, store, faults, left);
      && |a.outcomes| <= left
      && (left > 0 ==> |a.outcomes| > 0)
      && (forall i :: 0 <= i < |a.outcomes| - 1 ==> a.outcomes[i] == Some(InUse))
      && a.escaped != Some(InUse)
      && (Stopped(a) ==> a.sleeps == |a.outcomes| - 1 && a.escaped == a.outcomes[|a.outcomes| - 1])
      && (!Stopped(a) ==> |a.outcomes| == left && a.sleeps == left && a.escaped.None?)
    decreases left
  {
    if left > 0 {
      var run := attempt(store, faults);
      if run.err == Some(InUse) {
        var rest := Retry(attempt, run.store, run.faults, left - 1);
        RetryShape(attempt, run.store, run.faults, left - 1);
        var a := Retry(attempt, store, faults, left);
        assert a.outcomes == [run.err] + rest.outcomes;
        assert forall i :: 1 <= i < |a.outcomes| ==> a.outcomes[i] == rest.outcomes[i - 1];
        if rest.outcomes != [] {
          assert a.outcomes[|a.outcomes| - 1] == rest.outcomes[|rest.outcomes| - 1];
        }
      }
    }
  }

  lemma ShrunkTrans(s0: Store, s1: Store, s2: Store, prefix: string)
    requires Shrunk(s0, s1, prefix) && Shrunk(s1, s2, prefix)
    ensures Shrunk(s0, s2, prefix)
  {
  }

  /** When no attempt adds records or removes unprefixed ones, neither does the retry loop. */
  lemma {:induction false} RetryShrinks(attempt: Attempt, store: Store, faults: seq<Option<Error>>, left: nat, prefix: string)
    requires AllUnique(store)
    requires forall s, f :: AllUnique(s) ==> Shrunk(s, attempt(s, f).store, prefix)
    ensures Shrunk(store, Retry(attempt, store, faults, left).store, prefix)
    decreases left
  {
    if left == 0 {
      ShrunkRefl(store, prefix);
    } else {
      var run := attempt(store, faults);
      if run.err == Some(InUse) {
        RetryShrinks(attempt, run.store, run.faults, left - 1, prefix);
        ShrunkTrans(store, run.store, Retry(attempt, run.store, run.faults, left - 1).store, prefix);
      }
    }
  }

  /**
   * k attempts that fail with "in use" after issuing one call c and changing nothing, then one that
   * succeeds: k + 1 attempts, k pauses, nothing raised, and the final attempt's store and calls.
   */
  lemma {:induction false} RetryInUseThenDone(attempt: Attempt, store: Store, faults: seq<Option<Error>>,
                                              n: nat, k: nat, left: nat, c: Call)
    requires k < left
    requires forall j :: n <= j < n + k ==>
               attempt(store, Drop(faults, j)) == Run(store, Drop(faults, j + 1), [c], Some(InUse))
    requires attempt(store, Drop(faults, n + k)).err.None?
    ensures var a := Retry(attempt, store, Drop(faults, n), left);
            var last := attempt(store, Drop(faults, n + k));
      && a.outcomes == Repeat(Some(InUse), k) + [None]
      && a.sleeps == k
      && a.escaped.None?
      && a.store == last.store && a.faults == last.faults
      && a.issued == Repeat(c, k) + last.issued
    decreases k
  {
    if k > 0 {
      RetryInUseThenDone(attempt, store, faults, n + 1, k - 1, left - 1, c);
      assert Repeat(Some(InUse), k) == [Some(InUse)] + Repeat(Some(InUse), k - 1);
      assert Repeat(c, k) == [c] + Repeat(c, k - 1);
    }
  }

  /**
   * left attempts that all fail with "in use" after issuing one call c and changing nothing: the
   * loop gives up silently after left attempts and left pauses, having deleted nothing.
   */
  lemma {:induction false} RetryAllInUse(attempt: Attempt, store: Store, faults: seq<Option<Error>>,
                                         n: nat, left: nat, c: Call)
    requires forall j :: n <= j < n + left ==>
               attempt(store, Drop(faults, j)) == Run(store, Drop(faults, j + 1), [c], Some(InUse))
    ensures Retry(attempt, store, Drop(faults, n), left)
              == Attempts(store, Drop(faults, n + left), Repeat(c, left), Repeat(Some(InUse), left), None, left)
    decreases left
  {
    if left > 0 {
      RetryAllInUse(attempt, store, faults, n + 1, left - 1, c);
      assert Repeat(Some(InUse), left) == [Some(InUse)] + Repeat(Some(InUse), left - 1);
      assert Repeat(c, left) == [c] + Repeat(c, left - 1);
    }
  }

  /** The store and script that the j-th attempt (counting from 0) starts from, when every earlier one was retried. */
  function Before(attempt: Attempt, store: Store, faults: seq<Option<Error>>, j: nat): (Store, seq<Option<Error>>)
    decreases j
  {
    if j == 0 then (store, faults)
    else
      var run := attempt(store, faults);
      Before(attempt, run.store, run.faults, j - 1)
  }

  /** The j-th attempt's run. */
  function Nth(attempt: Attempt, store: Store, faults: seq<Option<Error>>, j: nat): Run {
    var s := Before(attempt, store, faults, j);
    attempt(s.0, s.1)
  }

  /** The calls that the first j attempts issued, in order. */
  function IssuedBefore(attempt: Attempt, store: Store, faults: seq<Option<Error>>, j: nat): seq<Call>
    decreases j
  {
    if j == 0 then []
    else
      var run := attempt(store, faults);
      run.issued + IssuedBefore(attempt, run.store, run.faults, j - 1)
  }

  /** Counting from the second attempt is counting from the state the first one left. */
  lemma NthShift(attempt: Attempt, store: Store, faults: seq<Option<Error>>, j: nat)
    ensures var run := attempt(store, faults);
      && Nth(attempt, store, faults, j + 1) == Nth(attempt, run.store, run.faults, j)
      && IssuedBefore(attempt, store, faults, j + 1) == run.issued + IssuedBefore(attempt, run.store, run.faults, j)
  {
  }

  /**
   * Attempts 0 .. k - 1 fail with "in use", whatever each of them deleted first, and attempt k does
   * not: the loop makes k + 1 attempts, pauses k times, lets attempt k's outcome escape, and ends
   * with attempt k's store and script, having issued every call of the k + 1 attempts in order.
   */
  lemma {:induction false} RetryUntil(attempt: Attempt, store: Store, faults: seq<Option<Error>>, k: nat, left: nat)
    requires k < left
    requires forall j :: 0 <= j < k ==> Nth(attempt, store, faults, j).err == Some(InUse)
    requires Nth(attempt, store, faults, k).err != Some(InUse)
    ensures var a := Retry(attempt, store, faults, left);
            var last := Nth(attempt, store, faults, k);
      && a.outcomes == Repeat(Some(InUse), k) + [last.err]
      && a.sleeps == k
      && a.escaped == last.err
      && a.store == last.store && a.faults == last.faults
      && a.issued == IssuedBefore(attempt, store, faults, k) + last.issued
    decreases k
  {
    if k > 0 {
      var run := attempt(store, faults);
      assert Nth(attempt, store, faults, 0) == run;
      forall j | 0 <= j < k
        ensures Nth(attempt, store, faults, j + 1) == Nth(attempt, run.store, run.faults, j)
      {
        NthShift(attempt, store, faults, j);
      }
      NthShift(attempt, store, faults, k - 1);
      RetryUntil(attempt, run.store, run.faults, k - 1, left - 1);
      var rest := Retry(attempt, run.store, run.faults, left - 1);
      var last := Nth(attempt, store, faults, k);
      assert Repeat(Some(InUse), k) == [Some(InUse)] + Repeat(Some(InUse), k - 1);
      assert [run.err] + (Repeat(Some(InUse), k - 1) + [last.err]) == ([Some(InUse)] + Repeat(Some(InUse), k - 1)) + [last.err];
      AppendAssoc(run.issued, IssuedBefore(attempt, run.store, run.faults, k - 1), last.issued);
    }
  }

  /**
   * All left attempts fail with "in use", whatever each of them deleted first: the loop gives up
   * silently after left attempts and left pauses, with the store and script the last one left and
   * every call of the left attempts issued in order.
   */
  lemma {:induction false} RetryGivesUp(attempt: Attempt, store: Store, faults: seq<Option<Error>>, left: nat)
    requires forall j :: 0 <= j < left ==> Nth(attempt, store, faults, j).err == Some(InUse)
    ensures var a := Retry(attempt, store, faults, left);
            var s := Before(attempt, store, faults, left);
      && a.outcomes == Repeat(Some(InUse), left)
      && a.sleeps == left
      && a.escaped.None?
      && a.store == s.0 && a.faults == s.1
      && a.issued == IssuedBefore(attempt, store, faults, left)
    decreases left
  {
    if left > 0 {
      var run := attempt(store, faults);
      assert Nth(attempt, store, faults, 0) == run;
      forall j | 0 <= j < left - 1
        ensures Nth(attempt, store, faults, j + 1) == Nth(attempt, run.store, run.faults, j)
      {
        NthShift(attempt, store, faults, j);
      }
      NthShift(attempt, store, faults, left - 1);
      RetryGivesUp(attempt, run.store, run.faults, left - 1);
      assert Repeat(Some(InUse), left) == [Some(InUse)] + Repeat(Some(InUse), left - 1);
    }
  }

  /**
   * The remaining-work invariant of the retry loop: the whole loop is what was done so far followed
   * by the loop with left attempts to go from the current store and script.
   */
  predicate Remaining(whole: Attempts, attempt: Attempt, store: Store, faults: seq<Option<Error>>, left: nat,
                      issued: seq<Call>, outcomes: seq<Option<Error>>, sleeps: nat)
  {
    var rest := Retry(attempt, store, faults, left);
    whole == Attempts(rest.store, rest.faults, issued + rest.issued, outcomes + rest.outcomes,
                      rest.escaped, sleeps + rest.sleeps)
  }

  /** At an attempt that ends the loop, the whole loop is known. */
  lemma RetryStops(whole: Attempts, attempt: Attempt, store: Store, faults: seq<Option<Error>>, left: nat,
                   issued: seq<Call>, outcomes: seq<Option<Error>>, sleeps: nat, run: Run)
    requires left > 0 && run == attempt(store, faults) && run.err != Some(InUse)
    requires Remaining(whole, attempt, store, faults, left, issued, outcomes, sleeps)
    ensures whole == Attempts(run.store, run.faults, issued + run.issued, outcomes + [run.err], run.err, sleeps)
  {
  }

  /** An attempt that failed with "in use" leaves one attempt less to go. */
  lemma RetryContinues(whole: Attempts, attempt: Attempt, store: Store, faults: seq<Option<Error>>, left: nat,
                       issued: seq<Call>, outcomes: seq<Option<Error>>, sleeps: nat, run: Run)
    requires left > 0 && run == attempt(store, faults) && run.err == Some(InUse)
    requires Remaining(whole, attempt, store, faults, left, issued, outcomes, sleeps)
    ensures Remaining(whole, attempt, run.store, run.faults, left - 1, issued + run.issued, outcomes + [run.err], sleeps + 1)
  {
    var rest := Retry(attempt, run.store, run.faults, left - 1);
    assert issued + (run.issued + rest.issued) == (issued + run.issued) + rest.issued;
    assert outcomes + ([run.err] + rest.outcomes) == (outcomes + [run.err]) + rest.outcomes;
  }

  /** With no attempt left, the whole loop is what was done so far. */
  lemma RetryDone(whole: Attempts, attempt: Attempt, store: Store, faults: seq<Option<Error>>,
                  issued: seq<Call>, outcomes: seq<Option<Error>>, sleeps: nat)
    requires Remaining(whole, attempt, store, faults, 0, issued, outcomes, sleeps)
    ensures whole == Attempts(store, faults, issued, outcomes, None, sleeps)
  {
  }

  // ---------------------------------------------------------------------------------------------
  // The neutron cleanup of tearDown

  /**
   * Whatever fails, the cleanup deletes only prefixed records: it adds none, keeps every record
   * without the prefix and keeps ids unique.
   */
  lemma NeutronCleanupSafe(store: Store, faults: seq<Option<Error>>, prefix: string)
    requires AllUnique(store)
    ensures var a := NeutronCleanup(store, faults, prefix);
      && a.store.Keys == store.Keys
      && (forall k, r :: k in store && r in a.store[k] ==> r in store[k])
      && (forall k, r :: k in store && r in store[k] && !StartsWith(r.name, prefix) ==> r in a.store[k])
      && AllUnique(a.store)
  {
    var attempt := DeletePrefixedAttempt(prefix);
    forall s, f | AllUnique(s)
      ensures Shrunk(s, attempt(s, f).store, prefix)
    {
      DeletePrefixedSafe(s, f, prefix);
    }
    RetryShrinks(attempt, store, faults, CleanupRetries, prefix);
  }

  /** A failure script whose first k entries are "in use". */
  lemma InUsePrefix(faults: seq<Option<Error>>, k: nat, j: nat)
    requires j < k <= |faults| && forall i :: 0 <= i < k ==> faults[i] == Some(InUse)
    ensures NextFault(Drop(faults, j)) == Some(InUse) && Advance(Drop(faults, j)) == Drop(faults, j + 1)
  {
  }

  /**
   * The script starts with k "in use" failures and then stays quiet for a whole plan, against a
   * store whose prefixed records are listable, have unique ids and give the plan a first call.
   */
  predicate InUseThenQuiet(store: Store, faults: seq<Option<Error>>, prefix: string, k: nat) {
    && Listable(store, CleanupOrder) && AllUnique(store)
    && Plan(store, CleanupOrder, prefix) != []
    && k <= |faults| && (forall i :: 0 <= i < k ==> faults[i] == Some(InUse))
    && Quiet(faults[k..], |Plan(store, CleanupOrder, prefix)|)
  }

  /**
   * Under such a script the first k runs of cosmo_delete_prefixed fail at their first delete and
   * change nothing, and the next one deletes every prefixed record.
   */
  lemma DeletePrefixedInUseThenCleanRuns(store: Store, faults: seq<Option<Error>>, prefix: string, k: nat)
    requires InUseThenQuiet(store, faults, prefix, k)
    ensures forall j :: 0 <= j < k ==>
              DeletePrefixedAttempt(prefix)(store, Drop(faults, j))
                == Run(store, Drop(faults, j + 1), [Plan(store, CleanupOrder, prefix)[0]], Some(InUse))
    ensures var run := DeletePrefixedAttempt(prefix)(store, Drop(faults, k));
      && run.err.None?
      && run.store == Cleaned(store, CleanupOrder, prefix)
      && run.issued == Plan(store, CleanupOrder, prefix)
  {
    forall j | 0 <= j < k
      ensures DeletePrefixedAttempt(prefix)(store, Drop(faults, j))
                == Run(store, Drop(faults, j + 1), [Plan(store, CleanupOrder, prefix)[0]], Some(InUse))
    {
      InUsePrefix(faults, k, j);
      DeletePrefixedFirstFault(store, Drop(faults, j), prefix);
    }
    assert Drop(faults, k) == faults[k..];
    DeletePrefixedClean(store, faults[k..], prefix);
    DeletePrefixedOrder(store, faults[k..], prefix);
  }

  /**
   * k runs failing with "in use" on their first delete, then a run in which nothing fails: the
   * cleanup makes k + 1 attempts, pauses k times, raises nothing and leaves no prefixed port,
   * router, network or subnet; each failed attempt issued only the first delete of the plan.
   */
  lemma NeutronCleanupInUseThenClean(store: Store, faults: seq<Option<Error>>, prefix: string, k: nat)
    requires k < CleanupRetries && InUseThenQuiet(store, faults, prefix, k)
    ensures var plan := Plan(store, CleanupOrder, prefix);
            var a := NeutronCleanup(store, faults, prefix);
      && a.outcomes == Repeat(Some(InUse), k) + [None]
      && a.sleeps == k
      && a.escaped.None?
      && a.store == Cleaned(store, CleanupOrder, prefix)
      && a.issued == Repeat(plan[0], k) + plan
  {
    DeletePrefixedInUseThenCleanRuns(store, faults, prefix, k);
    DropNone(faults);
    RetryInUseThenDone(DeletePrefixedAttempt(prefix), store, faults, 0, k, CleanupRetries, Plan(store, CleanupOrder, prefix)[0]);
  }

  /**
   * When each of the CLEANUP_RETRIES runs fails with "in use" on its first delete, the cleanup gives
   * up silently: every attempt made, a pause after each, nothing raised and nothing deleted.
   */
  lemma NeutronCleanupExhausted(store: Store, faults: seq<Option<Error>>, prefix: string)
    requires Listable(store, CleanupOrder) && Plan(store, CleanupOrder, prefix) != []
    requires CleanupRetries <= |faults| && forall i :: 0 <= i < CleanupRetries ==> faults[i] == Some(InUse)
    ensures var a := NeutronCleanup(store, faults, prefix);
      && a.outcomes == Repeat(Some(InUse), CleanupRetries)
      && a.sleeps == CleanupRetries
      && a.escaped.None?
      && a.store == store
      && a.issued == Repeat(Plan(store, CleanupOrder, prefix)[0], CleanupRetries)
  {
    var plan := Plan(store, CleanupOrder, prefix);
    var attempt := DeletePrefixedAttempt(prefix);
    forall j | 0 <= j < CleanupRetries
      ensures attempt(store, Drop(faults, j)) == Run(store, Drop(faults, j + 1), [plan[0]], Some(InUse))
    {
      InUsePrefix(faults, CleanupRetries, j);
      DeletePrefixedFirstFault(store, Drop(faults, j), prefix);
    }
    DropNone(faults);
    RetryAllInUse(attempt, store, faults, 0, CleanupRetries, plan[0]);
  }

  /**
   * The j-th cleanup attempt is a run of cosmo_delete_prefixed from the store and script the earlier
   * ones left: when that script fails its n-th call with "in use", the attempt fails with "in use"
   * after deleting exactly the first n records of its plan.
   */
  lemma NeutronCleanupAttemptInUse(store: Store, faults: seq<Option<Error>>, prefix: string, j: nat, n: nat)
    requires var s := Before(DeletePrefixedAttempt(prefix), store, faults, j);
      && Listable(s.0, CleanupOrder) && AllUnique(s.0)
      && n < |Plan(s.0, CleanupOrder, prefix)| && n < |s.1| && Quiet(s.1, n) && s.1[n] == Some(InUse)
    ensures var s := Before(DeletePrefixedAttempt(prefix), store, faults, j);
            var run := Nth(DeletePrefixedAttempt(prefix), store, faults, j);
      && run.err == Some(InUse)
      && run.issued == Plan(s.0, CleanupOrder, prefix)[..n + 1]
      && run.store == Applied(s.0, Plan(s.0, CleanupOrder, prefix)[..n])
  {
    var s := Before(DeletePrefixedAttempt(prefix), store, faults, j);
    DeletePrefixedStopsAt(s.0, s.1, prefix, n);
  }

  /**
   * Cleanup attempts 0 .. k - 1 fail with "in use", after deleting whatever they reached, and
   * attempt k does not: k + 1 attempts, k pauses, attempt k's outcome escapes tearDown, and the
   * store is the one attempt k left.
   */
  lemma NeutronCleanupUntil(store: Store, faults: seq<Option<Error>>, prefix: string, k: nat)
    requires k < CleanupRetries
    requires forall j :: 0 <= j < k ==> Nth(DeletePrefixedAttempt(prefix), store, faults, j).err == Some(InUse)
    requires Nth(DeletePrefixedAttempt(prefix), store, faults, k).err != Some(InUse)
    ensures var a := NeutronCleanup(store, faults, prefix);
            var last := Nth(DeletePrefixedAttempt(prefix), store, faults, k);
      && a.outcomes == Repeat(Some(InUse), k) + [last.err]
      && a.sleeps == k
      && a.escaped == last.err
      && a.store == last.store
      && a.issued == IssuedBefore(DeletePrefixedAttempt(prefix), store, faults, k) + last.issued
  {
    RetryUntil(DeletePrefixedAttempt(prefix), store, faults, k, CleanupRetries);
  }

  /**
   * All CLEANUP_RETRIES cleanup attempts fail with "in use", after deleting whatever they reached:
   * the cleanup gives up silently after a pause per attempt, with the store the last attempt left.
   */
  lemma NeutronCleanupGivesUp(store: Store, faults: seq<Option<Error>>, prefix: string)
    requires forall j :: 0 <= j < CleanupRetries ==> Nth(DeletePrefixedAttempt(prefix), store, faults, j).err == Some(InUse)
    ensures var a := NeutronCleanup(store, faults, prefix);
      && a.outcomes == Repeat(Some(InUse), CleanupRetries)
      && a.sleeps == CleanupRetries
      && a.escaped.None?
      && a.store == Before(DeletePrefixedAttempt(prefix), store, faults, CleanupRetries).0
      && a.issued == IssuedBefore(DeletePrefixedAttempt(prefix), store, faults, CleanupRetries)
  {
    RetryGivesUp(DeletePrefixedAttempt(prefix), store, faults, CleanupRetries);
  }
}
