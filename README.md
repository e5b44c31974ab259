# cosmo_plugin_openstack_common: the sugar client and the test-case cleanup, in Dafny

This project models the part of `cosmo_plugin_openstack_common` that has real logic:

- **`NeutronClientWithSugar`**: pluralisation, filtered listing, exactly-one lookup, lookup by name, the name-prefix filter, and `cosmo_delete_prefixed`. That last one deletes every prefixed port, router, network and subnet, in that order.
- **The base `TestCase`**:
  - `setUp` draws the random name prefix;
  - `tearDown` deletes every prefixed server on a best-effort basis, then retries the neutron cleanup while a network is still in use;
  - `create_network` and `create_subnet` build prefixed resources.

The network and compute services are an in-memory cloud, the class `CloudDouble.Cloud`:

- Network records are kept per listing call, in a map from the plural type name (`"networks"`) to the records in listing order.
- Servers are a sequence of records.
- Each delete call takes the next entry of a failure script: `None` for "no injected failure", `Some(e)` to raise `e`. Injected failures cover the "network in use" condition and any other error. A delete that is not scripted to fail removes the record with that id, or raises NotFound when there is none.
- Every delete request is appended to a call log, so the order of deletions can be stated.

The pure parts are functions:

- `Sugar`: listing, lookup and prefix filtering.
- `Neutron`: `cosmo_delete_prefixed` as a function of the store and the script.
- `Nova`: the server pass.
- `Cleanup`: the retry loop, stated for any attempt and then instantiated with `cosmo_delete_prefixed`.

The parts of the source that loop and mutate are methods whose loop invariants tie them to those functions:

- `Cloud.DeleteListed`, `Cloud.DeleteTypesListed` and `Cloud.DeletePrefixed`;
- `TestCase.DeleteServers`, `TestCase.CleanupNetworkResources` and `TestCase.TearDown`.

The lemmas then prove these promises about the functions:

- the filter is exact;
- cardinality is checked;
- deletion follows the port, router, network, subnet order and stops at the first failure, with exactly the earlier deletes applied;
- records without the prefix are never touched;
- a cleanup without failures is complete;
- the retry loop has the behaviour its bound implies: K "in use" failures then another outcome give exactly K + 1 attempts and K sleeps, whatever the failing attempts deleted, and exhaustion returns silently.

## Model

| member | source | states |
|---|---|---|
| Sugar.Plural | cosmo_plugin_openstack_common/__init__.py:100-101 | the listing call of a type is named by the type followed by "s" |
| Sugar.PluralInjective | cosmo_plugin_openstack_common/__init__.py:100-101 | the listing name is the type plus "s", and distinct types never share one (both directions) |
| Sugar.List | cosmo_plugin_openstack_common/__init__.py:116-120 | cosmo_list succeeds exactly when list_<plural> exists; it yields exactly the records of that type matching every filter; otherwise it fails with the missing call's name |
| Sugar.ListIsSubsequence | cosmo_plugin_openstack_common/__init__.py:116-120 | a listing keeps the service's order and adds no record |
| Sugar.ListUnfiltered | cosmo_plugin_openstack_common/__init__.py:116-120 | without filters the listing is the whole type, in order |
| Sugar.Get | cosmo_plugin_openstack_common/__init__.py:106-113 | cosmo_get succeeds exactly when the filtered listing has one element, and returns a matching stored record; any other count fails with an error reporting the type, the filters and the count |
| Sugar.GetIsUnique | cosmo_plugin_openstack_common/__init__.py:106-113 | the record cosmo_get returns is the only one in the store matching the filters |
| Sugar.GetRejectsAmbiguity | cosmo_plugin_openstack_common/__init__.py:108-112 | two different matching records make cosmo_get fail with a count of at least two |
| Sugar.GetNamed | cosmo_plugin_openstack_common/__init__.py:103-104 | cosmo_get_named is cosmo_get with name added to the filters; a second "name" keyword is a call error; a returned record carries that name |
| Sugar.GetDuplicateNameExample | cosmo_plugin_openstack_common/__init__.py:103-112 | two networks named alike make cosmo_get_named fail with a count of 2 |
| Sugar.ListPrefixed | cosmo_plugin_openstack_common/__init__.py:122-125 | cosmo_list_prefixed succeeds exactly when the listing call exists; otherwise it fails with the missing call's name |
| Sugar.ListPrefixedExact | cosmo_plugin_openstack_common/__init__.py:122-125 | it yields exactly the listed records whose name starts with the prefix, as a subsequence of the listing |
| Sugar.KeepPrefixed | cosmo_plugin_openstack_common/__init__.py:124 | the records whose name starts with the prefix, in listing order |
| Sugar.KeepPrefixedIdempotent | cosmo_plugin_openstack_common/__init__.py:124 | filtering by the same prefix twice changes nothing |
| Sugar.ListPrefixedExample | cosmo_plugin_openstack_common/__init__.py:122-125 | of a network with this prefix, one with another test's prefix and a foreign network, only the first is listed |
| Neutron.DeleteError | cosmo_plugin_openstack_common/__init__.py:132 | delete_<type>(id) raises the scripted failure when there is one; otherwise it succeeds when the record exists and raises NotFound when it does not |
| Neutron.AfterDelete | cosmo_plugin_openstack_common/__init__.py:132 | a delete that goes through removes the record with that id from its type; a failing one changes nothing |
| Neutron.DeleteEach | cosmo_plugin_openstack_common/__init__.py:130-132 | the inner loop: delete each listed record in turn; the first error propagates and ends the loop |
| Neutron.DeleteTypes | cosmo_plugin_openstack_common/__init__.py:129-132 | the outer loop: list each type's prefixed records once, then delete them; a missing listing call or the first failing delete ends it |
| Neutron.DeletePrefixedRun | cosmo_plugin_openstack_common/__init__.py:127-132 | cosmo_delete_prefixed is the outer loop over port, router, network, subnet |
| Neutron.DeleteEachFollowsCalls | cosmo_plugin_openstack_common/__init__.py:130-132 | the inner loop issues a prefix of one delete per listed record, in listing order; it issues all of them when nothing fails and at least one when something fails; it consumes one script entry per call |
| Neutron.DeleteTypesFollowsPlan | cosmo_plugin_openstack_common/__init__.py:129-132 | the outer loop issues a prefix of the plan (each type's prefixed records, type after type), all of it when nothing fails |
| Neutron.DeleteTypesKeepsOthers | cosmo_plugin_openstack_common/__init__.py:129-132 | no listing call appears or disappears, and the records of types outside the loop are unchanged |
| Neutron.DeleteEachShrinks | cosmo_plugin_openstack_common/__init__.py:130-132 | deleting listed prefixed records adds no record, keeps every record without the prefix and keeps ids unique |
| Neutron.DeleteTypesShrinks | cosmo_plugin_openstack_common/__init__.py:129-132 | the same holds for the whole outer loop, whatever fails |
| Neutron.DeleteEachClean | cosmo_plugin_openstack_common/__init__.py:130-132 | with no failing call, the inner loop removes exactly the listed ids from that type |
| Neutron.DeleteEachStopsAt | cosmo_plugin_openstack_common/__init__.py:130-132 | when the first n deletes go through and the n-th fails, the inner loop issues exactly the first n + 1 deletes, raises that error, and leaves the store with the first n applied |
| Neutron.DeleteEachStopsRemoving | cosmo_plugin_openstack_common/__init__.py:130-132 | stopped at the n-th delete, exactly the first n listed records are gone from their type and nothing else changed |
| Neutron.DeleteEachApplies | cosmo_plugin_openstack_common/__init__.py:130-132 | when no delete fails, the inner loop's store is the store with every issued delete applied |
| Neutron.AppliedCalls | cosmo_plugin_openstack_common/__init__.py:130-132 | applying one type's deletes removes exactly those records' ids from that type and changes nothing else |
| Neutron.DeleteTypesClean | cosmo_plugin_openstack_common/__init__.py:129-132 | with no failing call, the outer loop leaves every listed type without its prefixed records, and everything else as it was |
| Neutron.DeleteTypesFirstFault | cosmo_plugin_openstack_common/__init__.py:129-132 | a failure on the first delete ends the loop after that single call, with the store unchanged |
| Neutron.DeleteTypesStopsAt | cosmo_plugin_openstack_common/__init__.py:129-132 | when the first n planned deletes go through and the n-th fails, the outer loop issues exactly the first n + 1 planned deletes, raises that error, and leaves the store with the first n applied, whatever type the failing delete belongs to |
| Neutron.CleanupPlanOrder | cosmo_plugin_openstack_common/__init__.py:129 | the deletes are the prefixed ports, then routers, then networks, then subnets |
| Neutron.CleanupOrderDistinct | cosmo_plugin_openstack_common/__init__.py:129 | the four types are distinct |
| Neutron.DeletePrefixedOrder | cosmo_plugin_openstack_common/__init__.py:127-132 | cosmo_delete_prefixed issues a prefix of that plan, all of it when nothing fails, at least one call when something fails, and consumes one script entry per call |
| Neutron.DeletePrefixedStopsAt | cosmo_plugin_openstack_common/__init__.py:127-132 | cosmo_delete_prefixed stops at the first failing delete: with the first n deletes of the plan going through and the n-th failing, it issues exactly n + 1 deletes, raises that error, and has applied exactly the first n |
| Neutron.DeletePrefixedSafe | cosmo_plugin_openstack_common/__init__.py:127-132 | whatever fails, cosmo_delete_prefixed adds no record, keeps every record without the prefix, leaves other types untouched and keeps ids unique |
| Neutron.DeletePrefixedClean | cosmo_plugin_openstack_common/__init__.py:127-132 | when no call fails, no prefixed port, router, network or subnet remains, and nothing else changes |
| Neutron.DeletePrefixedFirstFault | cosmo_plugin_openstack_common/__init__.py:127-132 | a failure on the first delete propagates after that one call and changes nothing |
| Nova.ServerDeleteError | cosmo_plugin_openstack_common/__init__.py:166 | server.delete() raises the scripted failure when there is one; otherwise it succeeds when the server exists and raises NotFound when it does not |
| Nova.ServerPass | cosmo_plugin_openstack_common/__init__.py:161-172 | the server pass walks the listing and requests deletion of each prefixed server, carrying on whatever the outcome |
| Nova.ServerPassCalls | cosmo_plugin_openstack_common/__init__.py:161-172 | the server pass requests deletion of exactly the prefixed servers of the listing, in order; a failed request does not stop it |
| Nova.ServerPassKeepsOthers | cosmo_plugin_openstack_common/__init__.py:161-172 | whatever fails, the pass adds no server, keeps every server without the prefix and keeps ids unique |
| Nova.ServerPassClean | cosmo_plugin_openstack_common/__init__.py:161-172 | when no deletion fails, exactly the servers without the prefix remain |
| CloudDouble.Cloud.Delete | cosmo_plugin_openstack_common/__init__.py:132 | delete_<type>(id) raises the scripted failure or NotFound, or else removes the record; it logs the call and consumes one script entry; ids stay unique |
| CloudDouble.Cloud.DeleteServer | cosmo_plugin_openstack_common/__init__.py:166 | server.delete() behaves the same way on the servers; ids stay unique |
| CloudDouble.Cloud.Create | cosmo_plugin_openstack_common/__init__.py:188-190 | create_<type>(body) appends a record with a fresh id and the body's name and fields, or fails when the call does not exist; ids stay unique |
| CloudDouble.Cloud.DeleteListed | cosmo_plugin_openstack_common/__init__.py:130-132 | the inner loop's store, script, call log and error are those of the inner-loop function; ids stay unique |
| CloudDouble.Cloud.DeleteTypePrefixed | cosmo_plugin_openstack_common/__init__.py:129-132 | one pass of the outer loop fails with the missing listing call, or deletes that type's prefixed records as the inner loop does |
| CloudDouble.Cloud.DeleteTypesListed | cosmo_plugin_openstack_common/__init__.py:129-132 | the outer loop's store, script, call log and error are those of the outer-loop function; ids stay unique |
| CloudDouble.Cloud.DeletePrefixed | cosmo_plugin_openstack_common/__init__.py:127-132 | cosmo_delete_prefixed's effect is that of the cleanup function over port, router, network, subnet; servers are untouched; ids stay unique |
| Cleanup.Retry | cosmo_plugin_openstack_common/__init__.py:173-183 | the retry loop: an attempt that fails with "in use" is followed by a sleep and the next attempt; any other outcome ends the loop; after the last attempt the loop ends silently |
| Cleanup.NeutronCleanup | cosmo_plugin_openstack_common/__init__.py:173-183 | the neutron cleanup of tearDown is that loop over cosmo_delete_prefixed with CLEANUP_RETRIES (10) attempts |
| Cleanup.RetryShape | cosmo_plugin_openstack_common/__init__.py:173-183 | at most CLEANUP_RETRIES attempts; every attempt but the last failed with "in use"; "in use" never escapes; a loop that stopped early lets the last outcome escape (None on success), after one sleep per earlier attempt; otherwise every attempt was made, each followed by a sleep, and nothing escapes |
| Cleanup.RetryShrinks | cosmo_plugin_openstack_common/__init__.py:173-183 | when no attempt adds records or removes unprefixed ones, the loop does not either |
| Cleanup.RetryInUseThenDone | cosmo_plugin_openstack_common/__init__.py:173-183 | in the special case where each failing attempt issues one call and changes nothing: K attempts failing with "in use" and then a success give K + 1 attempts, K sleeps, nothing raised, and the store of the successful attempt |
| Cleanup.RetryAllInUse | cosmo_plugin_openstack_common/__init__.py:173-183 | in the special case where each failing attempt issues one call and changes nothing: attempts that all fail with "in use" exhaust the loop silently, with one sleep per attempt and the store unchanged |
| Cleanup.RetryUntil | cosmo_plugin_openstack_common/__init__.py:173-183 | attempts 0 to K - 1 fail with "in use", whatever each deleted before failing, and attempt K does not: K + 1 attempts, K sleeps, attempt K's outcome escapes, and the loop ends with the store attempt K left and every call of the K + 1 attempts in order |
| Cleanup.RetryGivesUp | cosmo_plugin_openstack_common/__init__.py:173-183 | every attempt fails with "in use", whatever each deleted before failing: all attempts are made, each followed by a sleep, nothing escapes, and the loop ends with the store the last attempt left and every call issued in order |
| Cleanup.NeutronCleanupSafe | cosmo_plugin_openstack_common/__init__.py:173-183 | whatever fails, the neutron cleanup adds no record, keeps every record without the prefix and keeps ids unique |
| Cleanup.DeletePrefixedInUseThenCleanRuns | cosmo_plugin_openstack_common/__init__.py:127-132 | K "in use" failures and then a clean script: each of the first K runs issues one call and changes nothing, and the next removes every prefixed record |
| Cleanup.NeutronCleanupInUseThenClean | cosmo_plugin_openstack_common/__init__.py:173-183 | with K < 10 such failures, each on the first delete of a run, the cleanup makes exactly K + 1 attempts, sleeps K times, raises nothing and leaves no prefixed port, router, network or subnet |
| Cleanup.NeutronCleanupExhausted | cosmo_plugin_openstack_common/__init__.py:173-183 | when all 10 attempts fail with "in use" on their first delete, the cleanup makes 10 attempts and 10 sleeps, raises nothing and deletes nothing |
| Cleanup.NeutronCleanupAttemptInUse | cosmo_plugin_openstack_common/__init__.py:173-183 | each cleanup attempt runs cosmo_delete_prefixed from the store the earlier attempts left: when its n-th delete fails with "in use", it fails with "in use" after deleting exactly the first n records of its plan |
| Cleanup.NeutronCleanupUntil | cosmo_plugin_openstack_common/__init__.py:173-183 | cleanup attempts 0 to K - 1 (K < 10) fail with "in use", whatever they deleted first, and attempt K does not: K + 1 attempts, K sleeps, attempt K's outcome escapes tearDown, and the store is the one attempt K left |
| Cleanup.NeutronCleanupGivesUp | cosmo_plugin_openstack_common/__init__.py:173-183 | all 10 cleanup attempts fail with "in use", whatever they deleted first: 10 attempts and 10 sleeps, nothing escapes, and the store is the one the last attempt left |
| Testing.PrefixCharIndex | cosmo_plugin_openstack_common/__init__.py:153 | every upper-case letter and digit has its position in the character set |
| Testing.PrefixCharsExactly | cosmo_plugin_openstack_common/__init__.py:153 | the character set holds exactly the upper-case letters and the digits, each once |
| Testing.NamePrefix | cosmo_plugin_openstack_common/__init__.py:153-155 | the name prefix is "cosmo_test_", the drawn characters, and "_" |
| Testing.NamePrefixShape | cosmo_plugin_openstack_common/__init__.py:153-155 | every prefix setUp draws (PREFIX_RANDOM_CHARS, line 17, is 3) is "cosmo_test_", three letters or digits, and "_" (15 characters) |
| Testing.NamePrefixReachable | cosmo_plugin_openstack_common/__init__.py:153-155 | every string of that shape can be drawn |
| Testing.NamePrefixInjective | cosmo_plugin_openstack_common/__init__.py:153-155 | different draws give different prefixes (both directions) |
| Testing.PrefixesIsolate | cosmo_plugin_openstack_common/__init__.py:153-155 | a name starts with at most one prefix of that shape, so tests with different prefixes never clean up each other's resources |
| Testing.NetworkBody | cosmo_plugin_openstack_common/__init__.py:188-189 | the create_network body: the prefixed name and admin_state_up true |
| Testing.SubnetBody | cosmo_plugin_openstack_common/__init__.py:197-202 | the create_subnet body: the prefixed name, IP version 4, the cidr and the network id |
| Testing.TestCase.SetUp | cosmo_plugin_openstack_common/__init__.py:147-157 | the prefix is the drawn one and has that shape; the timeout is 120 |
| Testing.TestCase.DeleteServers | cosmo_plugin_openstack_common/__init__.py:161-172 | the servers, script and call log after the server loop are those of the server-pass function; the network store is untouched; it runs with the prefix setUp drew and keeps ids unique |
| Testing.TestCase.CleanupNetworkResources | cosmo_plugin_openstack_common/__init__.py:173-184 | the store, script, call log, escaping error and seconds slept (2 per sleep) are those of the retry-loop function; it runs with the prefix setUp drew and keeps ids unique |
| Testing.TestCase.TearDown | cosmo_plugin_openstack_common/__init__.py:159-184 | the server pass and then the neutron cleanup; calls are logged in that order; only the cleanup's escaping error is raised; it runs with the prefix setUp drew and keeps ids unique |
| Testing.TestCase.CreateNetwork | cosmo_plugin_openstack_common/__init__.py:186-190 | a new network named prefix + suffix with admin_state_up true, appended to the networks; nothing else changes |
| Testing.TestCase.CreateSubnet | cosmo_plugin_openstack_common/__init__.py:192-203 | an IPv4 subnet named prefix + suffix with the given cidr. It sits on the given network, or on a freshly created prefixed network when none is given. A failing network creation is returned as it is |

## Left out

- Client construction, authentication and configuration are not modelled: `OpenStackClient.get`, `KeystoneClient`, `NovaClient`, `NeutronClient.connect`, `with_neutron_client` and the config classes. They are wrappers over external clients. Every call in the model goes to the one in-memory cloud.
- The memoising `get_nova_client` and `get_neutron_client` only rebind attributes to those clients, so they are not modelled.
- Logging is not modelled: it has no effect on the state.
- `time.sleep` is a counter of seconds slept (`TestCase.slept`).
- `random.choice` is modelled by the indices it picks, passed to `SetUp`.
- Server deletion is immediate in the model. In the real compute service `server.delete()` is asynchronous, which is why the source retries the network cleanup.
- Listing calls fail in the model only when the call does not exist. In the source, any service error from `list_<plural>` (line 119) escapes `cosmo_delete_prefixed` and `tearDown`; the model has no script for listing calls.
- The server listing in `tearDown` cannot fail in the model. In the source, an error from `servers.list()` would escape `tearDown`.
- Creation in the model fails only when the create call does not exist. Service-side create errors (quota, bad cidr) are not modelled.
- `create_subnet` models the "no network" case only for `network=None`. The source's `if not network` also treats an empty record as missing.
- The model does not check that a network passed to `create_subnet` exists.
- Record ids are natural numbers rather than service-generated strings. Only their equality matters to the source.
- Every record has a name. A record without a `name` field, which would make `obj['name']` raise in `cosmo_list_prefixed`, is not modelled.
- The service-side listing filter is modelled as exact equality on the id, the name and the other fields. Other query semantics of the real service are not modelled.
- Router interface detachment, security-group cleanup and an undo list of created resources are not modelled: this version of the source has none of them. The cleanup order is the four hard-coded types: ports, routers, networks, subnets.
- A sleep follows every "in use" failure, including the last of the ten attempts. This follows the code, which sleeps at the end of every loop iteration that did not `break`. It is not a sleep only between attempts.
- `tearDown` requires the prefix that `setUp` drew. The test runner calls `tearDown` only after a successful `setUp`, and the empty prefix the object starts with would match every record.
