# Houston rule matcher and version collector, in Dafny

Houston is a browser extension. It lets an operator pin their own browser
session to one backend instance version. It does this by setting the cookie
that the routing layer uses for version routing. The logic it depends on
is two functions in `src/houston.js`:

- `getCookieNameFromSharedRules(sharedRules, cluster)` walks every rule, then
  each of the rule's light constraints, then the rule's matches. A light
  constraint qualifies when its `cluster_key` equals the cluster's and its
  bound `metadata` is empty. Under a qualifying constraint, every match with
  kind `cookie` and `to.key` `version` overwrites the running cookie name
  with its `from.key`. Nothing short-circuits, so the last such match in
  traversal order wins. Absent or empty `rules` give `null`.
- `getInstanceVersionsFromCluster(cluster)` builds a set holding the `value`
  of every `version` entry in every instance's metadata. When `instances`
  is absent, the set is empty.

Layout:

- `wrappers.dfy`: `Option`, which stands for JavaScript's `null` and for
  absent fields.
- `houston.dfy` (module `Houston`): the documents as datatypes, plus both
  operations. Each operation is a method whose nested loops follow the
  source's nested `forEach` calls. Each method is proved equal to a pure
  prefix-recursive specification function. `CookieName` is the last element
  of `Recorded`, the sequence of names the traversal writes in order.
  `ClusterVersions` is the union of `EntryVersions` over the instances.
- `rule_matcher_lemmas.dfy`: properties of `CookieName`. They cover when a
  cookie exists, where its name comes from, that the last match wins, which
  parts of a document cannot affect the result, and that `cluster_key` is the
  only join key between rules and clusters.
- `version_lemmas.dfy`: properties of `ClusterVersions`. They cover exact
  membership, that instance order and repetition do not matter, and that
  non-`version` entries do not matter.
- `fixtures.dfy`: the fixtures of `test/test.js` with the outcomes that suite
  expects, plus one extra example of the bound-metadata check
  (`BoundMetadataExample`), which that suite does not exercise.

Modelling choices:

- `cluster_key` is an `Option<string>` on both the constraint and the
  cluster. JavaScript's `===` treats two absent keys (`undefined`) as equal,
  and `Option` equality does the same.
- Only `rules` and `instances` may be absent. `constraints.light` and an
  instance's `metadata` are read unconditionally (src/houston.js:25, 47).
  A light constraint's `metadata` is read only when its `cluster_key`
  matches (src/houston.js:26-28). A rule's `matches` is read only under a
  qualifying light constraint (src/houston.js:28-29). The code throws on
  each of these when it reads a missing field. The datatypes make all of
  these fields required. Where the code never reads one of them, a model
  value of `[]` gives the same result as the missing field.
- Both functions are deterministic and keep no state between calls. Each
  method's postcondition fixes its result as a function of its arguments, so
  two calls on equal inputs give equal results.

## Model

| member | source | states |
|---|---|---|
| `Houston.GetCookieNameFromSharedRules` | src/houston.js:16-41 | Absent or empty `rules` give None for every cluster. Otherwise the result is the last name the rules/light-constraints/matches traversal writes (`CookieName`). |
| `Houston.GetInstanceVersionsFromCluster` | src/houston.js:43-53 | Absent or empty `instances` give the empty set. Otherwise the result is the union, over the instances, of their `version` entry values (`ClusterVersions`). |
| `RuleMatcherLemmas.RecordedMembership` | src/houston.js:23-39 | The traversal writes a name iff that name is the `from.key` of a qualifying triple. A triple is a rule, one of its light constraints with the cluster's key and no metadata, and one of its cookie→version matches. |
| `RuleMatcherLemmas.FoundIffTriple` | src/houston.js:20-33 | The result is Some exactly when `rules` is present and contains a qualifying triple. |
| `RuleMatcherLemmas.FoundNameComesFromTriple` | src/houston.js:29-33 | A result Some(n) means that n is the `from.key` of a cookie→version match in a rule that has a qualifying light constraint for this cluster. |
| `RuleMatcherLemmas.LastTripleWins` | src/houston.js:23-39 | Last match wins: if (i, j, k) is a qualifying triple and no qualifying triple comes after it in traversal order, the result is the `from.key` of match k of rule i. |
| `RuleMatcherLemmas.AppendedRuleWins` | src/houston.js:23-39 | Appending a rule that has a qualifying light constraint and a cookie→version match makes that rule's last such match the result, whatever the earlier rules say. |
| `RuleMatcherLemmas.ConcatenatedRules` | src/houston.js:23-39 | The result for rules `a + b` is the result for `b` when that is Some, and the result for `a` otherwise. |
| `RuleMatcherLemmas.RemovingOtherMatchKeepsName` | src/houston.js:29-31 | Removing a match whose kind is not `cookie` or whose `to.key` is not `version` never changes the result. |
| `RuleMatcherLemmas.RemovingOtherConstraintKeepsName` | src/houston.js:25-28 | Removing a light constraint whose `cluster_key` differs from the cluster's, or whose metadata is non-empty, never changes the result. |
| `RuleMatcherLemmas.OnlyClusterKeyMatters` | src/houston.js:26 | Two clusters with the same `cluster_key` get the same result. A cluster's instances play no part. |
| `VersionLemmas.ClusterVersionsExactly` | src/houston.js:44-52 | v is collected iff `instances` is present and some metadata entry of some instance has key `version` and value v. Entries with other keys contribute nothing. |
| `VersionLemmas.SameInstancesSameVersions` | src/houston.js:46-49 | Two instance lists with the same members, in any order and with any repetition, give the same set. |
| `VersionLemmas.PermutedInstancesSameVersions` | src/houston.js:46-49 | A permutation of the instance list gives the same set. |
| `VersionLemmas.InstanceVersionsAppend` | src/houston.js:46-50 | Collecting over two concatenated instance lists gives the union of collecting over each one. |
| `VersionLemmas.DroppingOtherEntryKeepsVersions` | src/houston.js:47 | Removing a metadata entry whose key is not `version` from any instance leaves the set unchanged. |
| `Fixtures.CookieNameFixtures` | test/test.js:105-137 | Empty shared rules and no-overrides shared rules give None. The versioned rule gives `service-version` for the populated cluster. |
| `Fixtures.BoundMetadataExample` | src/houston.js:28 | An extra example, not from the test suite: the versioned rule with bound metadata on its light constraint gives None, even though the constraint's `cluster_key` matches the cluster's. |
| `Fixtures.VersionFixtures` | test/test.js:140-173 | The empty cluster gives {}. The populated cluster gives {"1.0"}. The bigger cluster (versions 1.0, 1.0, 1.1) gives {"1.0", "1.1"}, which has size 2. |

## Left out

- src/houston_crx.js is not part of this model. It holds the extension's lifecycle, context-menu construction, cookie get/set/remove through the browser, the `fetch`/JSON API client, the authorization-header choice, the cookie expiry clock, and the global `cookieNameMap`/`clusterSeenInZone` caches. All of it is host-API, network, clock and orchestration code.
- src/options.js is not part of this model. It is form handling and settings storage.
- The JavaScript `TypeError` paths are not modelled. The code throws on a missing `r.constraints` or `constraints.light` (src/houston.js:25), a missing instance `metadata` (src/houston.js:47), a missing `metadata` of a light constraint whose `cluster_key` matches (src/houston.js:28), a missing `matches` of a rule with a qualifying light constraint (src/houston.js:29), a missing `match.to` on a `cookie` match (src/houston.js:31) and a missing `match.from` on a qualifying match (src/houston.js:33). Here all of these are always present. Elsewhere the code never reads a constraint's `metadata` or a rule's `matches`, and the model's `[]` gives the same result as the missing field.
- `from.key` and an entry's `value` are always-present strings. In JavaScript, an absent `from.key` would store `undefined` as the cookie name, and an absent `value` would add `undefined` to the set.
- The model treats only an absent field as falsy. Other falsy values, such as `null` or `0`, are not distinguished for `rules` and `instances`. `null` and `undefined` as a `cluster_key` are not distinguished either. In JavaScript `null === undefined` is false, so a constraint with `cluster_key: null` never qualifies for a cluster without a key. In the model both are None, so that constraint does qualify.
- JavaScript `Set` insertion order is not modelled. The versions are a mathematical set.
