/**
 * The rule-matching and version-collecting core of the Houston browser
 * extension: given a shared-rules document and a cluster, find the cookie
 * that drives version routing to the cluster; given a cluster, collect the
 * distinct versions its instances advertise.
 *
 * Each operation is a method whose loops follow the source's nested
 * traversals, proved equal to a prefix-recursive specification function.
 */
module Houston {
  import opened Wrappers

  /** A `key`/`value` metadata pair. */
  datatype Entry = Entry(key: string, value: string)

  /** A light constraint: the cluster it routes to and its bound metadata. */
  datatype Constraint = Constraint(clusterKey: Option<string>, metadata: seq<Entry>)

  /** A match clause: `kind`, `from.key` and `to.key`. */
  datatype Match = Match(kind: string, fromKey: string, toKey: string)

  /** A shared rule: its `constraints.light` group and its `matches`. */
  datatype Rule = Rule(light: seq<Constraint>, matches: seq<Match>)

  /** A shared-rules document; `rules` may be absent. */
  datatype SharedRules = SharedRules(rules: Option<seq<Rule>>)

  /** An instance: its metadata entries. */
  datatype Instance = Instance(metadata: seq<Entry>)

  /** A cluster; both its key and its instance list may be absent. */
  datatype Cluster = Cluster(clusterKey: Option<string>, instances: Option<seq<Instance>>)

  const CookieKind := "cookie"
  const VersionKey := "version"

  // ---------------------------------------------------------------------
  // Rule matching

  /** A match that maps a cookie onto the `version` routing field. */
  predicate IsVersionCookie(m: Match) {
    m.kind == CookieKind && m.toKey == VersionKey
  }

  /** A light constraint that routes to `cluster` and carries no bound metadata. */
  predicate Qualifies(l: Constraint, cluster: Cluster) {
    l.clusterKey == cluster.clusterKey && |l.metadata| == 0
  }

  /** The cookie names written while scanning `ms`, in order. */
  function RecordedInMatches(ms: seq<Match>): seq<string> {
    if |ms| == 0 then []
    else
      var m := ms[|ms| - 1];
      RecordedInMatches(ms[..|ms| - 1]) + (if IsVersionCookie(m) then [m.fromKey] else [])
  }

  /** The cookie names written while scanning the light constraints `ls` of a rule whose matches are `ms`. */
  function RecordedInConstraints(ls: seq<Constraint>, ms: seq<Match>, cluster: Cluster): seq<string> {
    if |ls| == 0 then []
    else
      RecordedInConstraints(ls[..|ls| - 1], ms, cluster)
      + (if Qualifies(ls[|ls| - 1], cluster) then RecordedInMatches(ms) else [])
  }

  /** The cookie names written while scanning rule `r`. */
  function RecordedInRule(r: Rule, cluster: Cluster): seq<string> {
    RecordedInConstraints(r.light, r.matches, cluster)
  }

  /** The cookie names written while scanning `rules`, in traversal order. */
  function Recorded(rules: seq<Rule>, cluster: Cluster): seq<string> {
    if |rules| == 0 then []
    else Recorded(rules[..|rules| - 1], cluster) + RecordedInRule(rules[|rules| - 1], cluster)
  }

  /** The last element written, if any. */
  function Last(s: seq<string>): Option<string> {
    if |s| == 0 then None else Some(s[|s| - 1])
  }

  /**
   * The version-routing cookie of `cluster` in `sharedRules`: the last name
   * written by the traversal (last match wins), or None.
   */
  function CookieName(sharedRules: SharedRules, cluster: Cluster): Option<string> {
    if sharedRules.rules.None? then None else Last(Recorded(sharedRules.rules.value, cluster))
  }

  /**
   * getCookieNameFromSharedRules: three nested loops over rules, light
   * constraints and matches, overwriting `cookieName` at every qualifying
   * match. Nothing short-circuits, so the last write wins.
   */
  method GetCookieNameFromSharedRules(sharedRules: SharedRules, cluster: Cluster) returns (cookieName: Option<string>)
    ensures sharedRules.rules.None? || sharedRules.rules == Some([]) ==> cookieName == None
    ensures cookieName == CookieName(sharedRules, cluster)
  {
    cookieName := None;
    if sharedRules.rules.None? || |sharedRules.rules.value| == 0 {
      return None;
    }
    var rules := sharedRules.rules.value;
    for i := 0 to |rules|
      invariant cookieName == Last(Recorded(rules[..i], cluster))
    {
      var r := rules[i];
      ghost var before := Recorded(rules[..i], cluster);
      for j := 0 to |r.light|
        invariant cookieName == Last(before + RecordedInConstraints(r.light[..j], r.matches, cluster))
      {
        var l := r.light[j];
        ghost var mid := before + RecordedInConstraints(r.light[..j], r.matches, cluster);
        if l.clusterKey == cluster.clusterKey {
          if |l.metadata| == 0 {
            for k := 0 to |r.matches|
              invariant cookieName == Last(mid + RecordedInMatches(r.matches[..k]))
            {
              var m := r.matches[k];
              if m.kind == CookieKind && m.toKey == VersionKey {
                cookieName := Some(m.fromKey);
              }
              assert r.matches[..k + 1][..k] == r.matches[..k];
            }
            assert r.matches[..|r.matches|] == r.matches;
          }
        }
        assert r.light[..j + 1][..j] == r.light[..j];
      }
      assert r.light[..|r.light|] == r.light;
      assert rules[..i + 1][..i] == rules[..i];
    }
    assert rules[..|rules|] == rules;
  }

  // ---------------------------------------------------------------------
  // Version collection

  /** The values of the `version`-keyed entries of `md`. */
  function EntryVersions(md: seq<Entry>): set<string> {
    if |md| == 0 then {}
    else
      var e := md[|md| - 1];
      EntryVersions(md[..|md| - 1]) + (if e.key == VersionKey then {e.value} else {})
  }

  /** The versions advertised by `instances`. */
  function InstanceVersions(instances: seq<Instance>): set<string> {
    if |instances| == 0 then {}
    else InstanceVersions(instances[..|instances| - 1]) + EntryVersions(instances[|instances| - 1].metadata)
  }

  /** The versions of `cluster`; empty when `instances` is absent. */
  function ClusterVersions(cluster: Cluster): set<string> {
    if cluster.instances.None? then {} else InstanceVersions(cluster.instances.value)
  }

  /**
   * getInstanceVersionsFromCluster: grows a set with the value of every
   * `version` entry of every instance, when the cluster has instances.
   */
  method GetInstanceVersionsFromCluster(cluster: Cluster) returns (versions: set<string>)
    ensures cluster.instances.None? || cluster.instances == Some([]) ==> versions == {}
    ensures versions == ClusterVersions(cluster)
  {
    versions := {};
    if cluster.instances.Some? {
      var instances := cluster.instances.value;
      for p := 0 to |instances|
        invariant versions == InstanceVersions(instances[..p])
      {
        var md := instances[p].metadata;
        for q := 0 to |md|
          invariant versions == InstanceVersions(instances[..p]) + EntryVersions(md[..q])
        {
          if md[q].key == VersionKey {
            versions := versions + {md[q].value};
          }
          assert md[..q + 1][..q] == md[..q];
        }
        assert md[..|md|] == md;
        assert instances[..p + 1][..p] == instances[..p];
      }
      assert instances[..|instances|] == instances;
    }
  }
}
