/**
 * The fixtures of test/test.js and the outcomes that suite expects of them,
 * stated about the specification functions, plus one extra example of the
 * bound-metadata check (src/houston.js:28) that the suite does not cover.
 */
module Fixtures {
  import opened Wrappers
  import opened Houston

  const ClusterKey := "ck1"
  const InstanceVersion := "1.0"
  const SecondInstanceVersion := "1.1"
  const ServiceCookie := "service-version"

  /** `{}`: no `rules` field. */
  const EmptySharedRules := SharedRules(None)

  /** `{}`: no `cluster_key` and no `instances`. */
  const EmptyCluster := Cluster(None, None)

  function VersionInstance(v: string): Instance {
    Instance([Entry(VersionKey, v)])
  }

  const PopulatedCluster := Cluster(Some(ClusterKey), Some([VersionInstance(InstanceVersion)]))

  const BiggerCluster := Cluster(Some(ClusterKey), Some([
    VersionInstance(InstanceVersion),
    VersionInstance(InstanceVersion),
    VersionInstance(SecondInstanceVersion)]))

  const VersionMatch := Match(CookieKind, ServiceCookie, VersionKey)

  const VersionedSharedRules := SharedRules(Some([
    Rule([Constraint(Some(ClusterKey), [])], [VersionMatch])]))

  /** Only a `default` constraint group, which the matcher never reads: `rules` is absent. */
  const NoOverridesSharedRules := SharedRules(None)

  /** Not in test/test.js: the versioned rule with bound metadata on its light constraint. */
  const BoundSharedRules := SharedRules(Some([
    Rule([Constraint(Some(ClusterKey), [Entry("stage", "prod")])], [VersionMatch])]))

  lemma CookieNameFixtures()
    ensures CookieName(EmptySharedRules, EmptyCluster) == None
    ensures CookieName(VersionedSharedRules, PopulatedCluster) == Some(ServiceCookie)
    ensures CookieName(NoOverridesSharedRules, PopulatedCluster) == None
  {
  }

  /** A light constraint with bound metadata disqualifies the rule, even though its cluster key matches. */
  lemma BoundMetadataExample()
    ensures CookieName(BoundSharedRules, PopulatedCluster) == None
  {
    var bound := BoundSharedRules.rules.value;
    assert bound[..0] == [] && bound[0].light[..0] == [];
    assert !Qualifies(bound[0].light[0], PopulatedCluster);
    assert RecordedInConstraints(bound[0].light, bound[0].matches, PopulatedCluster) == [];
    assert Recorded(bound, PopulatedCluster) == Recorded(bound[..0], PopulatedCluster) + RecordedInRule(bound[0], PopulatedCluster);
  }

  lemma VersionFixtures()
    ensures ClusterVersions(EmptyCluster) == {}
    ensures ClusterVersions(PopulatedCluster) == {InstanceVersion}
    ensures ClusterVersions(BiggerCluster) == {InstanceVersion, SecondInstanceVersion}
    ensures |ClusterVersions(BiggerCluster)| == 2
  {
    var one := VersionInstance(InstanceVersion);
    var two := VersionInstance(SecondInstanceVersion);
    assert one.metadata[..0] == [] && two.metadata[..0] == [];
    assert EntryVersions(one.metadata) == {InstanceVersion};
    assert EntryVersions(two.metadata) == {SecondInstanceVersion};
    var bigger := BiggerCluster.instances.value;
    assert bigger[..2][..1] == [one] && bigger[..2] == [one, one] && [one][..0] == [];
    assert InstanceVersions([one]) == {InstanceVersion};
    assert InstanceVersions(bigger) == InstanceVersions([one, one]) + {SecondInstanceVersion};
    assert InstanceVersion != SecondInstanceVersion;
  }
}
