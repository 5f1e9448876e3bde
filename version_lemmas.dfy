/**
 * Properties of the version collector, stated about its specification
 * `Houston.ClusterVersions` (which the method is proved equal to).
 */
module VersionLemmas {
  import opened Houston

  /** A value is collected from `md` iff some `version` entry of `md` carries it. */
  lemma {:induction false} EntryVersionsMembership(md: seq<Entry>, v: string)
    ensures v in EntryVersions(md) <==> exists q :: 0 <= q < |md| && md[q].key == VersionKey && md[q].value == v
  {
    if |md| > 0 {
      var md' := md[..|md| - 1];
      EntryVersionsMembership(md', v);
      if v in EntryVersions(md') {
        var q :| 0 <= q < |md'| && md'[q].key == VersionKey && md'[q].value == v;
        assert md[q] == md'[q];
      }
      if exists q :: 0 <= q < |md| && md[q].key == VersionKey && md[q].value == v {
        var q :| 0 <= q < |md| && md[q].key == VersionKey && md[q].value == v;
        if q < |md| - 1 {
          assert md'[q] == md[q];
        }
      }
    }
  }

  /** A version is collected iff some instance in the list advertises it. */
  lemma {:induction false} InstanceVersionsMembership(instances: seq<Instance>, v: string)
    ensures v in InstanceVersions(instances)
        <==> exists inst :: inst in instances && v in EntryVersions(inst.metadata)
  {
    if |instances| > 0 {
      var rest := instances[..|instances| - 1];
      InstanceVersionsMembership(rest, v);
      if exists inst :: inst in instances && v in EntryVersions(inst.metadata) {
        var inst :| inst in instances && v in EntryVersions(inst.metadata);
        if inst != instances[|instances| - 1] {
          var p :| 0 <= p < |instances| && instances[p] == inst;
          assert rest[p] == inst;
        }
      }
    }
  }

  /**
   * The collected set is exactly the values of the `version` entries of the
   * instances: entries under any other key contribute nothing.
   */
  lemma {:induction false} ClusterVersionsExactly(cluster: Cluster, v: string)
    ensures v in ClusterVersions(cluster)
        <==> && cluster.instances.Some?
             && exists p, q :: && 0 <= p < |cluster.instances.value|
                               && 0 <= q < |cluster.instances.value[p].metadata|
                               && cluster.instances.value[p].metadata[q].key == VersionKey
                               && cluster.instances.value[p].metadata[q].value == v
  {
    if cluster.instances.Some? {
      var instances := cluster.instances.value;
      InstanceVersionsMembership(instances, v);
      if v in InstanceVersions(instances) {
        var inst :| inst in instances && v in EntryVersions(inst.metadata);
        var p :| 0 <= p < |instances| && instances[p] == inst;
        EntryVersionsMembership(inst.metadata, v);
        var q :| 0 <= q < |inst.metadata| && inst.metadata[q].key == VersionKey && inst.metadata[q].value == v;
        assert instances[p].metadata[q].value == v;
      }
      if exists p, q :: && 0 <= p < |instances| && 0 <= q < |instances[p].metadata|
                        && instances[p].metadata[q].key == VersionKey && instances[p].metadata[q].value == v {
        var p, q :| && 0 <= p < |instances| && 0 <= q < |instances[p].metadata|
                    && instances[p].metadata[q].key == VersionKey && instances[p].metadata[q].value == v;
        EntryVersionsMembership(instances[p].metadata, v);
        assert instances[p] in instances;
      }
    }
  }

  /**
   * Only which instances are present matters: reordering the instance list
   * or repeating instances in it leaves the collected set unchanged.
   */
  lemma {:induction false} SameInstancesSameVersions(a: seq<Instance>, b: seq<Instance>)
    requires forall inst :: inst in a <==> inst in b
    ensures InstanceVersions(a) == InstanceVersions(b)
  {
    forall v ensures v in InstanceVersions(a) <==> v in InstanceVersions(b) {
      InstanceVersionsMembership(a, v);
      InstanceVersionsMembership(b, v);
    }
  }

  /** A permutation of the instance list yields the same set. */
  lemma {:induction false} PermutedInstancesSameVersions(a: seq<Instance>, b: seq<Instance>)
    requires multiset(a) == multiset(b)
    ensures InstanceVersions(a) == InstanceVersions(b)
  {
    forall inst ensures inst in a <==> inst in b {
      assert inst in a <==> inst in multiset(a);
      assert inst in b <==> inst in multiset(b);
    }
    SameInstancesSameVersions(a, b);
  }

  /** Collecting over two instance lists is the union of collecting over each. */
  lemma {:induction false} InstanceVersionsAppend(a: seq<Instance>, b: seq<Instance>)
    ensures InstanceVersions(a + b) == InstanceVersions(a) + InstanceVersions(b)
    decreases |b|
  {
    if |b| == 0 {
      assert a + b == a;
    } else {
      var b' := b[..|b| - 1];
      assert (a + b)[..|a + b| - 1] == a + b';
      InstanceVersionsAppend(a, b');
    }
  }

  /** Dropping a metadata entry whose key is not `version` leaves the collected set unchanged. */
  lemma {:induction false} DroppingOtherEntryKeepsVersions(instances: seq<Instance>, p: int, q: int)
    requires 0 <= p < |instances| && 0 <= q < |instances[p].metadata|
    requires instances[p].metadata[q].key != VersionKey
    ensures InstanceVersions(instances[p := Instance(instances[p].metadata[..q] + instances[p].metadata[q + 1..])])
         == InstanceVersions(instances)
  {
    var md := instances[p].metadata;
    var md' := md[..q] + md[q + 1..];
    forall v ensures v in EntryVersions(md') <==> v in EntryVersions(md) {
      EntryVersionsMembership(md, v);
      EntryVersionsMembership(md', v);
      if exists q2 :: 0 <= q2 < |md| && md[q2].key == VersionKey && md[q2].value == v {
        var q2 :| 0 <= q2 < |md| && md[q2].key == VersionKey && md[q2].value == v;
        if q2 < q {
          assert md'[q2] == md[q2];
        } else {
          assert md'[q2 - 1] == md[q2];
        }
      }
      if exists q2 :: 0 <= q2 < |md'| && md'[q2].key == VersionKey && md'[q2].value == v {
        var q2 :| 0 <= q2 < |md'| && md'[q2].key == VersionKey && md'[q2].value == v;
        if q2 < q {
          assert md'[q2] == md[q2];
        } else {
          assert md'[q2] == md[q2 + 1];
        }
      }
    }
    var instances' := instances[p := Instance(md')];
    assert instances == instances[..p] + [instances[p]] + instances[p + 1..];
    assert instances' == instances[..p] + [Instance(md')] + instances[p + 1..];
    InstanceVersionsAppend(instances[..p] + [instances[p]], instances[p + 1..]);
    InstanceVersionsAppend(instances[..p], [instances[p]]);
    InstanceVersionsAppend(instances[..p] + [Instance(md')], instances[p + 1..]);
    InstanceVersionsAppend(instances[..p], [Instance(md')]);
    assert [instances[p]][..0] == [] && [Instance(md')][..0] == [];
  }
}
