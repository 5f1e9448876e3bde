/**
 * Properties of the version-cookie rule matcher, stated about its
 * specification `Houston.CookieName` (which the method is proved equal to).
 *
 * A "qualifying triple" (i, j, k) is a rule index, a light constraint of
 * that rule that routes to the cluster with no bound metadata, and a
 * cookie-to-version match of the same rule.
 */
module RuleMatcherLemmas {
  import opened Wrappers
  import opened Houston

  ghost predicate IsTriple(rules: seq<Rule>, cluster: Cluster, i: int, j: int, k: int) {
    && 0 <= i < |rules|
    && 0 <= j < |rules[i].light|
    && 0 <= k < |rules[i].matches|
    && Qualifies(rules[i].light[j], cluster)
    && IsVersionCookie(rules[i].matches[k])
  }

  /** (i2, j2, k2) comes after (i, j, k) in traversal order. */
  ghost predicate After(i: int, j: int, k: int, i2: int, j2: int, k2: int) {
    i2 > i || (i2 == i && j2 > j) || (i2 == i && j2 == j && k2 > k)
  }

  ghost predicate HasTriple(rules: seq<Rule>, cluster: Cluster) {
    exists i, j, k :: IsTriple(rules, cluster, i, j, k)
  }

  // ---------------------------------------------------------------------
  // The recorded sequences split over concatenation

  lemma {:induction false} RecordedInMatchesAppend(a: seq<Match>, b: seq<Match>)
    ensures RecordedInMatches(a + b) == RecordedInMatches(a) + RecordedInMatches(b)
    decreases |b|
  {
    if |b| == 0 {
      assert a + b == a;
    } else {
      var b' := b[..|b| - 1];
      assert (a + b)[..|a + b| - 1] == a + b';
      RecordedInMatchesAppend(a, b');
    }
  }

  lemma {:induction false} RecordedInConstraintsAppend(a: seq<Constraint>, b: seq<Constraint>, ms: seq<Match>, cluster: Cluster)
    ensures RecordedInConstraints(a + b, ms, cluster)
         == RecordedInConstraints(a, ms, cluster) + RecordedInConstraints(b, ms, cluster)
    decreases |b|
  {
    if |b| == 0 {
      assert a + b == a;
    } else {
      var b' := b[..|b| - 1];
      assert (a + b)[..|a + b| - 1] == a + b';
      RecordedInConstraintsAppend(a, b', ms, cluster);
    }
  }

  lemma {:induction false} RecordedAppend(a: seq<Rule>, b: seq<Rule>, cluster: Cluster)
    ensures Recorded(a + b, cluster) == Recorded(a, cluster) + Recorded(b, cluster)
    decreases |b|
  {
    if |b| == 0 {
      assert a + b == a;
    } else {
      var b' := b[..|b| - 1];
      assert (a + b)[..|a + b| - 1] == a + b';
      RecordedAppend(a, b', cluster);
    }
  }

  // ---------------------------------------------------------------------
  // What the recorded sequences contain

  /** A name is written while scanning matches iff some cookie-to-version match has it as `from.key`. */
  lemma {:induction false} RecordedInMatchesMembership(ms: seq<Match>, n: string)
    ensures n in RecordedInMatches(ms)
        <==> exists k :: 0 <= k < |ms| && IsVersionCookie(ms[k]) && ms[k].fromKey == n
  {
    if |ms| > 0 {
      var ms' := ms[..|ms| - 1];
      RecordedInMatchesMembership(ms', n);
      if n in RecordedInMatches(ms') {
        var k :| 0 <= k < |ms'| && IsVersionCookie(ms'[k]) && ms'[k].fromKey == n;
        assert ms[k] == ms'[k];
      }
      if exists k :: 0 <= k < |ms| && IsVersionCookie(ms[k]) && ms[k].fromKey == n {
        var k :| 0 <= k < |ms| && IsVersionCookie(ms[k]) && ms[k].fromKey == n;
        if k < |ms| - 1 {
          assert ms'[k] == ms[k];
        }
      }
    }
  }

  /** The constraint scan writes the match scan's names iff some constraint qualifies, and nothing otherwise. */
  lemma {:induction false} RecordedInConstraintsMembership(ls: seq<Constraint>, ms: seq<Match>, cluster: Cluster, n: string)
    ensures n in RecordedInConstraints(ls, ms, cluster)
        <==> (exists j :: 0 <= j < |ls| && Qualifies(ls[j], cluster)) && n in RecordedInMatches(ms)
  {
    if |ls| > 0 {
      var ls' := ls[..|ls| - 1];
      RecordedInConstraintsMembership(ls', ms, cluster, n);
      if exists j :: 0 <= j < |ls'| && Qualifies(ls'[j], cluster) {
        var j :| 0 <= j < |ls'| && Qualifies(ls'[j], cluster);
        assert ls[j] == ls'[j];
      }
      if exists j :: 0 <= j < |ls| && Qualifies(ls[j], cluster) {
        var j :| 0 <= j < |ls| && Qualifies(ls[j], cluster);
        if j < |ls| - 1 {
          assert ls'[j] == ls[j];
        }
      }
    }
  }

  /** A name is written by the whole traversal iff it is the `from.key` of a qualifying triple. */
  lemma {:induction false} RecordedMembership(rules: seq<Rule>, cluster: Cluster, n: string)
    ensures n in Recorded(rules, cluster)
        <==> exists i, j, k :: IsTriple(rules, cluster, i, j, k) && rules[i].matches[k].fromKey == n
  {
    if |rules| > 0 {
      var rs := rules[..|rules| - 1];
      var r := rules[|rules| - 1];
      RecordedMembership(rs, cluster, n);
      RecordedInConstraintsMembership(r.light, r.matches, cluster, n);
      RecordedInMatchesMembership(r.matches, n);
      if n in Recorded(rs, cluster) {
        var i, j, k :| IsTriple(rs, cluster, i, j, k) && rs[i].matches[k].fromKey == n;
        assert rules[i] == rs[i];
        assert IsTriple(rules, cluster, i, j, k);
      }
      if n in RecordedInRule(r, cluster) {
        var j :| 0 <= j < |r.light| && Qualifies(r.light[j], cluster);
        var k :| 0 <= k < |r.matches| && IsVersionCookie(r.matches[k]) && r.matches[k].fromKey == n;
        assert IsTriple(rules, cluster, |rules| - 1, j, k);
      }
      if exists i, j, k :: IsTriple(rules, cluster, i, j, k) && rules[i].matches[k].fromKey == n {
        var i, j, k :| IsTriple(rules, cluster, i, j, k) && rules[i].matches[k].fromKey == n;
        if i < |rules| - 1 {
          assert rs[i] == rules[i];
          assert IsTriple(rs, cluster, i, j, k);
        } else {
          assert n in RecordedInMatches(r.matches);
        }
      }
    }
  }

  // ---------------------------------------------------------------------
  // The result exists exactly when a qualifying triple does, and names one

  /** The result is Some exactly when a qualifying triple exists. */
  lemma {:induction false} FoundIffTriple(sharedRules: SharedRules, cluster: Cluster)
    ensures CookieName(sharedRules, cluster).Some?
        <==> sharedRules.rules.Some? && HasTriple(sharedRules.rules.value, cluster)
  {
    if sharedRules.rules.Some? {
      var rules := sharedRules.rules.value;
      if HasTriple(rules, cluster) {
        var i, j, k :| IsTriple(rules, cluster, i, j, k);
        RecordedMembership(rules, cluster, rules[i].matches[k].fromKey);
      }
      if CookieName(sharedRules, cluster).Some? {
        var s := Recorded(rules, cluster);
        RecordedMembership(rules, cluster, s[|s| - 1]);
      }
    }
  }

  /** A found name is the `from.key` of a cookie-to-version match in a rule with a qualifying light constraint. */
  lemma {:induction false} FoundNameComesFromTriple(sharedRules: SharedRules, cluster: Cluster, n: string)
    requires CookieName(sharedRules, cluster) == Some(n)
    ensures sharedRules.rules.Some?
    ensures exists i, j, k :: IsTriple(sharedRules.rules.value, cluster, i, j, k)
                           && sharedRules.rules.value[i].matches[k].fromKey == n
  {
    var s := Recorded(sharedRules.rules.value, cluster);
    RecordedMembership(sharedRules.rules.value, cluster, s[|s| - 1]);
  }

  // ---------------------------------------------------------------------
  // Last match wins

  /** A qualifying constraint makes the constraint scan end with the match scan. */
  lemma {:induction false} QualifyingConstraintEndsWithMatches(ls: seq<Constraint>, ms: seq<Match>, cluster: Cluster, j: int)
    returns (prefix: seq<string>)
    requires 0 <= j < |ls| && Qualifies(ls[j], cluster)
    ensures RecordedInConstraints(ls, ms, cluster) == prefix + RecordedInMatches(ms)
  {
    var ls' := ls[..|ls| - 1];
    if Qualifies(ls[|ls| - 1], cluster) {
      prefix := RecordedInConstraints(ls', ms, cluster);
    } else {
      assert ls'[j] == ls[j];
      prefix := QualifyingConstraintEndsWithMatches(ls', ms, cluster, j);
    }
  }

  /** Matches without a cookie-to-version match write nothing. */
  lemma {:induction false} NoCookieRecordsNothing(ms: seq<Match>)
    requires forall k :: 0 <= k < |ms| ==> !IsVersionCookie(ms[k])
    ensures RecordedInMatches(ms) == []
  {
    if |ms| > 0 {
      NoCookieRecordsNothing(ms[..|ms| - 1]);
    }
  }

  /** With k the last cookie-to-version match, the match scan ends with its `from.key`. */
  lemma {:induction false} LastCookieMatch(ms: seq<Match>, k: int)
    requires 0 <= k < |ms| && IsVersionCookie(ms[k])
    requires forall k2 :: k < k2 < |ms| ==> !IsVersionCookie(ms[k2])
    ensures Last(RecordedInMatches(ms)) == Some(ms[k].fromKey)
  {
    var head, tail := ms[..k + 1], ms[k + 1..];
    assert ms == head + tail;
    assert forall k2 :: 0 <= k2 < |tail| ==> tail[k2] == ms[k + 1 + k2];
    NoCookieRecordsNothing(tail);
    RecordedInMatchesAppend(head, tail);
    assert head[..k] == ms[..k];
    assert RecordedInMatches(head) == RecordedInMatches(ms[..k]) + [ms[k].fromKey];
  }

  /** Rules without a qualifying triple write nothing. */
  lemma {:induction false} NoTripleRecordsNothing(rules: seq<Rule>, cluster: Cluster)
    requires !HasTriple(rules, cluster)
    ensures Recorded(rules, cluster) == []
  {
    if Recorded(rules, cluster) != [] {
      RecordedMembership(rules, cluster, Recorded(rules, cluster)[0]);
    }
  }

  /**
   * Last match wins: when (i, j, k) is the last qualifying triple in
   * traversal order (rules, then light constraints, then matches), the
   * result is that match's `from.key`.
   */
  lemma {:induction false} LastTripleWins(rules: seq<Rule>, cluster: Cluster, i: int, j: int, k: int)
    requires IsTriple(rules, cluster, i, j, k)
    requires forall i2, j2, k2 :: IsTriple(rules, cluster, i2, j2, k2) ==> !After(i, j, k, i2, j2, k2)
    ensures CookieName(SharedRules(Some(rules)), cluster) == Some(rules[i].matches[k].fromKey)
  {
    var r := rules[i];
    var later := rules[i + 1..];
    forall i2, j2, k2 | IsTriple(later, cluster, i2, j2, k2)
      ensures false
    {
      assert later[i2] == rules[i + 1 + i2];
      assert IsTriple(rules, cluster, i + 1 + i2, j2, k2);
    }
    NoTripleRecordsNothing(later, cluster);
    assert rules == rules[..i + 1] + later;
    RecordedAppend(rules[..i + 1], later, cluster);
    assert rules[..i + 1][..i] == rules[..i];
    forall k2 | k < k2 < |r.matches| ensures !IsVersionCookie(r.matches[k2]) {
      assert IsVersionCookie(r.matches[k2]) ==> IsTriple(rules, cluster, i, j, k2);
    }
    LastCookieMatch(r.matches, k);
    var prefix := QualifyingConstraintEndsWithMatches(r.light, r.matches, cluster, j);
    assert Recorded(rules, cluster)
        == (Recorded(rules[..i], cluster) + prefix) + RecordedInMatches(r.matches);
  }

  /**
   * Appending a rule with a qualifying light constraint and a
   * cookie-to-version match makes that rule's last such match the result,
   * whatever the earlier rules say.
   */
  lemma {:induction false} AppendedRuleWins(rules: seq<Rule>, r: Rule, cluster: Cluster, j: int, k: int)
    requires 0 <= j < |r.light| && Qualifies(r.light[j], cluster)
    requires 0 <= k < |r.matches| && IsVersionCookie(r.matches[k])
    requires forall k2 :: k < k2 < |r.matches| ==> !IsVersionCookie(r.matches[k2])
    ensures CookieName(SharedRules(Some(rules + [r])), cluster) == Some(r.matches[k].fromKey)
  {
    assert (rules + [r])[..|rules|] == rules;
    LastCookieMatch(r.matches, k);
    var prefix := QualifyingConstraintEndsWithMatches(r.light, r.matches, cluster, j);
    assert Recorded(rules + [r], cluster)
        == (Recorded(rules, cluster) + prefix) + RecordedInMatches(r.matches);
  }

  /**
   * Last match wins, compositionally: the result for `a + b` is the result
   * for `b` when `b` names a cookie, and the result for `a` otherwise.
   */
  lemma {:induction false} ConcatenatedRules(a: seq<Rule>, b: seq<Rule>, cluster: Cluster)
    ensures CookieName(SharedRules(Some(a + b)), cluster)
         == if CookieName(SharedRules(Some(b)), cluster).Some?
            then CookieName(SharedRules(Some(b)), cluster)
            else CookieName(SharedRules(Some(a)), cluster)
  {
    RecordedAppend(a, b, cluster);
  }

  // ---------------------------------------------------------------------
  // Irrelevant parts of the document do not matter

  function RemoveAt<T>(s: seq<T>, p: int): seq<T>
    requires 0 <= p < |s|
  {
    s[..p] + s[p + 1..]
  }

  /** The constraint scan depends on the matches only through the names they write. */
  lemma {:induction false} RecordedInConstraintsByMatches(ls: seq<Constraint>, ms1: seq<Match>, ms2: seq<Match>, cluster: Cluster)
    requires RecordedInMatches(ms1) == RecordedInMatches(ms2)
    ensures RecordedInConstraints(ls, ms1, cluster) == RecordedInConstraints(ls, ms2, cluster)
  {
    if |ls| > 0 {
      RecordedInConstraintsByMatches(ls[..|ls| - 1], ms1, ms2, cluster);
    }
  }

  /** Rule i's part of the traversal is the only one that changes when rule i is replaced. */
  lemma {:induction false} ReplaceRule(rules: seq<Rule>, cluster: Cluster, i: int, r: Rule)
    requires 0 <= i < |rules|
    requires RecordedInRule(r, cluster) == RecordedInRule(rules[i], cluster)
    ensures Recorded(rules[i := r], cluster) == Recorded(rules, cluster)
  {
    var rules' := rules[i := r];
    assert rules == rules[..i] + [rules[i]] + rules[i + 1..];
    assert rules' == rules[..i] + [r] + rules[i + 1..];
    RecordedAppend(rules[..i] + [rules[i]], rules[i + 1..], cluster);
    RecordedAppend(rules[..i], [rules[i]], cluster);
    RecordedAppend(rules[..i] + [r], rules[i + 1..], cluster);
    RecordedAppend(rules[..i], [r], cluster);
    assert [r][..0] == [] && [rules[i]][..0] == [];
  }

  /** Removing a match that is not cookie-to-version never changes the result. */
  lemma {:induction false} RemovingOtherMatchKeepsName(rules: seq<Rule>, cluster: Cluster, i: int, p: int)
    requires 0 <= i < |rules| && 0 <= p < |rules[i].matches|
    requires !IsVersionCookie(rules[i].matches[p])
    ensures CookieName(SharedRules(Some(rules[i := Rule(rules[i].light, RemoveAt(rules[i].matches, p))])), cluster)
         == CookieName(SharedRules(Some(rules)), cluster)
  {
    var ms := rules[i].matches;
    assert ms == ms[..p] + [ms[p]] + ms[p + 1..];
    RecordedInMatchesAppend(ms[..p] + [ms[p]], ms[p + 1..]);
    RecordedInMatchesAppend(ms[..p], [ms[p]]);
    RecordedInMatchesAppend(ms[..p], ms[p + 1..]);
    assert [ms[p]][..0] == [];
    assert RecordedInMatches([ms[p]]) == [];
    RecordedInConstraintsByMatches(rules[i].light, RemoveAt(ms, p), ms, cluster);
    ReplaceRule(rules, cluster, i, Rule(rules[i].light, RemoveAt(ms, p)));
  }

  /**
   * Removing a light constraint that does not qualify (it routes to another
   * cluster, or it carries bound metadata) never changes the result.
   */
  lemma {:induction false} RemovingOtherConstraintKeepsName(rules: seq<Rule>, cluster: Cluster, i: int, p: int)
    requires 0 <= i < |rules| && 0 <= p < |rules[i].light|
    requires rules[i].light[p].clusterKey != cluster.clusterKey || |rules[i].light[p].metadata| != 0
    ensures CookieName(SharedRules(Some(rules[i := Rule(RemoveAt(rules[i].light, p), rules[i].matches)])), cluster)
         == CookieName(SharedRules(Some(rules)), cluster)
  {
    var ls, ms := rules[i].light, rules[i].matches;
    assert ls == ls[..p] + [ls[p]] + ls[p + 1..];
    RecordedInConstraintsAppend(ls[..p] + [ls[p]], ls[p + 1..], ms, cluster);
    RecordedInConstraintsAppend(ls[..p], [ls[p]], ms, cluster);
    RecordedInConstraintsAppend(ls[..p], ls[p + 1..], ms, cluster);
    assert [ls[p]][..0] == [];
    assert RecordedInConstraints([ls[p]], ms, cluster) == [];
    ReplaceRule(rules, cluster, i, Rule(RemoveAt(ls, p), ms));
  }

  // ---------------------------------------------------------------------
  // The cluster key is the only join between rules and clusters

  lemma {:induction false} RecordedInConstraintsByKey(ls: seq<Constraint>, ms: seq<Match>, c1: Cluster, c2: Cluster)
    requires c1.clusterKey == c2.clusterKey
    ensures RecordedInConstraints(ls, ms, c1) == RecordedInConstraints(ls, ms, c2)
  {
    if |ls| > 0 {
      RecordedInConstraintsByKey(ls[..|ls| - 1], ms, c1, c2);
    }
  }

  /** Two clusters with the same `cluster_key` get the same cookie name; instances play no part. */
  lemma {:induction false} OnlyClusterKeyMatters(sharedRules: SharedRules, c1: Cluster, c2: Cluster)
    requires c1.clusterKey == c2.clusterKey
    ensures CookieName(sharedRules, c1) == CookieName(sharedRules, c2)
  {
    if sharedRules.rules.Some? {
      RecordedByKey(sharedRules.rules.value, c1, c2);
    }
  }

  lemma {:induction false} RecordedByKey(rules: seq<Rule>, c1: Cluster, c2: Cluster)
    requires c1.clusterKey == c2.clusterKey
    ensures Recorded(rules, c1) == Recorded(rules, c2)
  {
    if |rules| > 0 {
      RecordedByKey(rules[..|rules| - 1], c1, c2);
      var r := rules[|rules| - 1];
      RecordedInConstraintsByKey(r.light, r.matches, c1, c2);
    }
  }
}
