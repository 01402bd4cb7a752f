/** SimilarityDetector.find_duplicates (core/similarity.py): a greedy,
    seed-based single pass that groups signatures scoring at or above a
    threshold against a seed. Membership is tracked by name, as in the source. */
module Grouping {
  import opened Models
  import opened Similarity

  /** A pairwise score; find_duplicates uses calculate_similarity. The
      reference definition and its general properties hold for any score. */
  type Score = (GeometricSignature, GeometricSignature) -> real

  /** One (filename, signature) pair of the input list. */
  type Entry = (string, GeometricSignature)

  function Ids(entries: seq<Entry>): (ids: seq<string>)
    ensures |ids| == |entries| && forall k :: 0 <= k < |entries| ==> ids[k] == entries[k].0
  {
    seq(|entries|, k requires 0 <= k < |entries| => entries[k].0)
  }

  predicate DistinctIds(entries: seq<Entry>) {
    forall a, b :: 0 <= a < b < |entries| ==> entries[a].0 != entries[b].0
  }

  predicate NoDuplicates(s: seq<string>) {
    forall a, b :: 0 <= a < b < |s| ==> s[a] != s[b]
  }

  /** All members of all groups, in output order. */
  function Flatten(groups: seq<seq<string>>): seq<string> {
    if groups == [] then [] else Flatten(groups[..|groups| - 1]) + groups[|groups| - 1]
  }

  /** The position of the first entry with a given id. */
  function IndexOf(ids: seq<string>, x: string): (r: nat)
    requires x in ids
    ensures r < |ids| && ids[r] == x
    ensures forall k :: 0 <= k < r ==> ids[k] != x
  {
    if ids[0] == x then 0 else 1 + IndexOf(ids[1..], x)
  }

  // ---------------------------------------------------------------------------
  // Reference definition: the two loops of find_duplicates as folds.

  /** The candidate group of a seed and the grouped set, mid-scan. */
  datatype Scan = Scan(group: seq<string>, grouped: set<string>)

  /** The output list and the grouped set, between seeds. */
  datatype Pass = Pass(groups: seq<seq<string>>, grouped: set<string>)

  /** The inner loop for seed `i` after it has looked at indices 0 .. k-1,
      starting from the set `grouped` of names already taken. */
  function ScanFrom(entries: seq<Entry>, score: Score, threshold: real, i: nat, grouped: set<string>, k: nat): Scan
    requires i < |entries| && k <= |entries|
  {
    if k == 0 then Scan([entries[i].0], grouped)
    else
      var s := ScanFrom(entries, score, threshold, i, grouped, k - 1);
      var j := k - 1;
      if i != j && entries[j].0 !in s.grouped
         && score(entries[i].1, entries[j].1) >= threshold
      then Scan(s.group + [entries[j].0], s.grouped + {entries[j].0})
      else s
  }

  /** The outer loop after seeds 0 .. k-1. */
  function PassUpTo(entries: seq<Entry>, score: Score, threshold: real, k: nat): Pass
    requires k <= |entries|
  {
    if k == 0 then Pass([], {})
    else
      var p := PassUpTo(entries, score, threshold, k - 1);
      var i := k - 1;
      if entries[i].0 in p.grouped then p
      else
        var s := ScanFrom(entries, score, threshold, i, p.grouped, |entries|);
        if |s.group| > 1 then Pass(p.groups + [s.group], s.grouped + {entries[i].0})
        else Pass(p.groups, s.grouped)
  }

  /** The groups find_duplicates returns. */
  function Groups(entries: seq<Entry>, score: Score, threshold: real): seq<seq<string>> {
    PassUpTo(entries, score, threshold, |entries|).groups
  }

  // ---------------------------------------------------------------------------
  // The imperative pass.

  method FindDuplicates(signatures: seq<Entry>, threshold: real := 0.95) returns (duplicateGroups: seq<seq<string>>)
    ensures duplicateGroups == Groups(signatures, CalculateSimilarity, threshold)
    ensures signatures == [] ==> duplicateGroups == []
    ensures forall g :: g in duplicateGroups ==> |g| >= 2
    ensures forall x :: x in Flatten(duplicateGroups) ==> x in Ids(signatures)
    ensures DistinctIds(signatures) ==> NoDuplicates(Flatten(duplicateGroups))
    ensures DistinctIds(signatures) ==>
              forall g :: g in duplicateGroups ==> SeededGroup(signatures, CalculateSimilarity, threshold, g)
    ensures forall i, j :: 0 <= i < |signatures| && 0 <= j < |signatures| && i != j
              && signatures[i].0 !in Flatten(duplicateGroups) && signatures[j].0 !in Flatten(duplicateGroups)
              ==> CalculateSimilarity(signatures[i].1, signatures[j].1) < threshold
  {
    if signatures == [] {
      return [];
    }
    var grouped: set<string> := {};
    duplicateGroups := [];
    for i := 0 to |signatures|
      invariant PassUpTo(signatures, CalculateSimilarity, threshold, i) == Pass(duplicateGroups, grouped)
    {
      var (file1, sig1) := signatures[i];
      if file1 in grouped {
        continue;
      }
      var currentGroup := [file1];
      ghost var taken := grouped;
      for j := 0 to |signatures|
        invariant ScanFrom(signatures, CalculateSimilarity, threshold, i, taken, j) == Scan(currentGroup, grouped)
      {
        var (file2, sig2) := signatures[j];
        if i != j && file2 !in grouped {
          var similarity := CalculateSimilarity(sig1, sig2);
          if similarity >= threshold {
            currentGroup := currentGroup + [file2];
            grouped := grouped + {file2};
          }
        }
      }
      if |currentGroup| > 1 {
        duplicateGroups := duplicateGroups + [currentGroup];
        grouped := grouped + {file1};
      }
    }
    PassInvariant(signatures, CalculateSimilarity, threshold, |signatures|);
    assert PassFacts(signatures, PassUpTo(signatures, CalculateSimilarity, threshold, |signatures|));
    if DistinctIds(signatures) {
      GroupsAreSeeded(signatures, CalculateSimilarity, threshold);
    }
    forall i, j | 0 <= i < |signatures| && 0 <= j < |signatures| && i != j
        && signatures[i].0 !in Flatten(duplicateGroups) && signatures[j].0 !in Flatten(duplicateGroups)
      ensures CalculateSimilarity(signatures[i].1, signatures[j].1) < threshold
    {
      UngroupedPairsScoreBelowThreshold(signatures, CalculateSimilarity, threshold, i, j);
    }
  }

  // ---------------------------------------------------------------------------
  // Properties of the reference definition.

  /** What one seed's scan produces: the seed first, then names that were not
      yet taken, each also recorded in the grouped set, and nothing else added. */
  lemma {:induction false} ScanShape(entries: seq<Entry>, score: Score, threshold: real, i: nat, grouped: set<string>, k: nat)
    requires i < |entries| && k <= |entries|
    ensures var s := ScanFrom(entries, score, threshold, i, grouped, k);
      && |s.group| >= 1 && s.group[0] == entries[i].0
      && (forall x :: x in s.grouped <==> x in grouped || x in s.group[1..])
      && (forall x :: x in s.group ==> x in Ids(entries))
      && (forall p :: 1 <= p < |s.group| ==> s.group[p] !in grouped)
      && (forall p, q :: 1 <= p < q < |s.group| ==> s.group[p] != s.group[q])
  {
    if k > 0 {
      ScanShape(entries, score, threshold, i, grouped, k - 1);
      var s := ScanFrom(entries, score, threshold, i, grouped, k - 1);
      var j := k - 1;
      if i != j && entries[j].0 !in s.grouped
         && score(entries[i].1, entries[j].1) >= threshold {
        var g := s.group + [entries[j].0];
        assert g[1..] == s.group[1..] + [entries[j].0];
        assert entries[j].0 == Ids(entries)[j];
      }
    }
  }

  /** Names are only ever added to the grouped set. */
  lemma {:induction false} ScanGrows(entries: seq<Entry>, score: Score, threshold: real, i: nat, grouped: set<string>, k: nat, k': nat)
    requires i < |entries| && k <= k' <= |entries|
    ensures grouped <= ScanFrom(entries, score, threshold, i, grouped, k).grouped
    ensures ScanFrom(entries, score, threshold, i, grouped, k).grouped <= ScanFrom(entries, score, threshold, i, grouped, k').grouped
  {
    if k' > k {
      ScanGrows(entries, score, threshold, i, grouped, k, k' - 1);
    } else if k > 0 {
      ScanGrows(entries, score, threshold, i, grouped, k - 1, k - 1);
    }
  }

  lemma {:induction false} FlattenAppend(groups: seq<seq<string>>, g: seq<string>)
    ensures Flatten(groups + [g]) == Flatten(groups) + g
  {
    assert (groups + [g])[..|groups|] == groups;
  }

  /** What holds between seeds: the grouped set is exactly the set of names
      already emitted, every group has at least two members, every member is an
      input name, and with distinct names no name is emitted twice. */
  ghost predicate PassFacts(entries: seq<Entry>, p: Pass) {
    && (forall x :: x in p.grouped <==> x in Flatten(p.groups))
    && (forall g :: g in p.groups ==> |g| >= 2)
    && (forall x :: x in Flatten(p.groups) ==> x in Ids(entries))
    && (DistinctIds(entries) ==> NoDuplicates(Flatten(p.groups)))
  }

  lemma {:induction false} PassInvariant(entries: seq<Entry>, score: Score, threshold: real, k: nat)
    requires k <= |entries|
    ensures PassFacts(entries, PassUpTo(entries, score, threshold, k))
  {
    if k > 0 {
      PassInvariant(entries, score, threshold, k - 1);
      var p := PassUpTo(entries, score, threshold, k - 1);
      var i := k - 1;
      if entries[i].0 !in p.grouped {
        var s := ScanFrom(entries, score, threshold, i, p.grouped, |entries|);
        ScanShape(entries, score, threshold, i, p.grouped, |entries|);
        if |s.group| > 1 {
          if DistinctIds(entries) {
            SeedNotScanned(entries, score, threshold, i, p.grouped, |entries|);
          }
          EmitKeepsFacts(entries, p, s.group, s.grouped);
          assert PassUpTo(entries, score, threshold, k) == Pass(p.groups + [s.group], s.grouped + {s.group[0]});
        } else {
          assert s.group[1..] == [];
          assert PassUpTo(entries, score, threshold, k) == Pass(p.groups, s.grouped);
        }
      }
    }
  }

  lemma EmitKeepsFacts(entries: seq<Entry>, p: Pass, group: seq<string>, after: set<string>)
    requires PassFacts(entries, p)
    requires |group| >= 2 && group[0] !in p.grouped
    requires forall x :: x in after <==> x in p.grouped || x in group[1..]
    requires forall x :: x in group ==> x in Ids(entries)
    requires forall p' :: 1 <= p' < |group| ==> group[p'] !in p.grouped
    requires forall p', q :: 1 <= p' < q < |group| ==> group[p'] != group[q]
    requires DistinctIds(entries) ==> group[0] !in group[1..]
    ensures PassFacts(entries, Pass(p.groups + [group], after + {group[0]}))
  {
    EmitKeepsGroupedExact(p.groups, p.grouped, group, after);
    if DistinctIds(entries) {
      assert forall p' :: 1 <= p' < |group| ==> group[p'] == group[1..][p' - 1];
      EmitKeepsExclusive(p.groups, p.grouped, group);
    }
  }

  /** Emitting a scanned group: the grouped set plus the seed is again exactly
      the set of emitted names, and every emitted name was already in the
      flattened output or in the new group. */
  lemma EmitKeepsGroupedExact(groups: seq<seq<string>>, grouped: set<string>, group: seq<string>, after: set<string>)
    requires |group| >= 1
    requires forall x :: x in grouped <==> x in Flatten(groups)
    requires forall x :: x in after <==> x in grouped || x in group[1..]
    ensures forall x :: x in after + {group[0]} <==> x in Flatten(groups + [group])
    ensures forall x :: x in Flatten(groups + [group]) <==> x in Flatten(groups) || x in group
  {
    FlattenAppend(groups, group);
    assert group == [group[0]] + group[1..];
  }

  /** Emitting a group of fresh, pairwise distinct names keeps the flattened
      output free of duplicates. */
  lemma EmitKeepsExclusive(groups: seq<seq<string>>, grouped: set<string>, group: seq<string>)
    requires |group| >= 1
    requires forall x :: x in grouped <==> x in Flatten(groups)
    requires NoDuplicates(Flatten(groups))
    requires group[0] !in grouped
    requires forall p :: 1 <= p < |group| ==> group[p] !in grouped && group[p] != group[0]
    requires forall p, q :: 1 <= p < q < |group| ==> group[p] != group[q]
    ensures NoDuplicates(Flatten(groups + [group]))
  {
    FlattenAppend(groups, group);
    var flat := Flatten(groups) + group;
    var n := |Flatten(groups)|;
    forall a, b | 0 <= a < b < |flat| ensures flat[a] != flat[b] {
      if b >= n && a < n {
        assert flat[a] in Flatten(groups);
        assert flat[b] == group[b - n];
      } else if a >= n {
        assert flat[a] == group[a - n] && flat[b] == group[b - n];
      }
    }
  }

  /** With distinct names the seed never re-enters its own group. */
  lemma {:induction false} SeedNotScanned(entries: seq<Entry>, score: Score, threshold: real, i: nat, grouped: set<string>, k: nat)
    requires i < |entries| && k <= |entries| && DistinctIds(entries)
    ensures |ScanFrom(entries, score, threshold, i, grouped, k).group| >= 1
    ensures entries[i].0 !in ScanFrom(entries, score, threshold, i, grouped, k).group[1..]
  {
    if k > 0 {
      SeedNotScanned(entries, score, threshold, i, grouped, k - 1);
      var s := ScanFrom(entries, score, threshold, i, grouped, k - 1);
      var j := k - 1;
      if i != j && entries[j].0 !in s.grouped
         && score(entries[i].1, entries[j].1) >= threshold {
        if j < i {
          assert entries[j].0 != entries[i].0;
        } else {
          assert entries[i].0 != entries[j].0;
        }
        var g := s.group + [entries[j].0];
        assert ScanFrom(entries, score, threshold, i, grouped, k).group == g;
        assert g[1..] == s.group[1..] + [entries[j].0];
      } else {
        assert ScanFrom(entries, score, threshold, i, grouped, k) == s;
      }
    }
  }

  lemma IndexOfDistinct(entries: seq<Entry>, j: nat)
    requires DistinctIds(entries) && j < |entries|
    ensures IndexOf(Ids(entries), entries[j].0) == j
  {
  }

  /** A group as find_duplicates builds it from seed `i`: its first name is the
      seed's, every later name belongs to another entry that scored at or above
      the threshold against the seed (the seed only, not the other members),
      and the later names follow input order. */
  ghost predicate SeededBy(entries: seq<Entry>, score: Score, threshold: real, i: nat, g: seq<string>)
    requires i < |entries|
  {
    var ids := Ids(entries);
    && |g| >= 1 && g[0] == entries[i].0
    && (forall p :: 1 <= p < |g| ==> g[p] in ids)
    && (forall p :: 1 <= p < |g| ==>
          && IndexOf(ids, g[p]) != i
          && score(entries[i].1, entries[IndexOf(ids, g[p])].1) >= threshold)
    && (forall p, q :: 1 <= p < q < |g| ==> IndexOf(ids, g[p]) < IndexOf(ids, g[q]))
  }

  /** SeededBy, with the seed found by name. */
  ghost predicate SeededGroup(entries: seq<Entry>, score: Score, threshold: real, g: seq<string>) {
    |g| >= 1 && g[0] in Ids(entries) && SeededBy(entries, score, threshold, IndexOf(Ids(entries), g[0]), g)
  }

  /** Appending an entry that scored at or above the threshold and lies past
      every member so far keeps a group seeded. */
  lemma AppendSeeded(entries: seq<Entry>, score: Score, threshold: real, i: nat, g: seq<string>, j: nat)
    requires i < |entries| && j < |entries| && i != j && DistinctIds(entries)
    requires SeededBy(entries, score, threshold, i, g)
    requires forall p :: 1 <= p < |g| ==> IndexOf(Ids(entries), g[p]) < j
    requires score(entries[i].1, entries[j].1) >= threshold
    ensures SeededBy(entries, score, threshold, i, g + [entries[j].0])
    ensures forall p :: 1 <= p < |g| + 1 ==> IndexOf(Ids(entries), (g + [entries[j].0])[p]) < j + 1
  {
    var ids := Ids(entries);
    var g' := g + [entries[j].0];
    IndexOfDistinct(entries, j);
    forall p | 1 <= p < |g'|
      ensures g'[p] in ids && IndexOf(ids, g'[p]) != i && IndexOf(ids, g'[p]) < j + 1
      ensures score(entries[i].1, entries[IndexOf(ids, g'[p])].1) >= threshold
    {
      if p < |g| {
        assert g'[p] == g[p];
      } else {
        assert g'[p] == ids[j];
      }
    }
    forall p, q | 1 <= p < q < |g'|
      ensures IndexOf(ids, g'[p]) < IndexOf(ids, g'[q])
    {
      assert g'[p] == g[p];
      if q < |g| {
        assert g'[q] == g[q];
      } else {
        assert g'[q] == ids[j];
      }
    }
  }

  /** With distinct names, the scan of seed i over indices 0 .. k-1 adds only
      entries below k, in index order, that scored at or above the threshold. */
  lemma {:induction false} ScanSeeded(entries: seq<Entry>, score: Score, threshold: real, i: nat, grouped: set<string>, k: nat)
    requires i < |entries| && k <= |entries| && DistinctIds(entries)
    ensures SeededBy(entries, score, threshold, i, ScanFrom(entries, score, threshold, i, grouped, k).group)
    ensures forall p :: 1 <= p < |ScanFrom(entries, score, threshold, i, grouped, k).group| ==>
              IndexOf(Ids(entries), ScanFrom(entries, score, threshold, i, grouped, k).group[p]) < k
  {
    if k > 0 {
      ScanSeeded(entries, score, threshold, i, grouped, k - 1);
      var s := ScanFrom(entries, score, threshold, i, grouped, k - 1);
      var j := k - 1;
      if i != j && entries[j].0 !in s.grouped
         && score(entries[i].1, entries[j].1) >= threshold {
        AppendSeeded(entries, score, threshold, i, s.group, j);
        assert ScanFrom(entries, score, threshold, i, grouped, k).group == s.group + [entries[j].0];
      } else {
        assert ScanFrom(entries, score, threshold, i, grouped, k) == s;
      }
    }
  }

  /** Every group that PassUpTo has emitted is seeded. */
  lemma {:induction false} PassSeeded(entries: seq<Entry>, score: Score, threshold: real, k: nat)
    requires k <= |entries| && DistinctIds(entries)
    ensures forall g :: g in PassUpTo(entries, score, threshold, k).groups ==> SeededGroup(entries, score, threshold, g)
  {
    if k > 0 {
      PassSeeded(entries, score, threshold, k - 1);
      var p := PassUpTo(entries, score, threshold, k - 1);
      var i := k - 1;
      if entries[i].0 !in p.grouped {
        ScanSeeded(entries, score, threshold, i, p.grouped, |entries|);
        IndexOfDistinct(entries, i);
      }
    }
  }

  /** With distinct names, each group of find_duplicates is its seed followed
      by entries that scored at least the threshold against that seed, in
      input order. */
  lemma GroupsAreSeeded(entries: seq<Entry>, score: Score, threshold: real)
    requires DistinctIds(entries)
    ensures forall g :: g in Groups(entries, score, threshold) ==> SeededGroup(entries, score, threshold, g)
  {
    PassSeeded(entries, score, threshold, |entries|);
  }

  /** The grouped set only grows from one seed to the next. */
  lemma {:induction false} PassGrows(entries: seq<Entry>, score: Score, threshold: real, k: nat, k': nat)
    requires k <= k' <= |entries|
    ensures PassUpTo(entries, score, threshold, k).grouped <= PassUpTo(entries, score, threshold, k').grouped
  {
    if k < k' {
      PassGrows(entries, score, threshold, k, k' - 1);
      var p := PassUpTo(entries, score, threshold, k' - 1);
      var i := k' - 1;
      if entries[i].0 !in p.grouped {
        ScanGrows(entries, score, threshold, i, p.grouped, |entries|, |entries|);
      }
    }
  }

  /** A seed that is never grouped had its scan run, and everything that scan
      took stays grouped. */
  lemma SeedScanWithinFinal(entries: seq<Entry>, score: Score, threshold: real, i: nat)
    requires i < |entries|
    requires entries[i].0 !in PassUpTo(entries, score, threshold, |entries|).grouped
    ensures var p := PassUpTo(entries, score, threshold, i);
      ScanFrom(entries, score, threshold, i, p.grouped, |entries|).grouped <= PassUpTo(entries, score, threshold, |entries|).grouped
  {
    PassGrows(entries, score, threshold, i, |entries|);
    PassGrows(entries, score, threshold, i + 1, |entries|);
    var p := PassUpTo(entries, score, threshold, i);
    assert entries[i].0 !in p.grouped;
    var s := ScanFrom(entries, score, threshold, i, p.grouped, |entries|);
    assert s.grouped <= PassUpTo(entries, score, threshold, i + 1).grouped;
  }

  /** A candidate not yet taken that reaches the threshold is taken. */
  lemma ScanTakesCandidate(entries: seq<Entry>, score: Score, threshold: real, i: nat, grouped: set<string>, j: nat)
    requires i < |entries| && j < |entries| && i != j
    requires entries[j].0 !in ScanFrom(entries, score, threshold, i, grouped, j).grouped
    requires score(entries[i].1, entries[j].1) >= threshold
    ensures entries[j].0 in ScanFrom(entries, score, threshold, i, grouped, j + 1).grouped
  {
  }

  /** The greedy rule: during seed i's scan, every other entry whose name was
      not yet taken when the scan began and that reaches the threshold against
      the seed joins the seed's group. */
  lemma ScanComplete(entries: seq<Entry>, score: Score, threshold: real, i: nat, grouped: set<string>, j: nat)
    requires i < |entries| && j < |entries| && i != j
    requires entries[j].0 !in grouped
    requires score(entries[i].1, entries[j].1) >= threshold
    ensures |ScanFrom(entries, score, threshold, i, grouped, |entries|).group| >= 2
    ensures entries[j].0 in ScanFrom(entries, score, threshold, i, grouped, |entries|).group[1..]
  {
    ScanGrows(entries, score, threshold, i, grouped, j, j + 1);
    ScanGrows(entries, score, threshold, i, grouped, j + 1, |entries|);
    if entries[j].0 !in ScanFrom(entries, score, threshold, i, grouped, j).grouped {
      ScanTakesCandidate(entries, score, threshold, i, grouped, j);
    }
    ScanShape(entries, score, threshold, i, grouped, |entries|);
  }

  /** Groups once emitted stay in the output, in place. */
  lemma {:induction false} PassKeepsGroups(entries: seq<Entry>, score: Score, threshold: real, k: nat, k': nat)
    requires k <= k' <= |entries|
    ensures PassUpTo(entries, score, threshold, k).groups <= PassUpTo(entries, score, threshold, k').groups
  {
    if k < k' {
      PassKeepsGroups(entries, score, threshold, k, k' - 1);
    }
  }

  /** The greedy rule on the output: when seed i's turn comes and neither it
      nor entry j is grouped yet, and j reaches the threshold against i, then
      the output holds a group that starts with i's name and contains j's.
      Only the seed is compared: the other members may score anything
      against j. */
  lemma SeedTakesEveryCandidate(entries: seq<Entry>, score: Score, threshold: real, i: nat, j: nat)
    requires i < |entries| && j < |entries| && i != j
    requires entries[i].0 !in PassUpTo(entries, score, threshold, i).grouped
    requires entries[j].0 !in PassUpTo(entries, score, threshold, i).grouped
    requires score(entries[i].1, entries[j].1) >= threshold
    ensures exists g :: g in Groups(entries, score, threshold) && |g| >= 2 && g[0] == entries[i].0 && entries[j].0 in g[1..]
  {
    var p := PassUpTo(entries, score, threshold, i);
    var s := ScanFrom(entries, score, threshold, i, p.grouped, |entries|);
    ScanComplete(entries, score, threshold, i, p.grouped, j);
    ScanShape(entries, score, threshold, i, p.grouped, |entries|);
    assert PassUpTo(entries, score, threshold, i + 1).groups == p.groups + [s.group];
    PassKeepsGroups(entries, score, threshold, i + 1, |entries|);
    assert s.group in PassUpTo(entries, score, threshold, i + 1).groups;
    assert s.group in Groups(entries, score, threshold);
  }

  /** Singletons are left out only when justified: two different entries
      that both end up in no group score below the threshold against each
      other. */
  lemma UngroupedPairsScoreBelowThreshold(entries: seq<Entry>, score: Score, threshold: real, i: nat, j: nat)
    requires i < |entries| && j < |entries| && i != j
    requires entries[i].0 !in Flatten(Groups(entries, score, threshold))
    requires entries[j].0 !in Flatten(Groups(entries, score, threshold))
    ensures score(entries[i].1, entries[j].1) < threshold
  {
    UngroupedNotGrouped(entries, score, threshold, entries[i].0);
    UngroupedNotGrouped(entries, score, threshold, entries[j].0);
    UnmarkedPairScoresBelowThreshold(entries, score, threshold, i, j);
  }

  /** A name in no group is not in the final grouped set. */
  lemma UngroupedNotGrouped(entries: seq<Entry>, score: Score, threshold: real, x: string)
    requires x !in Flatten(Groups(entries, score, threshold))
    ensures x !in PassUpTo(entries, score, threshold, |entries|).grouped
  {
    PassInvariant(entries, score, threshold, |entries|);
  }

  lemma UnmarkedPairScoresBelowThreshold(entries: seq<Entry>, score: Score, threshold: real, i: nat, j: nat)
    requires i < |entries| && j < |entries| && i != j
    requires entries[i].0 !in PassUpTo(entries, score, threshold, |entries|).grouped
    requires entries[j].0 !in PassUpTo(entries, score, threshold, |entries|).grouped
    ensures score(entries[i].1, entries[j].1) < threshold
  {
    var n := |entries|;
    var final := PassUpTo(entries, score, threshold, n).grouped;
    SeedScanWithinFinal(entries, score, threshold, i);
    var taken := PassUpTo(entries, score, threshold, i).grouped;
    ScanGrows(entries, score, threshold, i, taken, j, j + 1);
    ScanGrows(entries, score, threshold, i, taken, j + 1, n);
    assert entries[j].0 !in ScanFrom(entries, score, threshold, i, taken, j + 1).grouped;
    assert entries[j].0 !in ScanFrom(entries, score, threshold, i, taken, j).grouped;
    if score(entries[i].1, entries[j].1) >= threshold {
      ScanTakesCandidate(entries, score, threshold, i, taken, j);
      assert false;
    }
  }

  /** No two different entries reach the threshold. */
  predicate NoSimilarPair(entries: seq<Entry>, score: Score, threshold: real) {
    forall i, j :: 0 <= i < |entries| && 0 <= j < |entries| && i != j ==>
      score(entries[i].1, entries[j].1) < threshold
  }

  lemma {:induction false} ScanFindsNothing(entries: seq<Entry>, score: Score, threshold: real, i: nat, grouped: set<string>, k: nat)
    requires i < |entries| && k <= |entries| && NoSimilarPair(entries, score, threshold)
    ensures ScanFrom(entries, score, threshold, i, grouped, k) == Scan([entries[i].0], grouped)
  {
    if k > 0 {
      ScanFindsNothing(entries, score, threshold, i, grouped, k - 1);
      var j := k - 1;
      if i != j {
        assert score(entries[i].1, entries[j].1) < threshold;
      }
    }
  }

  lemma {:induction false} PassFindsNothing(entries: seq<Entry>, score: Score, threshold: real, k: nat)
    requires k <= |entries|
    requires forall i :: 0 <= i < |entries| ==>
               ScanFrom(entries, score, threshold, i, {}, |entries|) == Scan([entries[i].0], {})
    ensures PassUpTo(entries, score, threshold, k) == Pass([], {})
  {
    if k > 0 {
      PassFindsNothing(entries, score, threshold, k - 1);
      assert ScanFrom(entries, score, threshold, k - 1, {}, |entries|) == Scan([entries[k - 1].0], {});
    }
  }

  /** When no two entries reach the threshold the output is empty. */
  lemma NoSimilarPairNoGroups(entries: seq<Entry>, score: Score, threshold: real)
    requires NoSimilarPair(entries, score, threshold)
    ensures Groups(entries, score, threshold) == []
  {
    forall i | 0 <= i < |entries|
      ensures ScanFrom(entries, score, threshold, i, {}, |entries|) == Scan([entries[i].0], {})
    {
      ScanFindsNothing(entries, score, threshold, i, {}, |entries|);
    }
    PassFindsNothing(entries, score, threshold, |entries|);
  }

  /** A single entry never forms a group. */
  lemma SingleEntryNoGroups(name: string, sig: GeometricSignature, score: Score, threshold: real)
    ensures Groups([(name, sig)], score, threshold) == []
  {
    var entries := [(name, sig)];
    assert ScanFrom(entries, score, threshold, 0, {}, 1) == Scan([name], {});
    assert PassUpTo(entries, score, threshold, 1) == Pass([], {});
  }

  /** Two entries with the same signature group together for any threshold
      up to 1.0. */
  lemma TwoIdenticalEntriesGroup(sig: GeometricSignature, threshold: real)
    requires threshold <= 1.0
    ensures Groups([("a", sig), ("b", sig)], CalculateSimilarity, threshold) == [["a", "b"]]
  {
    var entries := [("a", sig), ("b", sig)];
    assert ScanFrom(entries, CalculateSimilarity, threshold, 0, {}, 1) == Scan(["a"], {});
    assert ScanFrom(entries, CalculateSimilarity, threshold, 0, {}, 2) == Scan(["a", "b"], {"b"});
    assert PassUpTo(entries, CalculateSimilarity, threshold, 1) == Pass([["a", "b"]], {"a", "b"});
  }

  /** The four-entry list of the source's grouping test: three copies of one
      part and, third, a different part. */
  function FourParts(part: GeometricSignature, other: GeometricSignature): seq<Entry> {
    [("part1.stl", part), ("part2.stl", part), ("part3.stl", other), ("part4.stl", part)]
  }

  lemma FirstSeedTakesPart2(part: GeometricSignature, other: GeometricSignature, score: Score, threshold: real)
    requires threshold <= score(part, part)
    ensures ScanFrom(FourParts(part, other), score, threshold, 0, {}, 2) == Scan(["part1.stl", "part2.stl"], {"part2.stl"})
  {
    assert ScanFrom(FourParts(part, other), score, threshold, 0, {}, 1) == Scan(["part1.stl"], {});
  }

  /** The scan seeded by part1.stl takes part2.stl and part4.stl. */
  lemma FirstSeedScan(part: GeometricSignature, other: GeometricSignature, score: Score, threshold: real)
    requires score(part, other) < threshold <= score(part, part)
    ensures ScanFrom(FourParts(part, other), score, threshold, 0, {}, 4)
              == Scan(["part1.stl", "part2.stl", "part4.stl"], {"part2.stl", "part4.stl"})
  {
    FirstSeedTakesPart2(part, other, score, threshold);
    assert ScanFrom(FourParts(part, other), score, threshold, 0, {}, 3) == Scan(["part1.stl", "part2.stl"], {"part2.stl"});
  }

  /** The scan seeded by part3.stl finds every other name taken. */
  lemma ThirdSeedScan(part: GeometricSignature, other: GeometricSignature, score: Score, threshold: real, taken: set<string>)
    requires taken == {"part1.stl", "part2.stl", "part4.stl"}
    ensures ScanFrom(FourParts(part, other), score, threshold, 2, taken, 4) == Scan(["part3.stl"], taken)
  {
    var entries := FourParts(part, other);
    assert ScanFrom(entries, score, threshold, 2, taken, 1) == Scan(["part3.stl"], taken);
    assert ScanFrom(entries, score, threshold, 2, taken, 2) == Scan(["part3.stl"], taken);
    assert ScanFrom(entries, score, threshold, 2, taken, 3) == Scan(["part3.stl"], taken);
  }

  /** Three copies of a part and, third in the list, a part that scores below
      the threshold against them: exactly one group, the three copies in
      input order, and the odd part in no group. */
  lemma FourPartGrouping(part: GeometricSignature, other: GeometricSignature, score: Score, threshold: real)
    requires score(part, other) < threshold <= score(part, part)
    ensures Groups(FourParts(part, other), score, threshold) == [["part1.stl", "part2.stl", "part4.stl"]]
  {
    var entries := FourParts(part, other);
    var taken := {"part1.stl", "part2.stl", "part4.stl"};
    var group := ["part1.stl", "part2.stl", "part4.stl"];
    FirstSeedScan(part, other, score, threshold);
    ThirdSeedScan(part, other, score, threshold, taken);
    assert PassUpTo(entries, score, threshold, 1) == Pass([group], taken);
    assert PassUpTo(entries, score, threshold, 2) == Pass([group], taken);
    assert PassUpTo(entries, score, threshold, 3) == Pass([group], taken);
    assert PassUpTo(entries, score, threshold, 4) == Pass([group], taken);
  }

  /** The source's test signatures: the larger part, twice as long on every
      axis, scores 0.3 against the copies. */
  lemma FourPartScores()
    ensures
      var part := GeometricSignature(BoundingBox(0.0, 0.0, 0.0, 10.0, 5.0, 2.0), 100.0, 220.0, "hash1");
      var other := GeometricSignature(BoundingBox(0.0, 0.0, 0.0, 20.0, 10.0, 4.0), 400.0, 880.0, "hash2");
      CalculateSimilarity(part, other) == 0.3
  {
    assert PropertySimilarity(100.0, 400.0) == 0.25;
    assert PropertySimilarity(220.0, 880.0) == 0.25;
    assert PropertySimilarity(10.0, 20.0) == 0.5;
    assert PropertySimilarity(5.0, 10.0) == 0.5;
    assert PropertySimilarity(2.0, 4.0) == 0.5;
  }

  /** With the source's test signatures at the default threshold 0.95 the
      result is exactly [[part1.stl, part2.stl, part4.stl]]. */
  lemma FourPartExample(part: GeometricSignature, other: GeometricSignature)
    requires part == GeometricSignature(BoundingBox(0.0, 0.0, 0.0, 10.0, 5.0, 2.0), 100.0, 220.0, "hash1")
    requires other == GeometricSignature(BoundingBox(0.0, 0.0, 0.0, 20.0, 10.0, 4.0), 400.0, 880.0, "hash2")
    ensures CalculateSimilarity(part, other) == 0.3
    ensures Groups(FourParts(part, other), CalculateSimilarity, 0.95) == [["part1.stl", "part2.stl", "part4.stl"]]
  {
    FourPartScores();
    FourPartGrouping(part, other, CalculateSimilarity, 0.95);
  }

  // ---------------------------------------------------------------------------
  // Members are compared with the seed only.

  /** A seed followed by two entries in list order. */
  function SeedAndTwo(a: GeometricSignature, b: GeometricSignature, c: GeometricSignature): seq<Entry> {
    [("A", a), ("B", b), ("C", c)]
  }

  lemma SeedAndTwoScan(a: GeometricSignature, b: GeometricSignature, c: GeometricSignature, score: Score, threshold: real)
    requires threshold <= score(a, b) && threshold <= score(a, c)
    ensures ScanFrom(SeedAndTwo(a, b, c), score, threshold, 0, {}, 3) == Scan(["A", "B", "C"], {"B", "C"})
  {
    assert ScanFrom(SeedAndTwo(a, b, c), score, threshold, 0, {}, 1) == Scan(["A"], {});
    assert ScanFrom(SeedAndTwo(a, b, c), score, threshold, 0, {}, 2) == Scan(["A", "B"], {"B"});
  }

  /** When both later entries reach the threshold against the seed, the seed
      takes both, whatever they score against each other. */
  lemma SeedDecidesMembership(a: GeometricSignature, b: GeometricSignature, c: GeometricSignature, score: Score, threshold: real)
    requires threshold <= score(a, b) && threshold <= score(a, c)
    ensures Groups(SeedAndTwo(a, b, c), score, threshold) == [["A", "B", "C"]]
  {
    var entries := SeedAndTwo(a, b, c);
    var all := {"A", "B", "C"};
    SeedAndTwoScan(a, b, c, score, threshold);
    assert PassUpTo(entries, score, threshold, 1) == Pass([["A", "B", "C"]], all);
    assert PassUpTo(entries, score, threshold, 2) == Pass([["A", "B", "C"]], all);
  }

  /** Volumes 100, 90 and 110 on equal unit boxes and equal areas: B scores
      0.95 and C about 0.955 against A, but B and C score about 0.909 against
      each other. */
  lemma VolumeSpreadScores()
    ensures
      var a := GeometricSignature(BoundingBox(0.0, 0.0, 0.0, 1.0, 1.0, 1.0), 100.0, 100.0, "h1");
      var b := GeometricSignature(BoundingBox(0.0, 0.0, 0.0, 1.0, 1.0, 1.0), 90.0, 100.0, "h2");
      var c := GeometricSignature(BoundingBox(0.0, 0.0, 0.0, 1.0, 1.0, 1.0), 110.0, 100.0, "h3");
      && CalculateSimilarity(a, b) == 0.95
      && CalculateSimilarity(a, c) >= 0.95
      && CalculateSimilarity(b, c) < 0.95
  {
    assert PropertySimilarity(100.0, 90.0) == 0.9;
    assert PropertySimilarity(100.0, 110.0) == 100.0 / 110.0;
    assert PropertySimilarity(90.0, 110.0) == 90.0 / 110.0;
  }

  /** At 0.95, B and C both join A's group although they score below the
      threshold against each other. */
  lemma MembersNotComparedWithEachOther(a: GeometricSignature, b: GeometricSignature, c: GeometricSignature)
    requires a == GeometricSignature(BoundingBox(0.0, 0.0, 0.0, 1.0, 1.0, 1.0), 100.0, 100.0, "h1")
    requires b == GeometricSignature(BoundingBox(0.0, 0.0, 0.0, 1.0, 1.0, 1.0), 90.0, 100.0, "h2")
    requires c == GeometricSignature(BoundingBox(0.0, 0.0, 0.0, 1.0, 1.0, 1.0), 110.0, 100.0, "h3")
    ensures CalculateSimilarity(b, c) < 0.95
    ensures Groups(SeedAndTwo(a, b, c), CalculateSimilarity, 0.95) == [["A", "B", "C"]]
  {
    VolumeSpreadScores();
    SeedDecidesMembership(a, b, c, CalculateSimilarity, 0.95);
  }

  // ---------------------------------------------------------------------------
  // A lower threshold can produce fewer groups.

  /** Two copies of one part followed by two copies of another. */
  function TwoPairs(a: GeometricSignature, c: GeometricSignature): seq<Entry> {
    [("A", a), ("B", a), ("C", c), ("D", c)]
  }

  lemma StrictFirstSeedScan(a: GeometricSignature, c: GeometricSignature, score: Score, threshold: real)
    requires score(a, c) < threshold <= score(a, a)
    ensures ScanFrom(TwoPairs(a, c), score, threshold, 0, {}, 4) == Scan(["A", "B"], {"B"})
  {
    assert ScanFrom(TwoPairs(a, c), score, threshold, 0, {}, 1) == Scan(["A"], {});
    assert ScanFrom(TwoPairs(a, c), score, threshold, 0, {}, 2) == Scan(["A", "B"], {"B"});
    assert ScanFrom(TwoPairs(a, c), score, threshold, 0, {}, 3) == Scan(["A", "B"], {"B"});
  }

  lemma StrictThirdSeedScan(a: GeometricSignature, c: GeometricSignature, score: Score, threshold: real)
    requires threshold <= score(c, c)
    ensures ScanFrom(TwoPairs(a, c), score, threshold, 2, {"A", "B"}, 4) == Scan(["C", "D"], {"A", "B", "D"})
  {
    var taken := {"A", "B"};
    assert ScanFrom(TwoPairs(a, c), score, threshold, 2, taken, 1) == Scan(["C"], taken);
    assert ScanFrom(TwoPairs(a, c), score, threshold, 2, taken, 2) == Scan(["C"], taken);
    assert ScanFrom(TwoPairs(a, c), score, threshold, 2, taken, 3) == Scan(["C"], taken);
  }

  /** At a threshold above the cross score the pairs form two groups. */
  lemma StrictThresholdTwoGroups(a: GeometricSignature, c: GeometricSignature, score: Score, threshold: real)
    requires score(a, c) < threshold <= score(a, a) && threshold <= score(c, c)
    ensures Groups(TwoPairs(a, c), score, threshold) == [["A", "B"], ["C", "D"]]
  {
    var entries := TwoPairs(a, c);
    StrictFirstSeedScan(a, c, score, threshold);
    StrictThirdSeedScan(a, c, score, threshold);
    assert PassUpTo(entries, score, threshold, 1) == Pass([["A", "B"]], {"A", "B"});
    assert PassUpTo(entries, score, threshold, 2) == Pass([["A", "B"]], {"A", "B"});
    assert PassUpTo(entries, score, threshold, 3) == Pass([["A", "B"], ["C", "D"]], {"A", "B", "C", "D"});
  }

  lemma LooseFirstSeedScan(a: GeometricSignature, c: GeometricSignature, score: Score, threshold: real)
    requires threshold <= score(a, c) && threshold <= score(a, a)
    ensures ScanFrom(TwoPairs(a, c), score, threshold, 0, {}, 4) == Scan(["A", "B", "C", "D"], {"B", "C", "D"})
  {
    assert ScanFrom(TwoPairs(a, c), score, threshold, 0, {}, 1) == Scan(["A"], {});
    assert ScanFrom(TwoPairs(a, c), score, threshold, 0, {}, 2) == Scan(["A", "B"], {"B"});
    assert ScanFrom(TwoPairs(a, c), score, threshold, 0, {}, 3) == Scan(["A", "B", "C"], {"B", "C"});
  }

  /** At a threshold the cross score reaches, the first seed takes all four. */
  lemma LooseThresholdOneGroup(a: GeometricSignature, c: GeometricSignature, score: Score, threshold: real)
    requires threshold <= score(a, c) && threshold <= score(a, a)
    ensures Groups(TwoPairs(a, c), score, threshold) == [["A", "B", "C", "D"]]
  {
    var entries := TwoPairs(a, c);
    var all := {"A", "B", "C", "D"};
    LooseFirstSeedScan(a, c, score, threshold);
    assert PassUpTo(entries, score, threshold, 1) == Pass([["A", "B", "C", "D"]], all);
    assert PassUpTo(entries, score, threshold, 2) == Pass([["A", "B", "C", "D"]], all);
    assert PassUpTo(entries, score, threshold, 3) == Pass([["A", "B", "C", "D"]], all);
  }

  /** A part scores 0.975 against a variant with 95% of its volume. */
  lemma NearVariantScores()
    ensures
      var a := GeometricSignature(BoundingBox(0.0, 0.0, 0.0, 1.0, 1.0, 1.0), 100.0, 100.0, "h1");
      var c := GeometricSignature(BoundingBox(0.0, 0.0, 0.0, 1.0, 1.0, 1.0), 95.0, 100.0, "h2");
      CalculateSimilarity(a, c) == 0.975
  {
    assert PropertySimilarity(100.0, 95.0) == 0.95;
  }

  /** The number of groups is not monotone in the threshold: lowering it from
      0.99 to 0.90 merges two groups into one. */
  lemma LooserThresholdCanMergeGroups(a: GeometricSignature, c: GeometricSignature)
    requires a == GeometricSignature(BoundingBox(0.0, 0.0, 0.0, 1.0, 1.0, 1.0), 100.0, 100.0, "h1")
    requires c == GeometricSignature(BoundingBox(0.0, 0.0, 0.0, 1.0, 1.0, 1.0), 95.0, 100.0, "h2")
    ensures Groups(TwoPairs(a, c), CalculateSimilarity, 0.99) == [["A", "B"], ["C", "D"]]
    ensures Groups(TwoPairs(a, c), CalculateSimilarity, 0.90) == [["A", "B", "C", "D"]]
    ensures |Groups(TwoPairs(a, c), CalculateSimilarity, 0.90)| < |Groups(TwoPairs(a, c), CalculateSimilarity, 0.99)|
  {
    NearVariantScores();
    ThresholdCanMergeGroups(a, c, CalculateSimilarity, 0.90, 0.99);
  }

  /** Two pairs of copies whose cross score lies between two thresholds form
      two groups at the higher threshold and one at the lower. */
  lemma ThresholdCanMergeGroups(a: GeometricSignature, c: GeometricSignature, score: Score, low: real, high: real)
    requires low <= score(a, c) < high && high <= score(a, a) && high <= score(c, c)
    ensures Groups(TwoPairs(a, c), score, high) == [["A", "B"], ["C", "D"]]
    ensures Groups(TwoPairs(a, c), score, low) == [["A", "B", "C", "D"]]
  {
    StrictThresholdTwoGroups(a, c, score, high);
    LooseThresholdOneGroup(a, c, score, low);
  }
}
