/**
 * The duplicate-grouping pass of `start_analysis` in
 * src-tauri/src/commands/analysis.rs. Photos are walked in index order; each
 * photo that is not yet used and has a hash becomes a seed, and every later
 * photo that is unused, has a hash and is close enough to the seed joins the
 * seed's group and is marked used. A group is kept only when it has at least
 * two photos. Grouping is centred on the seed and is not transitive.
 *
 * A group lists its photos by their index in the list of hashed photos.
 */
module Grouping {
  import opened Wrappers
  import opened Hamming

  /** A photo after the hashing stage: its path and, when the image could be
      decoded, its perceptual hash. */
  datatype PhotoWithHash = PhotoWithHash(path: string, hash: Option<Hash>)

  /** A group of similar photos: indices into the list of hashed photos, the
      seed first, and the similarity figure reported for the group. */
  datatype SimilarityGroup = SimilarityGroup(photos: seq<nat>, similarity: real)

  /** The similarity every group reports, whatever its members' distances. */
  const GROUP_SIMILARITY: real := 0.9

  /**
   * `other` is close enough to `seed`: the similarity `1 - d / (8 * |seed|)`
   * exceeds 0.85, written in integers as `20 * d < 3 * (8 * |seed|)`. The bit
   * count is taken from the seed's hash only.
   */
  predicate Similar(seed: Hash, other: Hash)
  {
    20 * HammingDistance(seed, other) < 3 * (8 * |seed|)
  }

  /** Photo `j` would join the group of `seed` when nothing in `claimed` is
      available any more. */
  predicate Candidate(photos: seq<PhotoWithHash>, claimed: set<nat>, seed: nat, j: nat)
    requires seed < |photos| && photos[seed].hash.Some? && j < |photos|
  {
    j !in claimed && photos[j].hash.Some? && Similar(photos[seed].hash.value, photos[j].hash.value)
  }

  /** The photos after `seed` and below `hi` that join the seed's group, in
      increasing order. */
  function Absorbed(photos: seq<PhotoWithHash>, claimed: set<nat>, seed: nat, hi: nat): (r: seq<nat>)
    requires seed < |photos| && photos[seed].hash.Some? && hi <= |photos|
    ensures forall k :: k in r <==> seed < k < hi && Candidate(photos, claimed, seed, k)
    ensures forall m, m' :: 0 <= m < m' < |r| ==> r[m] < r[m']
    decreases hi
  {
    if hi <= seed + 1 then []
    else
      var earlier := Absorbed(photos, claimed, seed, hi - 1);
      assert forall m :: 0 <= m < |earlier| ==> earlier[m] in earlier;
      earlier + (if Candidate(photos, claimed, seed, hi - 1) then [hi - 1] else [])
  }

  /** `claimed` with every photo of `members` added. */
  function Mark(claimed: set<nat>, members: seq<nat>): (r: set<nat>)
    ensures forall k :: k in r <==> k in claimed || k in members
  {
    claimed + set k | k in members
  }

  /** The groups the pass emits from seed position `i` on, when the photos in
      `claimed` already belong to earlier groups. */
  function GroupsFrom(photos: seq<PhotoWithHash>, claimed: set<nat>, i: nat): seq<SimilarityGroup>
    requires i <= |photos|
    decreases |photos| - i
  {
    if i == |photos| then []
    else if i in claimed || photos[i].hash.None? then GroupsFrom(photos, claimed, i + 1)
    else
      var members := [i] + Absorbed(photos, claimed, i, |photos|);
      if |members| >= 2 then
        [SimilarityGroup(members, GROUP_SIMILARITY)] + GroupsFrom(photos, Mark(claimed, members), i + 1)
      else
        GroupsFrom(photos, claimed, i + 1)
  }

  /** The groups the whole pass emits. */
  function GroupsOf(photos: seq<PhotoWithHash>): seq<SimilarityGroup>
  {
    GroupsFrom(photos, {}, 0)
  }

  /** What every emitted group satisfies: at least two photos, the constant
      similarity, hashed photos only, increasing indices, and every photo after
      the seed close to the seed. */
  ghost predicate WellFormedGroup(photos: seq<PhotoWithHash>, g: SimilarityGroup)
  {
    && |g.photos| >= 2
    && g.similarity == GROUP_SIMILARITY
    && (forall m :: 0 <= m < |g.photos| ==> g.photos[m] < |photos| && photos[g.photos[m]].hash.Some?)
    && (forall m, m' :: 0 <= m < m' < |g.photos| ==> g.photos[m] < g.photos[m'])
    && (forall m :: 0 < m < |g.photos| ==>
          Similar(photos[g.photos[0]].hash.value, photos[g.photos[m]].hash.value))
  }

  /** Every group is well formed and holds only photos at or after `i` that
      are not in `claimed`. */
  ghost predicate AllWellFormed(photos: seq<PhotoWithHash>, claimed: set<nat>, i: nat, r: seq<SimilarityGroup>)
  {
    forall g :: g in r ==> WellFormedGroup(photos, g) && forall k :: k in g.photos ==> i <= k && k !in claimed
  }

  /** No photo is in two of the groups. */
  ghost predicate Disjoint(r: seq<SimilarityGroup>)
  {
    forall a, b, k :: 0 <= a < b < |r| && k in r[a].photos ==> k !in r[b].photos
  }

  /** The groups appear in increasing order of their seeds. */
  ghost predicate SeedsIncrease(r: seq<SimilarityGroup>)
  {
    forall a, b :: 0 <= a < b < |r| ==> |r[a].photos| > 0 && |r[b].photos| > 0 && r[a].photos[0] < r[b].photos[0]
  }

  /** Photo `k` comes after the seed of `g`, is not in `claimed`, has a hash
      and is close to the seed. */
  ghost predicate CloseAfterSeed(photos: seq<PhotoWithHash>, claimed: set<nat>, g: SimilarityGroup, k: nat)
  {
    && |g.photos| > 0 && g.photos[0] < k < |photos| && k !in claimed
    && photos[g.photos[0]].hash.Some? && photos[k].hash.Some?
    && Similar(photos[g.photos[0]].hash.value, photos[k].hash.value)
  }

  /** Every photo close to a group's seed is in that group or an earlier one. */
  ghost predicate Greedy(photos: seq<PhotoWithHash>, claimed: set<nat>, r: seq<SimilarityGroup>)
  {
    forall a, k :: 0 <= a < |r| && CloseAfterSeed(photos, claimed, r[a], k) ==>
      exists b :: 0 <= b <= a && k in r[b].photos
  }

  /** The group of an unclaimed hashed seed, when it has two photos or more,
      is well formed and holds only photos at or after the seed that are not
      in `claimed`. */
  lemma {:induction false} SeedGroupWellFormed(photos: seq<PhotoWithHash>, claimed: set<nat>, i: nat, members: seq<nat>)
    requires i < |photos| && i !in claimed && photos[i].hash.Some?
    requires members == [i] + Absorbed(photos, claimed, i, |photos|) && |members| >= 2
    ensures WellFormedGroup(photos, SimilarityGroup(members, GROUP_SIMILARITY))
    ensures forall k :: k in members ==> i <= k && k !in claimed
  {
    var absorbed := Absorbed(photos, claimed, i, |photos|);
    forall m | 0 < m < |members|
      ensures members[m] == absorbed[m - 1] && absorbed[m - 1] in absorbed
    {
    }
    forall m, m' | 0 <= m < m' < |members|
      ensures members[m] < members[m']
    {
      if m > 0 {
        assert members[m] == absorbed[m - 1] && members[m'] == absorbed[m' - 1];
      } else {
        assert members[m'] in absorbed;
      }
    }
  }

  /** A seed that is claimed, has no hash or takes no other photo emits no
      group. */
  lemma NoGroupAtSeed(photos: seq<PhotoWithHash>, claimed: set<nat>, i: nat)
    requires i < |photos|
    requires i in claimed || photos[i].hash.None? || |Absorbed(photos, claimed, i, |photos|)| == 0
    ensures GroupsFrom(photos, claimed, i) == GroupsFrom(photos, claimed, i + 1)
  {
  }

  /** A well-formed group of photos at or after `i` outside `claimed`, placed
      before groups that avoid every photo of `marked` (which holds `claimed`),
      keeps all groups well formed. */
  lemma PrependKeepsWellFormed(photos: seq<PhotoWithHash>, claimed: set<nat>, marked: set<nat>, i: nat,
                               group: SimilarityGroup, rest: seq<SimilarityGroup>)
    requires WellFormedGroup(photos, group) && forall k :: k in group.photos ==> i <= k && k !in claimed
    requires AllWellFormed(photos, marked, i + 1, rest) && forall k :: k in claimed ==> k in marked
    ensures AllWellFormed(photos, claimed, i, [group] + rest)
  {
  }

  /** Groups emitted from position `i` on are well formed and hold only photos
      at or after `i` that earlier groups did not claim. */
  lemma {:induction false} GroupsFromShape(photos: seq<PhotoWithHash>, claimed: set<nat>, i: nat)
    requires i <= |photos|
    ensures AllWellFormed(photos, claimed, i, GroupsFrom(photos, claimed, i))
    decreases |photos| - i
  {
    if i < |photos| {
      if i in claimed || photos[i].hash.None? || |Absorbed(photos, claimed, i, |photos|)| == 0 {
        NoGroupAtSeed(photos, claimed, i);
        GroupsFromShape(photos, claimed, i + 1);
      } else {
        var members := [i] + Absorbed(photos, claimed, i, |photos|);
        var marked := Mark(claimed, members);
        GroupsFromShape(photos, marked, i + 1);
        SeedGroupWellFormed(photos, claimed, i, members);
        PrependKeepsWellFormed(photos, claimed, marked, i,
          SimilarityGroup(members, GROUP_SIMILARITY), GroupsFrom(photos, marked, i + 1));
      }
    }
  }

  /** A group whose photos are all in `marked`, placed before disjoint groups
      that avoid `marked`, keeps the groups disjoint. */
  lemma PrependKeepsDisjoint(marked: set<nat>, group: SimilarityGroup, rest: seq<SimilarityGroup>)
    requires forall k :: k in group.photos ==> k in marked
    requires Disjoint(rest) && forall g, k :: g in rest && k in g.photos ==> k !in marked
    ensures Disjoint([group] + rest)
  {
    var r := [group] + rest;
    forall a, b, k | 0 <= a < b < |r| && k in r[a].photos
      ensures k !in r[b].photos
    {
      assert r[b] == rest[b - 1] && r[b] in rest;
      if a > 0 {
        assert r[a] == rest[a - 1];
      }
    }
  }

  /** No photo is in two groups emitted from position `i` on. */
  lemma {:induction false} GroupsFromDisjoint(photos: seq<PhotoWithHash>, claimed: set<nat>, i: nat)
    requires i <= |photos|
    ensures Disjoint(GroupsFrom(photos, claimed, i))
    decreases |photos| - i
  {
    if i < |photos| {
      if i in claimed || photos[i].hash.None? || |Absorbed(photos, claimed, i, |photos|)| == 0 {
        NoGroupAtSeed(photos, claimed, i);
        GroupsFromDisjoint(photos, claimed, i + 1);
      } else {
        var members := [i] + Absorbed(photos, claimed, i, |photos|);
        var marked := Mark(claimed, members);
        GroupsFromDisjoint(photos, marked, i + 1);
        GroupsFromShape(photos, marked, i + 1);
        PrependKeepsDisjoint(marked, SimilarityGroup(members, GROUP_SIMILARITY), GroupsFrom(photos, marked, i + 1));
      }
    }
  }

  /** Every group emitted from position `i` on has its seed at or after `i`. */
  lemma {:induction false} SeedsFrom(photos: seq<PhotoWithHash>, claimed: set<nat>, i: nat)
    requires i <= |photos|
    ensures forall g :: g in GroupsFrom(photos, claimed, i) ==> |g.photos| > 0 && i <= g.photos[0]
  {
    GroupsFromShape(photos, claimed, i);
    forall g | g in GroupsFrom(photos, claimed, i)
      ensures |g.photos| > 0 && i <= g.photos[0]
    {
      assert WellFormedGroup(photos, g);
      assert g.photos[0] in g.photos;
    }
  }

  /** A group placed before groups whose seeds all come after its own keeps
      the seeds in increasing order. */
  lemma PrependKeepsSeedsIncreasing(group: SimilarityGroup, rest: seq<SimilarityGroup>)
    requires |group.photos| > 0 && SeedsIncrease(rest)
    requires forall g :: g in rest ==> |g.photos| > 0 && group.photos[0] < g.photos[0]
    ensures SeedsIncrease([group] + rest)
  {
    var r := [group] + rest;
    forall a, b | 0 <= a < b < |r|
      ensures |r[a].photos| > 0 && |r[b].photos| > 0 && r[a].photos[0] < r[b].photos[0]
    {
      assert r[b] == rest[b - 1] && r[b] in rest;
      if a > 0 {
        assert r[a] == rest[a - 1];
      }
    }
  }

  /** Groups emitted from position `i` on appear in increasing order of seed. */
  lemma {:induction false} GroupsFromSeedsIncrease(photos: seq<PhotoWithHash>, claimed: set<nat>, i: nat)
    requires i <= |photos|
    ensures SeedsIncrease(GroupsFrom(photos, claimed, i))
    decreases |photos| - i
  {
    if i < |photos| {
      if i in claimed || photos[i].hash.None? || |Absorbed(photos, claimed, i, |photos|)| == 0 {
        NoGroupAtSeed(photos, claimed, i);
        GroupsFromSeedsIncrease(photos, claimed, i + 1);
      } else {
        var members := [i] + Absorbed(photos, claimed, i, |photos|);
        var marked := Mark(claimed, members);
        GroupsFromSeedsIncrease(photos, marked, i + 1);
        SeedsFrom(photos, marked, i + 1);
        PrependKeepsSeedsIncreasing(SimilarityGroup(members, GROUP_SIMILARITY), GroupsFrom(photos, marked, i + 1));
      }
    }
  }

  /** A seed takes every later unclaimed photo close to it, unless an earlier
      group already holds that photo. */
  lemma {:induction false} GroupsFromGreedy(photos: seq<PhotoWithHash>, claimed: set<nat>, i: nat)
    requires i <= |photos|
    ensures Greedy(photos, claimed, GroupsFrom(photos, claimed, i))
    decreases |photos| - i
  {
    if i < |photos| {
      if i in claimed || photos[i].hash.None? {
        assert GroupsFrom(photos, claimed, i) == GroupsFrom(photos, claimed, i + 1);
        GroupsFromGreedy(photos, claimed, i + 1);
      } else {
        var members := [i] + Absorbed(photos, claimed, i, |photos|);
        if |members| >= 2 {
          var marked := Mark(claimed, members);
          var rest := GroupsFrom(photos, marked, i + 1);
          GroupsFromGreedy(photos, marked, i + 1);
          var r := [SimilarityGroup(members, GROUP_SIMILARITY)] + rest;
          assert GroupsFrom(photos, claimed, i) == r;
          forall a, k | 0 <= a < |r| && CloseAfterSeed(photos, claimed, r[a], k)
            ensures exists b :: 0 <= b <= a && k in r[b].photos
          {
            if a == 0 {
              assert Candidate(photos, claimed, i, k);
              assert k in r[0].photos;
            } else if k in members {
              assert k in r[0].photos;
            } else {
              assert r[a] == rest[a - 1];
              assert CloseAfterSeed(photos, marked, rest[a - 1], k);
              var b :| 0 <= b <= a - 1 && k in rest[b].photos;
              assert r[b + 1] == rest[b];
            }
          }
          assert Greedy(photos, claimed, r);
        } else {
          assert GroupsFrom(photos, claimed, i) == GroupsFrom(photos, claimed, i + 1);
          GroupsFromGreedy(photos, claimed, i + 1);
        }
      }
    }
  }

  /** Every emitted group has at least two photos and reports similarity 0.9. */
  lemma GroupsHaveTwoOrMore(photos: seq<PhotoWithHash>)
    ensures forall g :: g in GroupsOf(photos) ==> |g.photos| >= 2 && g.similarity == GROUP_SIMILARITY
  {
    GroupsFromShape(photos, {}, 0);
  }

  /** A photo without a hash is never in a group, as seed or as member. */
  lemma UnhashedNeverGrouped(photos: seq<PhotoWithHash>)
    ensures forall g, k :: g in GroupsOf(photos) && k in g.photos ==> k < |photos| && photos[k].hash.Some?
  {
    GroupsFromShape(photos, {}, 0);
    forall g, k | g in GroupsOf(photos) && k in g.photos
      ensures k < |photos| && photos[k].hash.Some?
    {
      var m :| 0 <= m < |g.photos| && g.photos[m] == k;
    }
  }

  /** Photo `k` is in none of the groups `r`. */
  ghost predicate Ungrouped(r: seq<SimilarityGroup>, k: nat)
  {
    forall g :: g in r ==> k !in g.photos
  }

  /** When seed `p` emits a group, a photo in no group from `p` on is not in
      that group and in no group emitted after it. */
  lemma EmittedGroupSpares(photos: seq<PhotoWithHash>, claimed: set<nat>, p: nat, members: seq<nat>, k: nat)
    requires p < |photos| && p !in claimed && photos[p].hash.Some?
    requires members == [p] + Absorbed(photos, claimed, p, |photos|) && |members| >= 2
    requires Ungrouped(GroupsFrom(photos, claimed, p), k)
    ensures k !in members
    ensures Ungrouped(GroupsFrom(photos, Mark(claimed, members), p + 1), k)
  {
    var group := SimilarityGroup(members, GROUP_SIMILARITY);
    var rest := GroupsFrom(photos, Mark(claimed, members), p + 1);
    assert GroupsFrom(photos, claimed, p) == [group] + rest;
    assert group in GroupsFrom(photos, claimed, p);
    forall g | g in rest
      ensures k !in g.photos
    {
      assert g in GroupsFrom(photos, claimed, p);
    }
  }

  /** Two hashed photos `i < j` at or after position `p`, neither claimed nor in
      any group emitted from `p` on, are not close: the seed `i` would have
      taken `j`. */
  lemma {:induction false} GroupsFromComplete(photos: seq<PhotoWithHash>, claimed: set<nat>, p: nat, i: nat, j: nat)
    requires p <= i < j < |photos|
    requires photos[i].hash.Some? && photos[j].hash.Some?
    requires i !in claimed && j !in claimed
    requires Ungrouped(GroupsFrom(photos, claimed, p), i) && Ungrouped(GroupsFrom(photos, claimed, p), j)
    ensures !Similar(photos[i].hash.value, photos[j].hash.value)
    decreases |photos| - p, 1
  {
    if p in claimed || photos[p].hash.None? {
      CompletePastSeed(photos, claimed, p, i, j);
    } else if |Absorbed(photos, claimed, p, |photos|)| > 0 {
      CompletePastGroup(photos, claimed, p, i, j);
    } else if p == i {
      assert j !in Absorbed(photos, claimed, p, |photos|);
    } else {
      CompletePastSeed(photos, claimed, p, i, j);
    }
  }

  /** The step of the completeness proof past a seed that emits no group. */
  lemma {:induction false} CompletePastSeed(photos: seq<PhotoWithHash>, claimed: set<nat>, p: nat, i: nat, j: nat)
    requires p < i < j < |photos|
    requires photos[i].hash.Some? && photos[j].hash.Some?
    requires i !in claimed && j !in claimed
    requires p in claimed || photos[p].hash.None? || |Absorbed(photos, claimed, p, |photos|)| == 0
    requires Ungrouped(GroupsFrom(photos, claimed, p), i) && Ungrouped(GroupsFrom(photos, claimed, p), j)
    ensures !Similar(photos[i].hash.value, photos[j].hash.value)
    decreases |photos| - p, 0
  {
    NoGroupAtSeed(photos, claimed, p);
    GroupsFromComplete(photos, claimed, p + 1, i, j);
  }

  /** The step of the completeness proof past a seed that emits a group: the
      two photos are in neither that group nor the later ones. */
  lemma {:induction false} CompletePastGroup(photos: seq<PhotoWithHash>, claimed: set<nat>, p: nat, i: nat, j: nat)
    requires p <= i < j < |photos| && p !in claimed && photos[p].hash.Some?
    requires photos[i].hash.Some? && photos[j].hash.Some?
    requires i !in claimed && j !in claimed
    requires |Absorbed(photos, claimed, p, |photos|)| > 0
    requires Ungrouped(GroupsFrom(photos, claimed, p), i) && Ungrouped(GroupsFrom(photos, claimed, p), j)
    ensures !Similar(photos[i].hash.value, photos[j].hash.value)
    decreases |photos| - p, 0
  {
    var members := [p] + Absorbed(photos, claimed, p, |photos|);
    EmittedGroupSpares(photos, claimed, p, members, i);
    EmittedGroupSpares(photos, claimed, p, members, j);
    assert members[0] == p;
    GroupsFromComplete(photos, Mark(claimed, members), p + 1, i, j);
  }

  /** Completeness of the grouping: two hashed photos that are in no group
      are not close, taking the earlier one as the seed. */
  lemma UngroupedPhotosNotClose(photos: seq<PhotoWithHash>, i: nat, j: nat)
    requires i < j < |photos|
    requires photos[i].hash.Some? && photos[j].hash.Some?
    requires forall g :: g in GroupsOf(photos) ==> i !in g.photos && j !in g.photos
    ensures !Similar(photos[i].hash.value, photos[j].hash.value)
  {
    assert Ungrouped(GroupsFrom(photos, {}, 0), i) && Ungrouped(GroupsFrom(photos, {}, 0), j);
    GroupsFromComplete(photos, {}, 0, i, j);
  }

  /** The first photo of a group is its seed; every other photo comes after
      the seed and is close to it. */
  lemma MembersCloseToSeed(photos: seq<PhotoWithHash>)
    ensures forall g, m :: g in GroupsOf(photos) && 0 < m < |g.photos| ==>
      && g.photos[0] < g.photos[m] < |photos|
      && photos[g.photos[0]].hash.Some? && photos[g.photos[m]].hash.Some?
      && Similar(photos[g.photos[0]].hash.value, photos[g.photos[m]].hash.value)
  {
    GroupsFromShape(photos, {}, 0);
  }

  /** The photos of a group appear in increasing order of index. */
  lemma MembersInIndexOrder(photos: seq<PhotoWithHash>)
    ensures forall g, m, m' :: g in GroupsOf(photos) && 0 <= m < m' < |g.photos| ==> g.photos[m] < g.photos[m']
  {
    GroupsFromShape(photos, {}, 0);
  }

  /** Groups appear in increasing order of seed index. */
  lemma SeedsInIndexOrder(photos: seq<PhotoWithHash>)
    ensures SeedsIncrease(GroupsOf(photos))
  {
    GroupsFromSeedsIncrease(photos, {}, 0);
  }

  /** No photo is in two groups. */
  lemma GroupsDisjoint(photos: seq<PhotoWithHash>)
    ensures var r := GroupsOf(photos);
      forall a, b, k :: 0 <= a < b < |r| && k in r[a].photos ==> k !in r[b].photos
  {
    GroupsFromDisjoint(photos, {}, 0);
  }

  /** Every hashed photo after a group's seed and close to that seed is in the
      group, unless an earlier group already took it. */
  lemma SeedTakesEveryClosePhoto(photos: seq<PhotoWithHash>)
    ensures var r := GroupsOf(photos);
      forall a, k :: 0 <= a < |r| && CloseAfterSeed(photos, {}, r[a], k) ==>
        exists b :: 0 <= b <= a && k in r[b].photos
  {
    GroupsFromGreedy(photos, {}, 0);
  }

  /**
   * The integer test is the source's `1 - d / (8 * len) > 0.85`, read over the
   * reals. With an empty seed hash the source divides zero by zero, and the
   * resulting NaN is not greater than 0.85: such a seed takes nothing.
   */
  lemma {:induction false} ThresholdMatchesRatio(seed: Hash, other: Hash)
    ensures |seed| > 0 ==>
      (Similar(seed, other) <==> 1.0 - (HammingDistance(seed, other) as real) / ((8 * |seed|) as real) > 0.85)
    ensures |seed| == 0 ==> !Similar(seed, other)
  {
    if |seed| > 0 {
      RatioAboveThreshold(HammingDistance(seed, other) as real, (8 * |seed|) as real);
    }
  }

  /** `1 - d / bits > 0.85` is `20 * d < 3 * bits` when `bits` is positive. */
  lemma RatioAboveThreshold(d: real, bits: real)
    requires bits > 0.0
    ensures 1.0 - d / bits > 0.85 <==> 20.0 * d < 3.0 * bits
  {
    var q := d / bits;
    assert d == q * bits;
    if q < 0.15 {
      assert (0.15 - q) * bits > 0.0;
    } else {
      assert (q - 0.15) * bits >= 0.0;
    }
  }

  /** For the 8-byte (64-bit) gradient hash the source computes, a photo is
      close to the seed when at most 9 bits differ. */
  lemma {:induction false} EightByteThreshold(seed: Hash, other: Hash)
    requires |seed| == 8
    ensures Similar(seed, other) <==> HammingDistance(seed, other) <= 9
  {
  }

  /** Two photos that are close to the same seed, all three hashes of one
      length, are at most twice the threshold apart. */
  lemma {:induction false} CloseToSameSeed(seed: Hash, x: Hash, y: Hash)
    requires |seed| == |x| == |y|
    requires Similar(seed, x) && Similar(seed, y)
    ensures 20 * HammingDistance(x, y) < 2 * (3 * (8 * |seed|))
  {
    HammingSymmetric(seed, x);
    HammingTriangle(x, seed, y);
  }

  /** Photos of one group whose hashes have the seed's length are at most
      twice the threshold apart, though nothing makes them close. */
  lemma MembersWithinTwiceThreshold(photos: seq<PhotoWithHash>, g: SimilarityGroup, m: nat, m': nat)
    requires g in GroupsOf(photos) && 0 < m < |g.photos| && 0 < m' < |g.photos|
    ensures g.photos[0] < |photos| && g.photos[m] < |photos| && g.photos[m'] < |photos|
    ensures photos[g.photos[0]].hash.Some? && photos[g.photos[m]].hash.Some? && photos[g.photos[m']].hash.Some?
    ensures var s, x, y := photos[g.photos[0]].hash.value, photos[g.photos[m]].hash.value, photos[g.photos[m']].hash.value;
      |s| == |x| == |y| ==> 20 * HammingDistance(x, y) < 2 * (3 * (8 * |s|))
  {
    MembersCloseToSeed(photos);
    assert g.photos[0] < g.photos[m] < |photos| && photos[g.photos[m]].hash.Some?;
    assert g.photos[0] < g.photos[m'] < |photos| && photos[g.photos[m']].hash.Some?;
    var s, x, y := photos[g.photos[0]].hash.value, photos[g.photos[m]].hash.value, photos[g.photos[m']].hash.value;
    if |s| == |x| == |y| {
      CloseToSameSeed(s, x, y);
    }
  }

  /** With every photo from `i` on claimed, no group is emitted. */
  lemma {:induction false} GroupsFromAllClaimed(photos: seq<PhotoWithHash>, claimed: set<nat>, i: nat)
    requires i <= |photos|
    requires forall k :: i <= k < |photos| ==> k in claimed
    ensures GroupsFrom(photos, claimed, i) == []
    decreases |photos| - i
  {
    if i < |photos| {
      GroupsFromAllClaimed(photos, claimed, i + 1);
    }
  }

  /** When every photo has the same hash, the seed takes all the others. */
  lemma {:induction false} AbsorbedIdentical(photos: seq<PhotoWithHash>, h: Hash, hi: nat)
    requires 1 <= hi <= |photos| && |h| > 0
    requires forall k :: 0 <= k < |photos| ==> photos[k].hash == Some(h)
    ensures Absorbed(photos, {}, 0, hi) == seq(hi - 1, k => k + 1)
  {
    if hi > 1 {
      AbsorbedIdentical(photos, h, hi - 1);
      HammingSelf(h);
      assert Candidate(photos, {}, 0, hi - 1);
    }
  }

  /** Photos whose hashes are all the same (and not empty) form a single
      group holding every photo in order. */
  lemma IdenticalHashesFormOneGroup(photos: seq<PhotoWithHash>, h: Hash)
    requires |photos| >= 2 && |h| > 0
    requires forall k :: 0 <= k < |photos| ==> photos[k].hash == Some(h)
    ensures GroupsOf(photos) == [SimilarityGroup(seq(|photos|, k => k), GROUP_SIMILARITY)]
  {
    AbsorbedIdentical(photos, h, |photos|);
    var members := [0] + Absorbed(photos, {}, 0, |photos|);
    assert members == seq(|photos|, k => k);
    forall k | 1 <= k < |photos|
      ensures k in Mark({}, members)
    {
      assert members[k] == k;
    }
    GroupsFromAllClaimed(photos, Mark({}, members), 1);
  }

  /** Grouping is centred on the seed, not transitive: with one-byte hashes,
      0x01 and 0x02 are each one bit from the seed 0x00 and join its group,
      though they are two bits apart and so not close to each other. */
  lemma SeedCentredNotTransitive()
    ensures var photos := [PhotoWithHash("a.jpg", Some([0x00])),
                           PhotoWithHash("b.jpg", Some([0x01])),
                           PhotoWithHash("c.jpg", Some([0x02]))];
      && GroupsOf(photos) == [SimilarityGroup([0, 1, 2], GROUP_SIMILARITY)]
      && !Similar([0x01], [0x02])
  {
    var photos := [PhotoWithHash("a.jpg", Some([0x00])),
                   PhotoWithHash("b.jpg", Some([0x01])),
                   PhotoWithHash("c.jpg", Some([0x02]))];
    assert HammingDistance([0x00], [0x01]) == 1;
    assert HammingDistance([0x00], [0x02]) == 1;
    assert HammingDistance([0x01], [0x02]) == 2;
    assert Absorbed(photos, {}, 0, 3) == [1, 2];
    assert [0] + Absorbed(photos, {}, 0, 3) == [0, 1, 2];
    GroupsFromAllClaimed(photos, Mark({}, [0, 1, 2]), 1);
  }

  /**
   * The inner scan of the grouping loop for the seed `i`: every later photo
   * that is not used, has a hash and is close to the seed is appended to the
   * group and marked used. `claimed` is the set of photos the earlier groups
   * hold, which the `used` flags after `i` record.
   */
  method ScanFromSeed(photos: seq<PhotoWithHash>, used: array<bool>, i: nat, ghost claimed: set<nat>)
    returns (similar: seq<nat>)
    requires used.Length == |photos| && i < |photos| && photos[i].hash.Some?
    requires forall k :: i < k < |photos| ==> used[k] == (k in claimed)
    modifies used
    ensures similar == [i] + Absorbed(photos, claimed, i, |photos|)
    ensures forall k :: i < k < |photos| ==> used[k] == (k in claimed || k in similar)
    ensures forall k :: 0 <= k <= i ==> used[k] == old(used[k])
    ensures forall k :: 0 <= k < used.Length && old(used[k]) ==> used[k]
  {
    var n := |photos|;
    var hashI := photos[i].hash.value;
    similar := [i];
    for j := i + 1 to n
      invariant similar == [i] + Absorbed(photos, claimed, i, j)
      invariant forall k :: j <= k < n ==> used[k] == (k in claimed)
      invariant forall k :: i < k < j ==> used[k] == (k in claimed || k in similar)
      invariant forall k :: 0 <= k <= i ==> used[k] == old(used[k])
    {
      if used[j] {
        continue;
      }
      if photos[j].hash.None? {
        continue;
      }
      if Similar(hashI, photos[j].hash.value) {
        similar := similar + [j];
        used[j] := true;
      }
    }
  }

  /**
   * The grouping loop as the source runs it: a vector of `used` flags, an
   * outer walk over seeds and, for each seed, the inner scan over later photos.
   */
  method GroupSimilarPhotos(photos: seq<PhotoWithHash>) returns (groups: seq<SimilarityGroup>)
    ensures groups == GroupsOf(photos)
  {
    var n := |photos|;
    var used := new bool[n](_ => false);
    groups := [];
    ghost var claimed: set<nat> := {};
    for i := 0 to n
      invariant forall k :: i <= k < n ==> used[k] == (k in claimed)
      invariant groups + GroupsFrom(photos, claimed, i) == GroupsOf(photos)
    {
      if used[i] {
        continue;
      }
      if photos[i].hash.None? {
        continue;
      }
      used[i] := true;
      var similar := ScanFromSeed(photos, used, i, claimed);
      if |similar| >= 2 {
        var group := SimilarityGroup(similar, GROUP_SIMILARITY);
        assert (groups + [group]) + GroupsFrom(photos, Mark(claimed, similar), i + 1)
            == groups + ([group] + GroupsFrom(photos, Mark(claimed, similar), i + 1));
        groups := groups + [group];
        claimed := Mark(claimed, similar);
      }
    }
  }
}
