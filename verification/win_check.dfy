/**
 The win test (shared/utils/mahjongLogic.ts, checkWin and canFormSets): an
 eight-pairs shortcut for a meld-free 17-tile hand, otherwise a recursive
 search that splits the sorted hand into one pair and the sets still needed.
 */
module WinCheck {
  import opened Wrappers
  import opened Tiles
  import opened TileSeq
  import opened Grouping
  import opened HandSort

  /** `fullHand`: the hand, followed by the extra tile when there is one. */
  function FullHand(hand: seq<Tile>, extra: Option<Tile>): (r: seq<Tile>)
    ensures |r| == |hand| + (if extra.Some? then 1 else 0)
    ensures multiset(r) == multiset(hand) + (if extra.Some? then multiset{extra.value} else multiset{})
  {
    if extra.Some? then hand + [extra.value] else hand
  }

  /** `remaining.splice(i, 2)`: the tiles without positions `i` and `i + 1`. */
  function RemovePair(tiles: seq<Tile>, i: int): (r: seq<Tile>)
    requires 0 <= i < |tiles| - 1
    ensures |r| == |tiles| - 2
    ensures multiset(r) + multiset{tiles[i], tiles[i + 1]} == multiset(tiles)
  {
    assert tiles == tiles[..i] + [tiles[i], tiles[i + 1]] + tiles[i + 2..];
    tiles[..i] + tiles[i + 2..]
  }

  /** Three tiles of one kind. */
  predicate IsTriplet(a: Tile, b: Tile, c: Tile) {
    KindOf(a) == KindOf(b) && KindOf(b) == KindOf(c)
  }

  /** Three tiles of one suit other than winds and dragons with values v, v + 1, v + 2. */
  predicate IsRun(a: Tile, b: Tile, c: Tile) {
    && !IsHonor(a.suit)
    && b.suit == a.suit && c.suit == a.suit
    && b.value == a.value + 1 && c.value == a.value + 2
  }

  /**
   canFormSets: can `tiles` be used up by a pair (unless `hasPair`) and
   `setsNeeded` sets? Tried in the source's order: a pair, then a triplet at
   the front, then a run from the front.
   */
  predicate CanFormSets(tiles: seq<Tile>, setsNeeded: int, hasPair: bool)
    decreases |tiles|, 1
  {
    if tiles == [] then setsNeeded == 0 && hasPair
    else
      || (!hasPair && PairSplits(tiles, setsNeeded))
      || TripletSplits(tiles, setsNeeded, hasPair)
      || RunSplits(tiles, setsNeeded, hasPair)
  }

  /**
   The pair loop: some adjacent positions hold tiles of one kind and the
   rest, with the pair found, can be used up (the loop returns on the first
   such position, which yields the same answer).
   */
  predicate PairSplits(tiles: seq<Tile>, setsNeeded: int)
    decreases |tiles|, 0
  {
    exists i :: 0 <= i < |tiles| - 1 && KindOf(tiles[i]) == KindOf(tiles[i + 1])
                && CanFormSets(RemovePair(tiles, i), setsNeeded, true)
  }

  /** The triplet branch: the first three tiles are of one kind and the rest can be used up. */
  predicate TripletSplits(tiles: seq<Tile>, setsNeeded: int, hasPair: bool)
    decreases |tiles|, 0
  {
    && setsNeeded > 0 && |tiles| >= 3 && IsTriplet(tiles[0], tiles[1], tiles[2])
    && CanFormSets(tiles[3..], setsNeeded - 1, hasPair)
  }

  /**
   The positions of the run branch: the first tile, not a wind or dragon,
   and the first tiles of the next two values of its suit (`findIndex`).
   */
  function RunPositions(tiles: seq<Tile>): (r: Option<(int, int)>)
    ensures r.Some? ==> && |tiles| > 0 && 0 < r.value.0 < |tiles| && 0 < r.value.1 < |tiles|
                        && IsRun(tiles[0], tiles[r.value.0], tiles[r.value.1])
  {
    if tiles == [] || IsHonor(tiles[0].suit) then None
    else
      var second := FirstIndexOf(tiles, Kind(tiles[0].suit, tiles[0].value + 1));
      var third := FirstIndexOf(tiles, Kind(tiles[0].suit, tiles[0].value + 2));
      if second != -1 && third != -1 then Some((second, third)) else None
  }

  /**
   The run branch: the three tiles are removed by identity, as the source's
   `filter` on `id` does, and the rest can be used up.
   */
  predicate RunSplits(tiles: seq<Tile>, setsNeeded: int, hasPair: bool)
    decreases |tiles|, 0
  {
    && setsNeeded > 0 && |tiles| >= 3
    && var pos := RunPositions(tiles);
    && pos.Some?
    && CanFormSets(RemoveIds(tiles, {tiles[0].id, tiles[pos.value.0].id, tiles[pos.value.1].id}),
                   setsNeeded - 1, hasPair)
  }

  /**
   A successful search needs at least three tiles per set still needed and two
   more for a pair not yet found, whatever the identities: every branch uses
   up at least as many tiles as it takes credit for.
   */
  lemma {:induction false} CanFormSetsLength(tiles: seq<Tile>, setsNeeded: int, hasPair: bool)
    requires CanFormSets(tiles, setsNeeded, hasPair)
    ensures setsNeeded >= 0 && |tiles| >= 3 * setsNeeded + (if hasPair then 0 else 2)
    decreases |tiles|, 1
  {
    if tiles == [] {
    } else if !hasPair && PairSplits(tiles, setsNeeded) {
      PairSplitsLength(tiles, setsNeeded);
    } else if TripletSplits(tiles, setsNeeded, hasPair) {
      CanFormSetsLength(tiles[3..], setsNeeded - 1, hasPair);
    } else {
      RunSplitsLength(tiles, setsNeeded, hasPair);
    }
  }

  lemma {:induction false} PairSplitsLength(tiles: seq<Tile>, setsNeeded: int)
    requires PairSplits(tiles, setsNeeded)
    ensures setsNeeded >= 0 && |tiles| >= 3 * setsNeeded + 2
    decreases |tiles|, 0
  {
    var i :| 0 <= i < |tiles| - 1 && KindOf(tiles[i]) == KindOf(tiles[i + 1])
             && CanFormSets(RemovePair(tiles, i), setsNeeded, true);
    CanFormSetsLength(RemovePair(tiles, i), setsNeeded, true);
  }

  lemma {:induction false} RunSplitsLength(tiles: seq<Tile>, setsNeeded: int, hasPair: bool)
    requires RunSplits(tiles, setsNeeded, hasPair)
    ensures setsNeeded > 0 && |tiles| >= 3 * setsNeeded + (if hasPair then 0 else 2)
    decreases |tiles|, 0
  {
    var pos := RunPositions(tiles);
    RunRemovesThree(tiles, pos.value.0, pos.value.1);
    CanFormSetsLength(RemoveIds(tiles, {tiles[0].id, tiles[pos.value.0].id, tiles[pos.value.1].id}),
                      setsNeeded - 1, hasPair);
  }

  /** The run's three positions are distinct, so filtering out their identities drops at least three tiles. */
  lemma RunRemovesThree(tiles: seq<Tile>, b: int, c: int)
    requires 0 < b < |tiles| && 0 < c < |tiles| && IsRun(tiles[0], tiles[b], tiles[c])
    ensures |RemoveIds(tiles, {tiles[0].id, tiles[b].id, tiles[c].id})| + 3 <= |tiles|
  {
    var ids := {tiles[0].id, tiles[b].id, tiles[c].id};
    var ps := if b < c then [0, b, c] else [0, c, b];
    RemoveIdsDrops(tiles, ids, ps);
  }

  /** Two tiles of one kind. */
  predicate IsPair(p: seq<Tile>) {
    |p| == 2 && KindOf(p[0]) == KindOf(p[1])
  }

  /** A triplet or a run. */
  predicate IsSet(s: seq<Tile>) {
    |s| == 3 && (IsTriplet(s[0], s[1], s[2]) || IsRun(s[0], s[1], s[2]))
  }

  function Flatten(groups: seq<seq<Tile>>): seq<Tile> {
    if groups == [] then [] else groups[0] + Flatten(groups[1..])
  }

  /**
   The reference for a winning split: `pairs` (one pair, or none when the
   pair is already found) and exactly `setsNeeded` sets that together use
   every tile exactly once.
   */
  ghost predicate Decomposes(tiles: seq<Tile>, setsNeeded: int, hasPair: bool,
                             pairs: seq<seq<Tile>>, sets: seq<seq<Tile>>)
  {
    && |pairs| == (if hasPair then 0 else 1)
    && (forall p :: p in pairs ==> IsPair(p))
    && |sets| == setsNeeded
    && (forall s :: s in sets ==> IsSet(s))
    && multiset(tiles) == multiset(Flatten(pairs)) + multiset(Flatten(sets))
  }

  /** Some pair list and set list split `tiles` as `Decomposes` requires. */
  ghost predicate Splits(tiles: seq<Tile>, setsNeeded: int, hasPair: bool) {
    exists pairs, sets :: Decomposes(tiles, setsNeeded, hasPair, pairs, sets)
  }

  /** Groups of fixed size flatten to that many tiles per group. */
  lemma {:induction false} FlattenLength(groups: seq<seq<Tile>>, n: nat)
    requires forall g :: g in groups ==> |g| == n
    ensures |Flatten(groups)| == n * |groups|
    decreases |groups|
  {
    if groups != [] {
      var rest := groups[1..];
      assert |groups[0]| == n by {
        assert groups[0] in groups;
      }
      assert forall g :: g in rest ==> g in groups;
      FlattenLength(rest, n);
      assert |groups| == |rest| + 1;
      MulSucc(n, |rest|);
    }
  }

  lemma MulSucc(n: nat, k: nat)
    ensures n * (k + 1) == n * k + n
  {
  }

  /**
   Soundness of canFormSets, constructively: from a successful search over
   tiles with distinct identities, the pair and the sets it found.
   */
  lemma {:induction false} CanFormSetsWitness(tiles: seq<Tile>, setsNeeded: int, hasPair: bool)
    returns (pairs: seq<seq<Tile>>, sets: seq<seq<Tile>>)
    requires DistinctIds(tiles)
    requires CanFormSets(tiles, setsNeeded, hasPair)
    ensures Decomposes(tiles, setsNeeded, hasPair, pairs, sets)
    decreases |tiles|, 1
  {
    if tiles == [] {
      pairs, sets := [], [];
    } else if !hasPair && PairSplits(tiles, setsNeeded) {
      pairs, sets := PairWitness(tiles, setsNeeded);
    } else if TripletSplits(tiles, setsNeeded, hasPair) {
      pairs, sets := TripletWitness(tiles, setsNeeded, hasPair);
    } else {
      pairs, sets := RunWitness(tiles, setsNeeded, hasPair);
    }
  }

  lemma {:induction false} PairWitness(tiles: seq<Tile>, setsNeeded: int)
    returns (pairs: seq<seq<Tile>>, sets: seq<seq<Tile>>)
    requires DistinctIds(tiles)
    requires PairSplits(tiles, setsNeeded)
    ensures Decomposes(tiles, setsNeeded, false, pairs, sets)
    decreases |tiles|, 0
  {
    var i :| 0 <= i < |tiles| - 1 && KindOf(tiles[i]) == KindOf(tiles[i + 1])
             && CanFormSets(RemovePair(tiles, i), setsNeeded, true);
    var rest := RemovePair(tiles, i);
    SubMultisetDistinct(rest, tiles);
    var p, s := CanFormSetsWitness(rest, setsNeeded, true);
    pairs, sets := PairStep(tiles, i, setsNeeded, p, s);
  }

  lemma {:induction false} TripletWitness(tiles: seq<Tile>, setsNeeded: int, hasPair: bool)
    returns (pairs: seq<seq<Tile>>, sets: seq<seq<Tile>>)
    requires DistinctIds(tiles)
    requires TripletSplits(tiles, setsNeeded, hasPair)
    ensures Decomposes(tiles, setsNeeded, hasPair, pairs, sets)
    decreases |tiles|, 0
  {
    var rest := tiles[3..];
    assert tiles == tiles[..3] + rest;
    SubMultisetDistinct(rest, tiles);
    var p, s := CanFormSetsWitness(rest, setsNeeded - 1, hasPair);
    pairs, sets := TripletStep(tiles, setsNeeded, hasPair, p, s);
  }

  lemma {:induction false} RunWitness(tiles: seq<Tile>, setsNeeded: int, hasPair: bool)
    returns (pairs: seq<seq<Tile>>, sets: seq<seq<Tile>>)
    requires DistinctIds(tiles)
    requires RunSplits(tiles, setsNeeded, hasPair)
    ensures Decomposes(tiles, setsNeeded, hasPair, pairs, sets)
    decreases |tiles|, 0
  {
    var pos := RunPositions(tiles);
    var rest := RemoveIds(tiles, {tiles[0].id, tiles[pos.value.0].id, tiles[pos.value.1].id});
    RemoveThreeIds(tiles, 0, pos.value.0, pos.value.1);
    var p, s := CanFormSetsWitness(rest, setsNeeded - 1, hasPair);
    pairs, sets := RunStep(tiles, pos.value.0, pos.value.1, setsNeeded, hasPair, p, s);
  }

  /** Adding the pair at `i` to a split of the rest splits the whole. */
  lemma PairStep(tiles: seq<Tile>, i: int, setsNeeded: int, p: seq<seq<Tile>>, s: seq<seq<Tile>>)
    returns (pairs: seq<seq<Tile>>, sets: seq<seq<Tile>>)
    requires 0 <= i < |tiles| - 1 && KindOf(tiles[i]) == KindOf(tiles[i + 1])
    requires Decomposes(RemovePair(tiles, i), setsNeeded, true, p, s)
    ensures Decomposes(tiles, setsNeeded, false, pairs, sets)
  {
    pairs, sets := [[tiles[i], tiles[i + 1]]], s;
    assert Flatten(pairs) == [tiles[i], tiles[i + 1]];
    assert p == [];
  }

  /** Adding the leading triplet to a split of the rest splits the whole. */
  lemma TripletStep(tiles: seq<Tile>, setsNeeded: int, hasPair: bool, p: seq<seq<Tile>>, s: seq<seq<Tile>>)
    returns (pairs: seq<seq<Tile>>, sets: seq<seq<Tile>>)
    requires |tiles| >= 3 && IsTriplet(tiles[0], tiles[1], tiles[2])
    requires Decomposes(tiles[3..], setsNeeded - 1, hasPair, p, s)
    ensures Decomposes(tiles, setsNeeded, hasPair, pairs, sets)
  {
    pairs, sets := p, [tiles[..3]] + s;
    assert tiles == tiles[..3] + tiles[3..];
    assert Flatten(sets) == tiles[..3] + Flatten(s);
    assert IsSet(tiles[..3]);
  }

  /** Adding the run at positions 0, `b`, `c` to a split of what the filter leaves splits the whole. */
  lemma RunStep(tiles: seq<Tile>, b: int, c: int, setsNeeded: int, hasPair: bool,
                p: seq<seq<Tile>>, s: seq<seq<Tile>>)
    returns (pairs: seq<seq<Tile>>, sets: seq<seq<Tile>>)
    requires 0 < b < |tiles| && 0 < c < |tiles| && IsRun(tiles[0], tiles[b], tiles[c])
    requires multiset(RemoveIds(tiles, {tiles[0].id, tiles[b].id, tiles[c].id})) + multiset{tiles[0], tiles[b], tiles[c]}
             == multiset(tiles)
    requires Decomposes(RemoveIds(tiles, {tiles[0].id, tiles[b].id, tiles[c].id}), setsNeeded - 1, hasPair, p, s)
    ensures Decomposes(tiles, setsNeeded, hasPair, pairs, sets)
  {
    var run := [tiles[0], tiles[b], tiles[c]];
    assert IsSet(run);
    pairs, sets := p, [run] + s;
    assert Flatten(sets) == run + Flatten(s);
  }

  /** canFormSets is sound: a `true` answer always stands for an actual split. */
  lemma CanFormSetsSound(tiles: seq<Tile>, setsNeeded: int, hasPair: bool)
    requires DistinctIds(tiles)
    requires CanFormSets(tiles, setsNeeded, hasPair)
    ensures Splits(tiles, setsNeeded, hasPair)
    ensures setsNeeded >= 0 && |tiles| == 3 * setsNeeded + (if hasPair then 0 else 2)
  {
    var pairs, sets := CanFormSetsWitness(tiles, setsNeeded, hasPair);
    FlattenLength(pairs, 2);
    FlattenLength(sets, 3);
    assert |multiset(tiles)| == |multiset(Flatten(pairs))| + |multiset(Flatten(sets))|;
  }

  /** Triplets laid end to end, with the pair already found, are always accepted. */
  lemma {:induction false} TripletsAccepted(tiles: seq<Tile>, n: nat)
    requires |tiles| == 3 * n
    requires forall k :: 0 <= k < n ==> IsTriplet(tiles[3 * k], tiles[3 * k + 1], tiles[3 * k + 2])
    ensures CanFormSets(tiles, n, true)
    decreases n
  {
    if n > 0 {
      var rest := tiles[3..];
      forall k | 0 <= k < n - 1
        ensures IsTriplet(rest[3 * k], rest[3 * k + 1], rest[3 * k + 2])
      {
        assert rest[3 * k] == tiles[3 * (k + 1)];
        assert rest[3 * k + 1] == tiles[3 * (k + 1) + 1];
        assert rest[3 * k + 2] == tiles[3 * (k + 1) + 2];
      }
      TripletsAccepted(rest, n - 1);
      assert IsTriplet(tiles[3 * 0], tiles[3 * 0 + 1], tiles[3 * 0 + 2]);
      assert TripletSplits(tiles, n, true);
    }
  }

  /** Triplets laid end to end and then a pair are accepted as a hand still needing its pair. */
  lemma TripletsThenPairAccepted(tiles: seq<Tile>, n: nat)
    requires |tiles| == 3 * n + 2
    requires forall k :: 0 <= k < n ==> IsTriplet(tiles[3 * k], tiles[3 * k + 1], tiles[3 * k + 2])
    requires KindOf(tiles[3 * n]) == KindOf(tiles[3 * n + 1])
    ensures CanFormSets(tiles, n, false)
  {
    var rest := RemovePair(tiles, 3 * n);
    assert rest == tiles[..3 * n];
    TripletsAccepted(rest, n);
    assert PairSplits(tiles, n);
  }

  /** A hand in sorted order that the search splits is a win on its own. */
  lemma WinBySortedSearch(hand: seq<Tile>, melds: seq<Meld>)
    requires SortedHand(hand)
    requires CanFormSets(hand, 5 - |melds|, false)
    ensures CheckWin(hand, melds, None)
  {
    assert FullHand(hand, None) == hand;
    SortHandSorted(hand);
  }

  /** A hand of winds and dragons only. */
  predicate AllHonors(tiles: seq<Tile>) {
    forall i :: 0 <= i < |tiles| ==> IsHonor(tiles[i].suit)
  }

  /**
   Over winds and dragons no run applies, so a successful search used up
   exactly two tiles per pair and three per set, identities or not.
   */
  lemma {:induction false} HonorsLength(tiles: seq<Tile>, setsNeeded: int, hasPair: bool)
    requires AllHonors(tiles)
    requires CanFormSets(tiles, setsNeeded, hasPair)
    ensures |tiles| == 3 * setsNeeded + (if hasPair then 0 else 2)
    decreases |tiles|
  {
    if tiles != [] {
      if !hasPair && PairSplits(tiles, setsNeeded) {
        var i :| 0 <= i < |tiles| - 1 && KindOf(tiles[i]) == KindOf(tiles[i + 1])
                 && CanFormSets(RemovePair(tiles, i), setsNeeded, true);
        PairHonors(tiles, i);
        HonorsLength(RemovePair(tiles, i), setsNeeded, true);
      } else {
        assert RunPositions(tiles) == None;
        assert TripletSplits(tiles, setsNeeded, hasPair);
        assert AllHonors(tiles[3..]);
        HonorsLength(tiles[3..], setsNeeded - 1, hasPair);
      }
    }
  }

  /** Taking a pair out of winds and dragons leaves winds and dragons. */
  lemma PairHonors(tiles: seq<Tile>, i: int)
    requires AllHonors(tiles)
    requires 0 <= i < |tiles| - 1
    ensures AllHonors(RemovePair(tiles, i))
  {
    var rest := RemovePair(tiles, i);
    forall j | 0 <= j < |rest|
      ensures IsHonor(rest[j].suit)
    {
      assert rest[j] in multiset(tiles);
    }
  }

  /** The eight-pairs shortcut: no melds, 17 tiles and exactly eight kinds held exactly twice. */
  predicate EightPairs(full: seq<Tile>, melds: seq<Meld>): (r: bool)
    ensures r ==> exists i :: 0 <= i < |full| && CountOf(full, KindOf(full[i])) == 1
    ensures r ==> forall k :: CountOf(full, k) <= 2
  {
    if |melds| == 0 && |full| == 17 && CountEq(GroupSizes(full), 2) == 8 then
      EightPairsLeaveLoneTile(full);
      true
    else
      false
  }

  /**
   What the shortcut tests, against the positions of each kind: no melds,
   17 tiles, and exactly eight kinds each held at exactly two positions.
   */
  lemma EightPairsMeaning(full: seq<Tile>, melds: seq<Meld>)
    ensures EightPairs(full, melds) <==> |melds| == 0 && |full| == 17 && |KindsHeld(full, 2)| == 8
  {
    GroupSizesHeld(full, 2);
  }

  /**
   checkWin: the eight-pairs shortcut, otherwise the search over the sorted
   full hand for one pair and `5 - melds.length` sets.
   */
  function CheckWin(hand: seq<Tile>, melds: seq<Meld>, extra: Option<Tile>): (r: bool)
    ensures EightPairs(FullHand(hand, extra), melds) ==> r
  {
    var full := FullHand(hand, extra);
    EightPairs(full, melds) || CanFormSets(SortHand(full), 5 - |melds|, false)
  }

  /**
   checkWin is sound on tiles with distinct identities: a win is either the
   eight-pairs shortcut or an actual split of the full hand into one pair and
   `5 - melds.length` sets, so the full hand then has 17 - 3 * melds.length tiles.
   */
  lemma CheckWinSound(hand: seq<Tile>, melds: seq<Meld>, extra: Option<Tile>)
    requires DistinctIds(FullHand(hand, extra))
    requires CheckWin(hand, melds, extra)
    ensures || EightPairs(FullHand(hand, extra), melds)
            || (&& |FullHand(hand, extra)| == 17 - 3 * |melds|
                && Splits(FullHand(hand, extra), 5 - |melds|, false))
  {
    var full := FullHand(hand, extra);
    if !EightPairs(full, melds) {
      SortedSearchSound(full, 5 - |melds|);
    }
  }

  /** A split of the sorted hand is a split of the hand. */
  lemma SortedSearchSound(full: seq<Tile>, setsNeeded: int)
    requires DistinctIds(full)
    requires CanFormSets(SortHand(full), setsNeeded, false)
    ensures |full| == 3 * setsNeeded + 2 && Splits(full, setsNeeded, false)
  {
    var sorted := SortHand(full);
    SubMultisetDistinct(sorted, full);
    var pairs, sets := CanFormSetsWitness(sorted, setsNeeded, false);
    CanFormSetsSound(sorted, setsNeeded, false);
    assert Decomposes(full, setsNeeded, false, pairs, sets);
  }

  /** The sum of the counts of `s` over the kinds `ks`. */
  function SumCounts(s: seq<Tile>, ks: seq<Kind>): nat {
    if ks == [] then 0 else CountOf(s, ks[0]) + SumCounts(s, ks[1..])
  }

  lemma {:induction false} SumIsSumCounts(s: seq<Tile>, ks: seq<Kind>, xs: seq<nat>)
    requires |xs| == |ks|
    requires forall i :: 0 <= i < |xs| ==> xs[i] == CountOf(s, ks[i])
    ensures Sum(xs) == SumCounts(s, ks)
    decreases |ks|
  {
    if ks != [] {
      SumIsSumCounts(s, ks[1..], xs[1..]);
    }
  }

  /** How many entries of `ks` equal `k`. */
  function Occurrences(ks: seq<Kind>, k: Kind): nat {
    if ks == [] then 0 else (if ks[0] == k then 1 else 0) + Occurrences(ks[1..], k)
  }

  lemma {:induction false} OccursOnce(ks: seq<Kind>, k: Kind)
    requires DistinctKinds(ks)
    ensures Occurrences(ks, k) == if k in ks then 1 else 0
    decreases |ks|
  {
    if ks != [] {
      assert DistinctKinds(ks[1..]);
      OccursOnce(ks[1..], k);
      if ks[0] == k {
        assert k !in ks[1..];
      }
      assert k in ks <==> ks[0] == k || k in ks[1..];
    }
  }

  lemma {:induction false} SumCountsHead(x: Tile, rest: seq<Tile>, ks: seq<Kind>)
    ensures SumCounts([x] + rest, ks) == Occurrences(ks, KindOf(x)) + SumCounts(rest, ks)
    decreases |ks|
  {
    if ks != [] {
      assert ([x] + rest)[0] == x && ([x] + rest)[1..] == rest;
      SumCountsHead(x, rest, ks[1..]);
    }
  }

  /** Over distinct kinds covering every tile, the counts add up to the number of tiles. */
  lemma {:induction false} SumCountsCovering(s: seq<Tile>, ks: seq<Kind>)
    requires DistinctKinds(ks)
    requires forall i :: 0 <= i < |s| ==> KindOf(s[i]) in ks
    ensures SumCounts(s, ks) == |s|
    decreases |s|
  {
    if s == [] {
      SumCountsEmpty(ks);
    } else {
      assert s == [s[0]] + s[1..];
      SumCountsHead(s[0], s[1..], ks);
      OccursOnce(ks, KindOf(s[0]));
      SumCountsCovering(s[1..], ks);
    }
  }

  lemma {:induction false} SumCountsEmpty(ks: seq<Kind>)
    ensures SumCounts([], ks) == 0
    decreases |ks|
  {
    if ks != [] {
      SumCountsEmpty(ks[1..]);
    }
  }

  /** The group sizes of a hand add up to the hand's length. */
  lemma GroupSizesSum(s: seq<Tile>)
    ensures Sum(GroupSizes(s)) == |s|
  {
    SumIsSumCounts(s, Keys(s), GroupSizes(s));
    SumCountsCovering(s, Keys(s));
  }

  /** Every entry at least one: twice the number of twos bounds the sum from below. */
  lemma {:induction false} SumAtLeastTwos(xs: seq<nat>)
    requires forall i :: 0 <= i < |xs| ==> xs[i] >= 1
    ensures Sum(xs) >= 2 * CountEq(xs, 2)
    decreases |xs|
  {
    if xs != [] {
      SumAtLeastTwos(xs[1..]);
    }
  }

  /** Sum = 2 * (number of twos) + 1 with every entry positive: one 1, and only 1s and 2s. */
  lemma {:induction false} OneLoneEntry(xs: seq<nat>)
    requires forall i :: 0 <= i < |xs| ==> xs[i] >= 1
    requires Sum(xs) == 2 * CountEq(xs, 2) + 1
    ensures exists i :: 0 <= i < |xs| && xs[i] == 1
    ensures forall i :: 0 <= i < |xs| ==> xs[i] <= 2
    decreases |xs|
  {
    SumAtLeastTwos(xs[1..]);
    if xs[0] == 2 {
      OneLoneEntry(xs[1..]);
      forall i | 1 <= i < |xs|
        ensures xs[i] <= 2
      {
        assert xs[i] == xs[1..][i - 1];
      }
      var j :| 0 <= j < |xs[1..]| && xs[1..][j] == 1;
      assert xs[j + 1] == 1;
    } else {
      assert xs[0] == 1;
      AllTwos(xs[1..]);
      forall i | 1 <= i < |xs|
        ensures xs[i] <= 2
      {
        assert xs[i] == xs[1..][i - 1];
      }
    }
  }

  /** Sum = 2 * (number of twos) with every entry positive: all entries are 2. */
  lemma {:induction false} AllTwos(xs: seq<nat>)
    requires forall i :: 0 <= i < |xs| ==> xs[i] >= 1
    requires Sum(xs) == 2 * CountEq(xs, 2)
    ensures forall i :: 0 <= i < |xs| ==> xs[i] == 2
    decreases |xs|
  {
    if xs != [] {
      SumAtLeastTwos(xs[1..]);
      AllTwos(xs[1..]);
      forall i | 1 <= i < |xs|
        ensures xs[i] == 2
      {
        assert xs[i] == xs[1..][i - 1];
      }
    }
  }

  /** A bound on every group size bounds the count of every kind. */
  lemma CountBoundedBySizes(s: seq<Tile>, k: Kind, n: nat)
    requires forall i :: 0 <= i < |GroupSizes(s)| ==> GroupSizes(s)[i] <= n
    ensures CountOf(s, k) <= n
  {
    if CountOf(s, k) > 0 {
      var t := Matches(s, k)[0];
      assert t in Matches(s, k);
      var p :| 0 <= p < |s| && s[p] == t;
      assert k in Keys(s);
      var q :| 0 <= q < |Keys(s)| && Keys(s)[q] == k;
      assert GroupSizes(s)[q] <= n;
    }
  }

  /**
   The eight-pairs shortcut accepts a hand of eight pairs and one lone tile:
   the seventeenth tile need not belong to anything.
   */
  lemma EightPairsLeaveLoneTile(full: seq<Tile>)
    requires |full| == 17 && CountEq(GroupSizes(full), 2) == 8
    ensures exists i :: 0 <= i < |full| && CountOf(full, KindOf(full[i])) == 1
    ensures forall k :: CountOf(full, k) <= 2
  {
    var xs := GroupSizes(full);
    var ks := Keys(full);
    GroupSizesSum(full);
    forall i | 0 <= i < |xs|
      ensures xs[i] >= 1
    {
      GroupSizesMeaning(full, i);
    }
    OneLoneEntry(xs);
    var j :| 0 <= j < |xs| && xs[j] == 1;
    assert ks[j] in ks;
    var i :| 0 <= i < |full| && KindOf(full[i]) == ks[j];
    forall k
      ensures CountOf(full, k) <= 2
    {
      CountBoundedBySizes(full, k, 2);
    }
  }
}
