/**
 Grouping a hand by (suit, value), as the rules engine does with a record
 keyed by `${suit}-${value}` (shared/utils/mahjongLogic.ts, in
 getPossibleAnKongs and checkWin). A record with such keys enumerates its
 values in insertion order, so the groups come in order of first occurrence.
 */
module Grouping {
  import opened Tiles
  import opened TileSeq

  predicate DistinctKinds(ks: seq<Kind>) {
    forall i, j :: 0 <= i < j < |ks| ==> ks[i] != ks[j]
  }

  /** The record's keys: each kind of the hand once, in order of first occurrence. */
  function Keys(s: seq<Tile>): (r: seq<Kind>)
    ensures DistinctKinds(r)
    ensures forall k :: k in r <==> exists i :: 0 <= i < |s| && KindOf(s[i]) == k
    decreases |s|
  {
    if s == [] then []
    else
      var p := s[..|s| - 1];
      var ks := Keys(p);
      var k := KindOf(s[|s| - 1]);
      assert forall i :: 0 <= i < |p| ==> s[i] == p[i];
      if k in ks then ks else ks + [k]
  }

  /**
   The record's values: for each key, the hand's tiles of that kind in order.
   Each group holds exactly the tiles of its kind, as many as the hand has
   positions of that kind, and is headed by the hand's first tile of it.
   */
  function Groups(s: seq<Tile>): (r: seq<seq<Tile>>)
    ensures |r| == |Keys(s)|
    ensures forall i :: 0 <= i < |r| ==> r[i] == Matches(s, Keys(s)[i])
  {
    var ks := Keys(s);
    seq(|ks|, i requires 0 <= i < |ks| => Matches(s, ks[i]))
  }

  /**
   What each group is, against the positions of its kind: exactly the hand's
   tiles of that kind, one per position holding it (so never none), headed
   by the hand's first tile of it.
   */
  lemma GroupsMeaning(s: seq<Tile>, i: int)
    requires 0 <= i < |Groups(s)|
    ensures |Groups(s)[i]| == |Positions(s, Keys(s)[i])| > 0
    ensures forall t :: t in Groups(s)[i] <==> t in s && KindOf(t) == Keys(s)[i]
    ensures 0 <= FirstIndexOf(s, Keys(s)[i]) && Groups(s)[i][0] == s[FirstIndexOf(s, Keys(s)[i])]
  {
    var k := Keys(s)[i];
    KeyGroupNonEmpty(s, k);
    CountIsPositions(s, k);
    MatchesHead(s, k);
  }

  /** The sizes of the groups (`counts` in checkWin). */
  function GroupSizes(s: seq<Tile>): (r: seq<nat>)
    ensures |r| == |Keys(s)|
    ensures forall i :: 0 <= i < |r| ==> r[i] == CountOf(s, Keys(s)[i])
  {
    var g := Groups(s);
    seq(|g|, i requires 0 <= i < |g| => |g[i]|)
  }

  /** How many entries of `xs` equal `n`. */
  function CountEq(xs: seq<nat>, n: nat): nat {
    if xs == [] then 0 else (if xs[0] == n then 1 else 0) + CountEq(xs[1..], n)
  }

  function Sum(xs: seq<nat>): nat {
    if xs == [] then 0 else xs[0] + Sum(xs[1..])
  }

  /** A non-empty group's first tile is the hand's first tile of that kind. */
  lemma {:induction false} MatchesHead(s: seq<Tile>, k: Kind)
    requires Matches(s, k) != []
    ensures 0 <= FirstIndexOf(s, k)
    ensures Matches(s, k)[0] == s[FirstIndexOf(s, k)]
    decreases |s|
  {
    if KindOf(s[0]) != k {
      MatchesHead(s[1..], k);
    }
  }

  /** Each key's count is the number of positions holding its kind, at least one. */
  lemma GroupSizesMeaning(s: seq<Tile>, i: int)
    requires 0 <= i < |GroupSizes(s)|
    ensures GroupSizes(s)[i] == |Positions(s, Keys(s)[i])| >= 1
  {
    GroupsMeaning(s, i);
  }

  /** The kinds held at exactly `n` positions of `s`. */
  ghost function KindsHeld(s: seq<Tile>, n: nat): set<Kind> {
    set i | 0 <= i < |s| && |Positions(s, KindOf(s[i]))| == n :: KindOf(s[i])
  }

  /**
   Counting the group sizes equal to `n` counts the kinds held exactly `n`
   times: `Object.values(counts).filter(c => c === n).length`.
   */
  lemma GroupSizesHeld(s: seq<Tile>, n: nat)
    ensures CountEq(GroupSizes(s), n) == |KindsHeld(s, n)|
  {
    var ks := Keys(s);
    assert GroupSizes(s) == seq(|ks|, i requires 0 <= i < |ks| => CountOf(s, ks[i]));
    CountEqKinds(s, ks, n);
    forall k
      ensures k in CountedKinds(s, ks, n) <==> k in KindsHeld(s, n)
    {
      CountedKindsMembers(s, ks, n, k);
      CountIsPositions(s, k);
      if k in ks && CountOf(s, k) == n {
        var i :| 0 <= i < |s| && KindOf(s[i]) == k;
        assert KindOf(s[i]) in KindsHeld(s, n);
      }
      if k in KindsHeld(s, n) {
        var i :| 0 <= i < |s| && |Positions(s, KindOf(s[i]))| == n && KindOf(s[i]) == k;
      }
    }
    assert CountedKinds(s, ks, n) == KindsHeld(s, n);
  }

  /** The kinds of `ks` that `s` holds exactly `n` times. */
  ghost function CountedKinds(s: seq<Tile>, ks: seq<Kind>, n: nat): set<Kind>
    decreases |ks|
  {
    if ks == [] then {}
    else CountedKinds(s, ks[1..], n) + (if CountOf(s, ks[0]) == n then {ks[0]} else {})
  }

  lemma {:induction false} CountedKindsMembers(s: seq<Tile>, ks: seq<Kind>, n: nat, k: Kind)
    ensures k in CountedKinds(s, ks, n) <==> k in ks && CountOf(s, k) == n
    decreases |ks|
  {
    if ks != [] {
      CountedKindsMembers(s, ks[1..], n, k);
      assert ks == [ks[0]] + ks[1..];
    }
  }

  /** Over distinct kinds, the entries equal to `n` are as many as the kinds counted `n` times. */
  lemma {:induction false} CountEqKinds(s: seq<Tile>, ks: seq<Kind>, n: nat)
    requires DistinctKinds(ks)
    ensures CountEq(seq(|ks|, i requires 0 <= i < |ks| => CountOf(s, ks[i])), n)
            == |CountedKinds(s, ks, n)|
    decreases |ks|
  {
    if ks != [] {
      var rest := ks[1..];
      var xs := seq(|ks|, i requires 0 <= i < |ks| => CountOf(s, ks[i]));
      assert xs[1..] == seq(|rest|, i requires 0 <= i < |rest| => CountOf(s, rest[i]));
      assert DistinctKinds(rest) by {
        forall i, j | 0 <= i < j < |rest|
          ensures rest[i] != rest[j]
        {
          assert rest[i] == ks[i + 1] && rest[j] == ks[j + 1];
        }
      }
      CountEqKinds(s, rest, n);
      assert ks[0] !in rest by {
        forall j | 0 <= j < |rest|
          ensures rest[j] != ks[0]
        {
          assert rest[j] == ks[j + 1];
        }
      }
      CountedKindsMembers(s, rest, n, ks[0]);
    }
  }

  /** Every key's group is non-empty. */
  lemma KeyGroupNonEmpty(s: seq<Tile>, k: Kind)
    requires k in Keys(s)
    ensures CountOf(s, k) > 0
  {
    var i :| 0 <= i < |s| && KindOf(s[i]) == k;
    assert s[i] in Matches(s, k);
  }
}
