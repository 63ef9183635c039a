/**
 The canonical hand order (shared/utils/mahjongLogic.ts, sortHand): by suit
 Man < Pin < Sou < Wind < Dragon, then by value, on a copy of the hand.
 */
module HandSort {
  import opened Tiles

  /** The `suitOrder` table of the comparator. */
  function SuitRank(s: Suit): int {
    match s
    case Man => 1
    case Pin => 2
    case Sou => 3
    case Wind => 4
    case Dragon => 5
  }

  /** The comparator returns a value <= 0 for (a, b): `a` may precede `b`. */
  predicate InOrder(a: Tile, b: Tile) {
    if a.suit != b.suit then SuitRank(a.suit) < SuitRank(b.suit) else a.value <= b.value
  }

  predicate SortedHand(s: seq<Tile>) {
    forall i, j :: 0 <= i < j < |s| ==> InOrder(s[i], s[j])
  }

  /**
   Inserts `t` into a sorted hand ahead of every tile it does not follow, so
   that among tiles the comparator calls equal the earlier input stays first
   (Array.prototype.sort is stable).
   */
  function Insert(t: Tile, s: seq<Tile>): (r: seq<Tile>)
    requires SortedHand(s)
    ensures multiset(r) == multiset(s) + multiset{t}
    ensures SortedHand(r)
  {
    if s == [] || InOrder(t, s[0]) then [t] + s
    else
      var rest := Insert(t, s[1..]);
      InsertBehind(t, s, rest);
      [s[0]] + rest
  }

  /** The step of Insert that keeps the head of the hand in front of `t`. */
  lemma InsertBehind(t: Tile, s: seq<Tile>, rest: seq<Tile>)
    requires SortedHand(s) && s != [] && !InOrder(t, s[0])
    requires multiset(rest) == multiset(s[1..]) + multiset{t}
    requires SortedHand(rest)
    ensures multiset([s[0]] + rest) == multiset(s) + multiset{t}
    ensures SortedHand([s[0]] + rest)
  {
    assert s == [s[0]] + s[1..];
    forall x | x in rest
      ensures InOrder(s[0], x)
    {
      assert x in multiset(rest);
      if x != t {
        assert x in s[1..];
      }
    }
    var r := [s[0]] + rest;
    forall i, j | 0 <= i < j < |r|
      ensures InOrder(r[i], r[j])
    {
      if i > 0 {
        assert r[i] == rest[i - 1] && r[j] == rest[j - 1];
      } else {
        assert r[j] in rest;
      }
    }
  }

  /** sortHand: a sorted permutation of the hand. */
  function SortHand(hand: seq<Tile>): (r: seq<Tile>)
    ensures |r| == |hand|
    ensures multiset(r) == multiset(hand)
    ensures SortedHand(r)
  {
    if hand == [] then []
    else
      assert hand == [hand[0]] + hand[1..];
      assert multiset(hand) == multiset(hand[1..]) + multiset{hand[0]};
      Insert(hand[0], SortHand(hand[1..]))
  }

  /** A hand already in order is returned as it is; in particular sorting twice sorts once. */
  lemma {:induction false} SortHandSorted(hand: seq<Tile>)
    requires SortedHand(hand)
    ensures SortHand(hand) == hand
    decreases |hand|
  {
    if hand != [] {
      assert SortedHand(hand[1..]);
      SortHandSorted(hand[1..]);
      assert hand == [hand[0]] + hand[1..];
    }
  }

  /** Sorting is idempotent. */
  lemma SortHandIdempotent(hand: seq<Tile>)
    ensures SortHand(SortHand(hand)) == SortHand(hand)
  {
    SortHandSorted(SortHand(hand));
  }

  /** Order between neighbours gives order throughout, the comparator being transitive. */
  lemma {:induction false} SortedFromNeighbours(hand: seq<Tile>)
    requires forall i :: 0 < i < |hand| ==> InOrder(hand[i - 1], hand[i])
    ensures SortedHand(hand)
    decreases |hand|
  {
    if hand != [] {
      SortedFromNeighbours(hand[1..]);
      forall j | 0 < j < |hand|
        ensures InOrder(hand[0], hand[j])
      {
        var k := 1;
        while k < j
          invariant 1 <= k <= j
          invariant InOrder(hand[0], hand[k])
        {
          k := k + 1;
        }
      }
      forall i, j | 0 <= i < j < |hand|
        ensures InOrder(hand[i], hand[j])
      {
        if 0 < i {
          assert hand[i] == hand[1..][i - 1] && hand[j] == hand[1..][j - 1];
        }
      }
    }
  }
}
