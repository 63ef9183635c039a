/**
 Deck construction (shared/utils/mahjongLogic.ts, generateDeck and
 shuffleDeck): four copies of every tile definition, numbered by a running
 counter, then a Fisher–Yates shuffle.
 */
module Deck {
  import opened Tiles
  import opened TileSeq
  import opened Constants

  /**
   Four tiles per definition, in table order, with identities counted up from
   `next` (the forEach with `idCounter++`).
   */
  function BuildDeck(defs: seq<Kind>, next: nat): (r: seq<Tile>)
    ensures |r| == 4 * |defs|
    ensures forall i :: 0 <= i < |r| ==> r[i].id == next + i
  {
    if defs == [] then []
    else
      var d := defs[0];
      [Tile(next, d.suit, d.value), Tile(next + 1, d.suit, d.value),
       Tile(next + 2, d.suit, d.value), Tile(next + 3, d.suit, d.value)]
      + BuildDeck(defs[1..], next + 4)
  }

  /** The unshuffled deck: identities 0..135 in definition order. */
  function OrderedDeck(): seq<Tile> {
    BuildDeck(TileDefinitions, 0)
  }

  /** Over distinct definitions, every listed kind gets four tiles and no other kind any. */
  lemma {:induction false} BuildDeckCounts(defs: seq<Kind>, next: nat, k: Kind)
    requires Distinct(defs)
    ensures CountOf(BuildDeck(defs, next), k) == if k in defs then 4 else 0
    decreases |defs|
  {
    if defs != [] {
      var d := defs[0];
      var four := [Tile(next, d.suit, d.value), Tile(next + 1, d.suit, d.value),
                   Tile(next + 2, d.suit, d.value), Tile(next + 3, d.suit, d.value)];
      var rest := BuildDeck(defs[1..], next + 4);
      assert BuildDeck(defs, next) == four + rest;
      MatchesAppend(four, rest, k);
      assert Distinct(defs[1..]);
      BuildDeckCounts(defs[1..], next + 4, k);
      assert k in defs <==> k == d || k in defs[1..] by {
        assert defs == [d] + defs[1..];
      }
      if k == d {
        assert d !in defs[1..];
      }
      SameKindCount(four, d, k);
    }
  }

  lemma {:induction false} SameKindCount(s: seq<Tile>, d: Kind, k: Kind)
    requires forall i :: 0 <= i < |s| ==> KindOf(s[i]) == d
    ensures CountOf(s, k) == if k == d then |s| else 0
    decreases |s|
  {
    if s != [] {
      SameKindCount(s[1..], d, k);
    }
  }

  /** The ordered deck: 136 tiles, distinct identities, four of every valid kind. */
  lemma OrderedDeckShape()
    ensures |OrderedDeck()| == 136
    ensures DistinctIds(OrderedDeck())
    ensures forall k :: CountOf(OrderedDeck(), k) == if IsTileKind(k) then 4 else 0
  {
    TileDefinitionsShape();
    forall k
      ensures CountOf(OrderedDeck(), k) == if IsTileKind(k) then 4 else 0
    {
      BuildDeckCounts(TileDefinitions, 0, k);
    }
  }

  /**
   Fisher–Yates over a copy of `deck`. `Math.random()` is the parameter
   `pick`: at step `i` the swap partner is `pick(i) % (i + 1)`, which ranges
   over every index in [0, i] as the source's `Math.floor(Math.random() * (i + 1))` does.
   */
  method ShuffleDeck(deck: seq<Tile>, pick: nat -> nat) returns (r: seq<Tile>)
    ensures |r| == |deck|
    ensures multiset(r) == multiset(deck)
  {
    r := deck;
    var i := |r| - 1;
    while i > 0
      invariant |r| == |deck|
      invariant i < |r|
      invariant multiset(r) == multiset(deck)
    {
      var j := pick(i) % (i + 1);
      r := r[i := r[j]][j := r[i]];
      i := i - 1;
    }
  }

  /**
   generateDeck: the shuffled deck holds exactly the 136 tiles of the ordered
   deck, four per tile definition, with pairwise distinct identities.
   */
  method GenerateDeck(pick: nat -> nat) returns (deck: seq<Tile>)
    ensures |deck| == 136
    ensures multiset(deck) == multiset(OrderedDeck())
    ensures DistinctIds(deck)
    ensures forall k :: CountOf(deck, k) == if IsTileKind(k) then 4 else 0
  {
    deck := ShuffleDeck(OrderedDeck(), pick);
    OrderedDeckShape();
    SubMultisetDistinct(deck, OrderedDeck());
    forall k
      ensures CountOf(deck, k) == if IsTileKind(k) then 4 else 0
    {
      CountPermutation(deck, OrderedDeck(), k);
    }
  }
}
