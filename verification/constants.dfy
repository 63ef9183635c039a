/**
 The static table of tile definitions (src/constants.ts): nine numbered
 definitions for each of Man, Pin and Sou, four winds and three dragons.
 */
module Constants {
  import opened Tiles

  /** The nine definitions 1..9 of a numbered suit, in ascending value. */
  function Numbered(s: Suit): seq<Kind> {
    seq(9, i => Kind(s, i + 1))
  }

  /** TILE_DEFINITIONS, without the display symbols and names. */
  const TileDefinitions: seq<Kind> :=
    Numbered(Man) + Numbered(Pin) + Numbered(Sou)
    + [Kind(Wind, 1), Kind(Wind, 2), Kind(Wind, 3), Kind(Wind, 4)]
    + [Kind(Dragon, 1), Kind(Dragon, 2), Kind(Dragon, 3)]

  /** The highest value a suit's tiles carry. */
  function MaxValue(s: Suit): int {
    match s
    case Man => 9
    case Pin => 9
    case Sou => 9
    case Wind => 4
    case Dragon => 3
  }

  /** A (suit, value) pair that names a real tile. */
  predicate IsTileKind(k: Kind) {
    1 <= k.value <= MaxValue(k.suit)
  }

  /** Where a suit's block starts in the table. */
  function SuitOffset(s: Suit): nat {
    match s
    case Man => 0
    case Pin => 9
    case Sou => 18
    case Wind => 27
    case Dragon => 31
  }

  /** The position at which the table lists a kind. */
  function DefinitionIndex(k: Kind): int {
    SuitOffset(k.suit) + k.value - 1
  }

  predicate Distinct(ks: seq<Kind>) {
    forall i, j :: 0 <= i < j < |ks| ==> ks[i] != ks[j]
  }

  lemma DefinitionAt(i: int)
    requires 0 <= i < |TileDefinitions|
    ensures IsTileKind(TileDefinitions[i])
    ensures DefinitionIndex(TileDefinitions[i]) == i
  {
    var d := TileDefinitions;
    assert |d| == 34;
    if i < 9 {
      assert d[i] == Numbered(Man)[i];
    } else if i < 18 {
      assert d[i] == Numbered(Pin)[i - 9];
    } else if i < 27 {
      assert d[i] == Numbered(Sou)[i - 18];
    }
  }

  lemma DefinitionOf(k: Kind)
    requires IsTileKind(k)
    ensures 0 <= DefinitionIndex(k) < |TileDefinitions|
    ensures TileDefinitions[DefinitionIndex(k)] == k
  {
    var d := TileDefinitions;
    var i := DefinitionIndex(k);
    match k.suit
    case Man => assert d[i] == Numbered(Man)[i];
    case Pin => assert d[i] == Numbered(Pin)[i - 9];
    case Sou => assert d[i] == Numbered(Sou)[i - 18];
    case Wind =>
    case Dragon =>
  }

  /**
   The table lists 34 definitions, exactly the valid (suit, value) pairs, each
   once: one per value 1..9 for Man, Pin and Sou, 1..4 for winds and 1..3 for
   dragons.
   */
  lemma {:induction false} TileDefinitionsShape()
    ensures |TileDefinitions| == 34
    ensures forall k :: k in TileDefinitions <==> IsTileKind(k)
    ensures Distinct(TileDefinitions)
  {
    forall k
      ensures k in TileDefinitions <==> IsTileKind(k)
    {
      if k in TileDefinitions {
        var i :| 0 <= i < |TileDefinitions| && TileDefinitions[i] == k;
        DefinitionAt(i);
      }
      if IsTileKind(k) {
        DefinitionOf(k);
      }
    }
    forall i, j | 0 <= i < j < |TileDefinitions|
      ensures TileDefinitions[i] != TileDefinitions[j]
    {
      DefinitionAt(i);
      DefinitionAt(j);
    }
  }
}
