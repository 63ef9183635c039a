/**
 Meld eligibility (shared/utils/mahjongLogic.ts, "Interaction Logic"):
 Pong, claim Kong, concealed Kong (AnKong), added Kong (BuKong) and Chi.
 */
module MeldRules {
  import opened Wrappers
  import opened Tiles
  import opened TileSeq
  import opened Grouping

  /** canPong: the hand holds at least two tiles of the offered tile's kind. */
  function CanPong(hand: seq<Tile>, tile: Tile): (r: bool)
    ensures r <==> |Positions(hand, KindOf(tile))| >= 2
  {
    CountIsPositions(hand, KindOf(tile));
    CountOf(hand, KindOf(tile)) >= 2
  }

  /** canKong: the hand holds exactly three tiles of the offered tile's kind. */
  function CanKong(hand: seq<Tile>, tile: Tile): (r: bool)
    ensures r <==> |Positions(hand, KindOf(tile))| == 3
    ensures r ==> CanPong(hand, tile)
  {
    CountIsPositions(hand, KindOf(tile));
    CountOf(hand, KindOf(tile)) == 3
  }

  /** Keeps the first tile of every group of exactly four (`filter` then `map`). */
  function FirstOfFours(groups: seq<seq<Tile>>): (r: seq<Tile>)
    ensures |r| <= |groups|
    ensures forall t :: t in r <==> exists i :: 0 <= i < |groups| && |groups[i]| == 4 && groups[i][0] == t
  {
    if groups == [] then []
    else (if |groups[0]| == 4 then [groups[0][0]] else []) + FirstOfFours(groups[1..])
  }

  /** Groups whose first tiles differ in kind yield results that differ in kind. */
  lemma {:induction false} FirstOfFoursDistinct(groups: seq<seq<Tile>>)
    requires forall i, j :: 0 <= i < j < |groups| && |groups[i]| == 4 && |groups[j]| == 4
               ==> KindOf(groups[i][0]) != KindOf(groups[j][0])
    ensures DistinctTileKinds(FirstOfFours(groups))
    decreases |groups|
  {
    if groups != [] {
      var rest := FirstOfFours(groups[1..]);
      FirstOfFoursDistinct(groups[1..]);
      if |groups[0]| == 4 {
        forall t | t in rest
          ensures KindOf(t) != KindOf(groups[0][0])
        {
          var i :| 0 <= i < |groups[1..]| && |groups[1..][i]| == 4 && groups[1..][i][0] == t;
          assert groups[1..][i] == groups[i + 1];
        }
        assert FirstOfFours(groups) == [groups[0][0]] + rest;
      }
    }
  }

  /** No two tiles of `r` are of one kind. */
  predicate DistinctTileKinds(r: seq<Tile>) {
    forall i, j :: 0 <= i < j < |r| ==> KindOf(r[i]) != KindOf(r[j])
  }

  /** Some tile of `r` is of kind `k`. */
  predicate HasKind(r: seq<Tile>, k: Kind) {
    exists i :: 0 <= i < |r| && KindOf(r[i]) == k
  }

  /**
   getPossibleAnKongs: one tile, the first of its kind in the hand, for every
   kind the hand holds exactly four times, and nothing else.
   */
  function PossibleAnKongs(hand: seq<Tile>): (r: seq<Tile>)
    ensures forall t :: t in r ==> CountOf(hand, KindOf(t)) == 4 && Find(hand, KindOf(t)) == Some(t)
    ensures forall k :: CountOf(hand, k) == 4 ==> HasKind(r, k)
    ensures DistinctTileKinds(r)
  {
    var r := FirstOfFours(Groups(hand));
    GroupHeads(hand);
    AnKongsDistinct(hand);
    AnKongsSound(hand);
    AnKongsComplete(hand);
    r
  }

  /** The head of a group of four is a tile of the group's key. */
  lemma GroupHeads(hand: seq<Tile>)
    ensures var groups := Groups(hand);
            forall i :: 0 <= i < |groups| && |groups[i]| == 4 ==> KindOf(groups[i][0]) == Keys(hand)[i]
  {
    var groups := Groups(hand);
    var ks := Keys(hand);
    forall i | 0 <= i < |groups| && |groups[i]| == 4
      ensures KindOf(groups[i][0]) == ks[i]
    {
      assert groups[i][0] in Matches(hand, ks[i]);
    }
  }

  lemma AnKongsDistinct(hand: seq<Tile>)
    ensures DistinctTileKinds(FirstOfFours(Groups(hand)))
  {
    GroupHeads(hand);
    FirstOfFoursDistinct(Groups(hand));
  }

  lemma AnKongsSound(hand: seq<Tile>)
    ensures forall t :: t in FirstOfFours(Groups(hand)) ==> CountOf(hand, KindOf(t)) == 4 && Find(hand, KindOf(t)) == Some(t)
  {
    var groups := Groups(hand);
    var ks := Keys(hand);
    var r := FirstOfFours(groups);
    GroupHeads(hand);
    forall t | t in r
      ensures CountOf(hand, KindOf(t)) == 4 && Find(hand, KindOf(t)) == Some(t)
    {
      var i :| 0 <= i < |groups| && |groups[i]| == 4 && groups[i][0] == t;
      MatchesHead(hand, ks[i]);
    }
  }

  lemma AnKongsComplete(hand: seq<Tile>)
    ensures forall k :: CountOf(hand, k) == 4 ==> HasKind(FirstOfFours(Groups(hand)), k)
  {
    var groups := Groups(hand);
    var ks := Keys(hand);
    var r := FirstOfFours(groups);
    forall k | CountOf(hand, k) == 4
      ensures HasKind(r, k)
    {
      var t := Matches(hand, k)[0];
      assert t in Matches(hand, k);
      assert k in ks;
      var i :| 0 <= i < |ks| && ks[i] == k;
      assert groups[i][0] == t;
      assert t in r;
      var j :| 0 <= j < |r| && r[j] == t;
      assert KindOf(r[j]) == k;
    }
  }

  /** The Pong melds, in order (`melds.filter(m => m.type === Pong)`). */
  function PongMelds(melds: seq<Meld>): (r: seq<Meld>)
    ensures |r| <= |melds|
    ensures forall m :: m in r <==> m in melds && m.action == Pong
  {
    if melds == [] then []
    else (if melds[0].action == Pong then [melds[0]] else []) + PongMelds(melds[1..])
  }

  /** Every Pong meld in the list carries at least one tile. */
  predicate PongsNonEmpty(melds: seq<Meld>) {
    forall m :: m in melds && m.action == Pong ==> |m.tiles| > 0
  }

  /** The forEach over the Pong melds: the first hand tile matching each meld's first tile. */
  function BuKongMatches(hand: seq<Tile>, pongs: seq<Meld>): (r: seq<Tile>)
    requires forall m :: m in pongs ==> |m.tiles| > 0
    ensures |r| <= |pongs|
    ensures forall t :: t in r ==> exists m :: m in pongs && Find(hand, KindOf(m.tiles[0])) == Some(t)
    ensures forall m :: m in pongs && Find(hand, KindOf(m.tiles[0])).Some?
              ==> Find(hand, KindOf(m.tiles[0])).value in r
  {
    if pongs == [] then []
    else
      var here := match Find(hand, KindOf(pongs[0].tiles[0]))
        case Some(t) => [t]
        case None => [];
      here + BuKongMatches(hand, pongs[1..])
  }

  /**
   getPossibleBuKongs: at most one tile per Pong meld; each returned tile is
   the hand's first tile of the kind of some Pong meld's first tile, and every
   Pong meld whose kind the hand holds contributes one.
   */
  function PossibleBuKongs(hand: seq<Tile>, melds: seq<Meld>): (r: seq<Tile>)
    requires PongsNonEmpty(melds)
    ensures |r| <= |PongMelds(melds)|
    ensures forall t :: t in r ==>
              t in hand && exists m :: m in melds && m.action == Pong && KindOf(m.tiles[0]) == KindOf(t)
                                       && Find(hand, KindOf(t)) == Some(t)
    ensures forall m :: m in melds && m.action == Pong && Find(hand, KindOf(m.tiles[0])).Some?
              ==> Find(hand, KindOf(m.tiles[0])).value in r
  {
    BuKongMatches(hand, PongMelds(melds))
  }

  /** Melds of any other type never change the BuKong options. */
  lemma BuKongsIgnoreOtherMelds(hand: seq<Tile>, melds: seq<Meld>, m: Meld)
    requires PongsNonEmpty(melds)
    requires m.action != Pong
    ensures PongsNonEmpty(melds + [m]) && PongsNonEmpty([m] + melds)
    ensures PossibleBuKongs(hand, melds + [m]) == PossibleBuKongs(hand, melds)
    ensures PossibleBuKongs(hand, [m] + melds) == PossibleBuKongs(hand, melds)
  {
    assert PongMelds([m]) == [];
    PongMeldsAppend(melds, [m]);
    PongMeldsAppend([m], melds);
    assert PongMelds(melds + [m]) == PongMelds(melds);
    assert PongMelds([m] + melds) == PongMelds(melds);
    assert forall x :: x in melds + [m] ==> x in melds || x == m;
    assert forall x :: x in [m] + melds ==> x in melds || x == m;
  }

  lemma PongMeldsAppend(a: seq<Meld>, b: seq<Meld>)
    ensures PongMelds(a + b) == PongMelds(a) + PongMelds(b)
  {
    if a == [] {
      assert a + b == b;
    } else {
      assert (a + b)[0] == a[0];
      assert (a + b)[1..] == a[1..] + b;
      PongMeldsAppend(a[1..], b);
    }
  }

  /** The hand holds a tile of this suit and value. */
  predicate Holds(hand: seq<Tile>, suit: Suit, value: int) {
    exists i :: 0 <= i < |hand| && KindOf(hand[i]) == Kind(suit, value)
  }

  /**
   An option for Chi on `tile`: two hand tiles of the tile's suit, each the
   first of its value, whose values complete a run with the tile's value.
   */
  predicate IsChiOption(hand: seq<Tile>, tile: Tile, o: seq<Tile>) {
    && |o| == 2
    && o[0].suit == tile.suit && o[1].suit == tile.suit
    && Find(hand, KindOf(o[0])) == Some(o[0])
    && Find(hand, KindOf(o[1])) == Some(o[1])
    && ((o[0].value == tile.value - 2 && o[1].value == tile.value - 1)
        || (o[0].value == tile.value - 1 && o[1].value == tile.value + 1)
        || (o[0].value == tile.value + 1 && o[1].value == tile.value + 2))
  }

  /** Options of two tiles each, in strictly increasing order of their lower tile. */
  predicate OrderedOptions(r: seq<seq<Tile>>) {
    forall i, j :: 0 <= i < j < |r| ==> |r[i]| == 2 && |r[j]| == 2 && r[i][0].value < r[j][0].value
  }

  /** An option of `r` whose lower tile has the given value. */
  predicate HasOptionFrom(r: seq<seq<Tile>>, low: int) {
    exists i :: 0 <= i < |r| && |r[i]| == 2 && r[i][0].value == low
  }

  /**
   One completion of a run: the hand's first tiles of values `a` and `b` in
   `suit`, when it holds both, else nothing.
   */
  function Completion(hand: seq<Tile>, suit: Suit, a: int, b: int): (r: seq<seq<Tile>>)
    ensures |r| <= 1
    ensures r != [] ==> |r[0]| == 2 && r[0][0].suit == suit && r[0][1].suit == suit && r[0][0].value == a && r[0][1].value == b
  {
    var x := Find(hand, Kind(suit, a));
    var y := Find(hand, Kind(suit, b));
    if x.Some? && y.Some? then [[x.value, y.value]] else []
  }

  /** A completion is offered exactly when the hand holds both of its values. */
  lemma CompletionPresent(hand: seq<Tile>, suit: Suit, a: int, b: int)
    ensures Completion(hand, suit, a, b) != [] <==> Holds(hand, suit, a) && Holds(hand, suit, b)
  {
  }

  /** A completion's tiles are the hand's first tiles of their values. */
  lemma CompletionFirst(hand: seq<Tile>, suit: Suit, a: int, b: int)
    ensures var r := Completion(hand, suit, a, b);
            r != [] ==> Find(hand, KindOf(r[0][0])) == Some(r[0][0]) && Find(hand, KindOf(r[0][1])) == Some(r[0][1])
  {
  }

  /** In `l + m + u` of at most one element each, an option from `low` is exactly the one that part holds. */
  lemma ThreePartOptions(l: seq<seq<Tile>>, m: seq<seq<Tile>>, u: seq<seq<Tile>>, r: seq<seq<Tile>>, low: int)
    requires r == l + m + u
    requires |l| <= 1 && |m| <= 1 && |u| <= 1
    ensures HasOptionFrom(r, low) <==> HasOptionFrom(l, low) || HasOptionFrom(m, low) || HasOptionFrom(u, low)
  {
    if HasOptionFrom(r, low) {
      var i :| 0 <= i < |r| && |r[i]| == 2 && r[i][0].value == low;
      if i < |l| {
        assert r[i] == l[i];
      } else if i < |l| + |m| {
        assert r[i] == m[i - |l|];
      } else {
        assert r[i] == u[i - |l| - |m|];
      }
    }
    if HasOptionFrom(l, low) { assert r[0] == l[0]; }
    if HasOptionFrom(m, low) { assert r[|l|] == m[0]; }
    if HasOptionFrom(u, low) { assert r[|l| + |m|] == u[0]; }
  }

  /** A completion holds an option from `low` exactly when it starts there and is present. */
  lemma CompletionFrom(hand: seq<Tile>, suit: Suit, a: int, b: int, low: int)
    ensures HasOptionFrom(Completion(hand, suit, a, b), low) <==> (low == a && Holds(hand, suit, a) && Holds(hand, suit, b))
  {
    var part := Completion(hand, suit, a, b);
    CompletionPresent(hand, suit, a, b);
    if part != [] {
      assert part[0] in part;
    }
  }

  /** Every option a completion yields is a Chi option when its values complete a run with the tile. */
  lemma CompletionOptions(hand: seq<Tile>, tile: Tile, part: seq<seq<Tile>>, a: int, b: int)
    requires part == Completion(hand, tile.suit, a, b)
    requires (a == tile.value - 2 && b == tile.value - 1) || (a == tile.value - 1 && b == tile.value + 1)
             || (a == tile.value + 1 && b == tile.value + 2)
    ensures forall o :: o in part ==> IsChiOption(hand, tile, o)
  {
    CompletionFirst(hand, tile.suit, a, b);
  }

  /** Options of `l`, `m` and `u` starting at increasing values stay in increasing order. */
  lemma ThreePartOrder(l: seq<seq<Tile>>, m: seq<seq<Tile>>, u: seq<seq<Tile>>, r: seq<seq<Tile>>, a: int, b: int, c: int)
    requires r == l + m + u
    requires a < b < c
    requires |l| <= 1 && |m| <= 1 && |u| <= 1
    requires l != [] ==> |l[0]| == 2 && l[0][0].value == a
    requires m != [] ==> |m[0]| == 2 && m[0][0].value == b
    requires u != [] ==> |u[0]| == 2 && u[0][0].value == c
    ensures OrderedOptions(r)
  {
    forall i | 0 <= i < |r|
      ensures |r[i]| == 2
      ensures r[i][0].value == if i < |l| then a else if i < |l| + |m| then b else c
    {
      if i < |l| {
        assert r[i] == l[i];
      } else if i < |l| + |m| {
        assert r[i] == m[i - |l|];
      } else {
        assert r[i] == u[i - |l| - |m|];
      }
    }
    forall i, j | 0 <= i < j < |r|
      ensures |r[i]| == 2 && |r[j]| == 2 && r[i][0].value < r[j][0].value
    {
    }
  }

  /**
   canChi: nothing for winds and dragons; otherwise the lower, middle and
   upper completions of a run through the tile, in that order.
   */
  function CanChi(hand: seq<Tile>, tile: Tile): (r: seq<seq<Tile>>)
    ensures IsHonor(tile.suit) ==> r == []
    ensures |r| <= 3
  {
    if IsHonor(tile.suit) then [] else Runs(hand, tile.suit, tile.value)
  }

  /** The lower, middle and upper completions of a run through value `v`, joined. */
  function Runs(hand: seq<Tile>, suit: Suit, v: int): (r: seq<seq<Tile>>)
    ensures |r| <= 3
  {
    Completion(hand, suit, v - 2, v - 1) + Completion(hand, suit, v - 1, v + 1) + Completion(hand, suit, v + 1, v + 2)
  }

  /** Every option canChi offers is a Chi option. */
  lemma CanChiSound(hand: seq<Tile>, tile: Tile)
    ensures forall o :: o in CanChi(hand, tile) ==> IsChiOption(hand, tile, o)
  {
    if !IsHonor(tile.suit) {
      CompletionsSound(hand, tile);
    }
  }

  /** The options of the three completions of a run through the tile are Chi options. */
  lemma CompletionsSound(hand: seq<Tile>, tile: Tile)
    ensures forall o :: o in Runs(hand, tile.suit, tile.value) ==> IsChiOption(hand, tile, o)
  {
    var v := tile.value;
    var l := Completion(hand, tile.suit, v - 2, v - 1);
    var m := Completion(hand, tile.suit, v - 1, v + 1);
    var u := Completion(hand, tile.suit, v + 1, v + 2);
    CompletionOptions(hand, tile, l, v - 2, v - 1);
    CompletionOptions(hand, tile, m, v - 1, v + 1);
    CompletionOptions(hand, tile, u, v + 1, v + 2);
    forall o | o in Runs(hand, tile.suit, v)
      ensures IsChiOption(hand, tile, o)
    {
      InRuns(hand, tile.suit, v, o);
    }
  }

  /** An option of the joined completions comes from one of the three. */
  lemma InRuns(hand: seq<Tile>, suit: Suit, v: int, o: seq<Tile>)
    requires o in Runs(hand, suit, v)
    ensures o in Completion(hand, suit, v - 2, v - 1) || o in Completion(hand, suit, v - 1, v + 1)
            || o in Completion(hand, suit, v + 1, v + 2)
  {
  }

  /** canChi's options come ordered by their lower tile: lower, middle, upper. */
  lemma CanChiOrdered(hand: seq<Tile>, tile: Tile)
    ensures OrderedOptions(CanChi(hand, tile))
  {
    if !IsHonor(tile.suit) {
      CompletionsOrdered(hand, tile.suit, tile.value);
    }
  }

  /** The three completions of a run through value `v`, joined, come in order. */
  lemma CompletionsOrdered(hand: seq<Tile>, suit: Suit, v: int)
    ensures OrderedOptions(Runs(hand, suit, v))
  {
    var l := Completion(hand, suit, v - 2, v - 1);
    var m := Completion(hand, suit, v - 1, v + 1);
    var u := Completion(hand, suit, v + 1, v + 2);
    ThreePartOrder(l, m, u, l + m + u, v - 2, v - 1, v + 1);
  }

  /**
   canChi misses no option: for a numbered tile it offers a run starting at
   each of the values `tile.value - 2`, `tile.value - 1` and `tile.value + 1`
   exactly when the hand holds the two tiles that run needs.
   */
  lemma CanChiComplete(hand: seq<Tile>, tile: Tile, low: int, high: int)
    requires !IsHonor(tile.suit)
    requires (low == tile.value - 2 && high == tile.value - 1) || (low == tile.value - 1 && high == tile.value + 1)
             || (low == tile.value + 1 && high == tile.value + 2)
    ensures HasOptionFrom(CanChi(hand, tile), low) <==> Holds(hand, tile.suit, low) && Holds(hand, tile.suit, high)
  {
    var v := tile.value;
    assert CanChi(hand, tile) == Runs(hand, tile.suit, v);
    RunsFrom(hand, tile.suit, v, low);
    CompletionFrom(hand, tile.suit, v - 2, v - 1, low);
    CompletionFrom(hand, tile.suit, v - 1, v + 1, low);
    CompletionFrom(hand, tile.suit, v + 1, v + 2, low);
  }

  /** The joined completions hold an option from `low` exactly when one of the three does. */
  lemma RunsFrom(hand: seq<Tile>, suit: Suit, v: int, low: int)
    ensures HasOptionFrom(Runs(hand, suit, v), low)
            <==> HasOptionFrom(Completion(hand, suit, v - 2, v - 1), low)
                 || HasOptionFrom(Completion(hand, suit, v - 1, v + 1), low)
                 || HasOptionFrom(Completion(hand, suit, v + 1, v + 2), low)
  {
    ThreePartOptions(Completion(hand, suit, v - 2, v - 1), Completion(hand, suit, v - 1, v + 1),
                     Completion(hand, suit, v + 1, v + 2), Runs(hand, suit, v), low);
  }
}
