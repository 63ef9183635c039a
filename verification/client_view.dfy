/**
 The client's view of a match (src/App.tsx): seats seen relative to the
 player's own, the two-click discard, the hand as displayed and the discard
 piles rotated into the player's view. The client holds the state the server
 last broadcast together with the seat the server assigned it.
 */
module ClientView {
  import opened Wrappers
  import opened Tiles
  import opened TileSeq
  import opened Server

  /** The broadcast state with `myPlayerId`, the seat the server assigned (or none). */
  datatype ClientState = ClientState(game: GameState, myPlayerId: Option<Seat>)

  /** The client has a state and knows its seat. */
  predicate KnowsSeat(view: Option<ClientState>) {
    view.Some? && view.value.myPlayerId.Some?
  }

  function MySeat(view: Option<ClientState>): Seat
    requires KnowsSeat(view)
  {
    view.value.myPlayerId.value
  }

  /**
   The visual position (Bottom = 0, Right = 1, Top = 2, Left = 3) of an
   absolute seat: counted from the player's own seat, which is drawn at the
   bottom. Without a state or a seat the seat is returned as it is. The
   dividend is never negative, so the source's `%` agrees with Dafny's.
   */
  function GetRelativePlayer(view: Option<ClientState>, target: Seat): (r: Seat)
    ensures KnowsSeat(view) ==> (MySeat(view) + r) % 4 == target
    ensures !KnowsSeat(view) ==> r == target
  {
    if !KnowsSeat(view) then target
    else (target - MySeat(view) + 4) % 4
  }

  /** The absolute seat drawn at a visual position, or none without a state or a seat. */
  function GetAbsolutePlayerFromRelative(view: Option<ClientState>, rel: Seat): (r: Option<Seat>)
    ensures r.Some? <==> KnowsSeat(view)
    ensures r.Some? ==> GetRelativePlayer(view, r.value) == rel
  {
    if !KnowsSeat(view) then None
    else Some((rel + MySeat(view)) % 4)
  }

  /** The other direction: the seat drawn where a seat is shown is that seat. */
  lemma AbsoluteOfRelative(view: Option<ClientState>, target: Seat)
    requires KnowsSeat(view)
    ensures GetAbsolutePlayerFromRelative(view, GetRelativePlayer(view, target)) == Some(target)
  {
  }

  /**
   The rotation keeps the turn order: the player sits at the bottom, and the
   seat after any seat is drawn one position further round (Bottom, Right,
   Top, Left).
   */
  lemma RotationKeepsTurnOrder(view: Option<ClientState>, q: Seat)
    requires KnowsSeat(view)
    ensures GetRelativePlayer(view, MySeat(view)) == 0
    ensures GetRelativePlayer(view, Next(q)) == Next(GetRelativePlayer(view, q))
  {
    var me := MySeat(view);
    var d := q - me;
    assert -4 < d < 4;
    if q == 3 {
      assert Next(q) == 0;
    }
  }

  /**
   The client may discard tile `tileId`: it knows its seat, a tile with that
   identity is in its hand, it is the current player and the phase is Discard.
   */
  predicate DiscardReady(view: Option<ClientState>, tileId: nat) {
    && KnowsSeat(view)
    && view.value.game.currentPlayer == MySeat(view)
    && view.value.game.phase == GamePhase.Discard
    && exists i :: 0 <= i < |view.value.game.players[MySeat(view)]|
                   && view.value.game.players[MySeat(view)][i].id == tileId
  }

  /** The result of a click: the index sent to the server, if any, and the new selection. */
  datatype Click = Click(emitted: Option<int>, selected: Option<nat>)

  /**
   handleHumanDiscard: a click on a tile the player may discard selects it;
   a click on the selected tile sends its index in the hand and clears the
   selection; any other click changes nothing.
   */
  function HandleHumanDiscard(view: Option<ClientState>, selected: Option<nat>, tileId: nat): (r: Click)
    ensures r.emitted.Some? <==> DiscardReady(view, tileId) && selected == Some(tileId)
    ensures !DiscardReady(view, tileId) ==> r == Click(None, selected)
    ensures DiscardReady(view, tileId) && selected != Some(tileId) ==> r == Click(None, Some(tileId))
    ensures r.emitted.Some? ==>
              && r.selected == None
              && 0 <= r.emitted.value < |view.value.game.players[MySeat(view)]|
              && view.value.game.players[MySeat(view)][r.emitted.value].id == tileId
              && forall j :: 0 <= j < r.emitted.value ==> view.value.game.players[MySeat(view)][j].id != tileId
  {
    if !KnowsSeat(view) then Click(None, selected)
    else
      var gs := view.value.game;
      var me := MySeat(view);
      var tileIndex := IndexOfId(gs.players[me], tileId);
      if tileIndex == -1 then Click(None, selected)
      else if gs.currentPlayer != me then Click(None, selected)
      else if gs.phase != GamePhase.Discard then Click(None, selected)
      else if selected != Some(tileId) then Click(None, Some(tileId))
      else Click(Some(tileIndex), None)
  }

  /**
   Of two clicks in a row on a tile the player may discard, one sends it:
   the first when the tile was already selected, otherwise the second.
   */
  lemma SecondClickDiscards(view: Option<ClientState>, selected: Option<nat>, tileId: nat)
    requires DiscardReady(view, tileId)
    ensures var first := HandleHumanDiscard(view, selected, tileId);
            first.emitted.Some? || HandleHumanDiscard(view, first.selected, tileId).emitted.Some?
  {
  }

  /**
   What the client sends, the server accepts, and it moves the clicked tile
   itself onto the player's discard pile.
   */
  lemma SentDiscardAccepted(view: Option<ClientState>, selected: Option<nat>, tileId: nat, drawnTwice: bool)
    requires HandleHumanDiscard(view, selected, tileId).emitted.Some?
    ensures var i := HandleHumanDiscard(view, selected, tileId).emitted.value;
            var gs := view.value.game;
            && Accepts(gs, MySeat(view), i)
            && DiscardStep(gs, MySeat(view), i, drawnTwice).lastDiscardedTile.value.tile.id == tileId
            && DiscardStep(gs, MySeat(view), i, drawnTwice).discards[MySeat(view)]
               == gs.discards[MySeat(view)] + [gs.players[MySeat(view)][i]]
  {
  }

  /**
   The player's hand as displayed: on the player's own Discard turn the
   last drawn tile is taken out and shown at the far right; any other time
   the hand is shown as it is. A drawn tile no longer in the hand is left out
   (`hand.find` yields undefined and `.filter(Boolean)` drops it). On a hand
   of distinct tiles the display is a rearrangement: the drawn tile, when
   held, moves from its position to the end and every other tile keeps its
   order; when not held the hand is shown as it is.
   */
  function DisplayHand(gs: GameState, me: Seat): (r: seq<Tile>)
    ensures gs.currentPlayer != me || gs.phase != GamePhase.Discard || gs.lastDrawnTile.None? ==> r == gs.players[me]
    ensures DistinctIds(gs.players[me]) ==> multiset(r) == multiset(gs.players[me])
    ensures DistinctIds(gs.players[me]) && gs.lastDrawnTile.Some? ==>
              var hand := gs.players[me];
              var i := IndexOfId(hand, gs.lastDrawnTile.value.id);
              && (i == -1 ==> r == hand)
              && (i != -1 && gs.currentPlayer == me && gs.phase == GamePhase.Discard ==>
                    r == hand[..i] + hand[i + 1..] + [hand[i]])
  {
    var hand := gs.players[me];
    if gs.currentPlayer == me && gs.phase == GamePhase.Discard && gs.lastDrawnTile.Some? then
      var id := gs.lastDrawnTile.value.id;
      var i := IndexOfId(hand, id);
      MoveToEnd(hand, id);
      RemoveIds(hand, {id}) + (if i == -1 then [] else [hand[i]])
    else hand
  }

  /** The filter and the append of the display, on a hand of distinct tiles. */
  lemma MoveToEnd(hand: seq<Tile>, id: nat)
    ensures DistinctIds(hand) ==>
              var i := IndexOfId(hand, id);
              var r := RemoveIds(hand, {id}) + (if i == -1 then [] else [hand[i]]);
              && (i == -1 ==> r == hand)
              && (i != -1 ==> r == hand[..i] + hand[i + 1..] + [hand[i]])
              && multiset(r) == multiset(hand)
  {
    if DistinctIds(hand) {
      var i := IndexOfId(hand, id);
      if i == -1 {
        RemoveAbsentId(hand, id);
      } else {
        RemoveOnlyId(hand, i);
        assert hand == hand[..i] + [hand[i]] + hand[i + 1..];
      }
    }
  }

  /** Filtering out an identity that occurs at position `i` only splices `i` out. */
  lemma {:induction false} RemoveOnlyId(s: seq<Tile>, i: int)
    requires DistinctIds(s) && 0 <= i < |s|
    ensures RemoveIds(s, {s[i].id}) == s[..i] + s[i + 1..]
    decreases |s|
  {
    var id := s[i].id;
    var t := s[1..];
    assert RemoveIds(s, {id}) == (if s[0].id in {id} then [] else [s[0]]) + RemoveIds(t, {id});
    if i == 0 {
      RemoveAbsentId(t, id);
    } else {
      assert DistinctIds(t) by {
        forall a, b | 0 <= a < b < |t|
          ensures t[a].id != t[b].id
        {
          assert t[a] == s[a + 1] && t[b] == s[b + 1];
        }
      }
      assert t[i - 1].id == id;
      RemoveOnlyId(t, i - 1);
      SpliceAfterHead(s, i);
    }
  }

  lemma SpliceAfterHead(s: seq<Tile>, i: int)
    requires 0 < i < |s|
    ensures s[..i] + s[i + 1..] == [s[0]] + (s[1..][..i - 1] + s[1..][i..])
  {
    assert s[..i] == [s[0]] + s[1..][..i - 1];
    assert s[i + 1..] == s[1..][i..];
  }

  /** Filtering out an identity no tile has changes nothing. */
  lemma {:induction false} RemoveAbsentId(s: seq<Tile>, id: nat)
    requires forall j :: 0 <= j < |s| ==> s[j].id != id
    ensures RemoveIds(s, {id}) == s
    decreases |s|
  {
    if s != [] {
      RemoveAbsentId(s[1..], id);
    }
  }

  /**
   After a discard by the seat before, the drawn tile is already the last
   tile of the player's hand, so the display shows the hand as it is.
   */
  lemma DisplayAfterDrawUnchanged(gs: GameState, seat: Seat, tileIndex: int, drawnTwice: bool)
    requires Accepts(gs, seat, tileIndex) && gs.deck != []
    requires DistinctIds(gs.players[Next(seat)] + [gs.deck[|gs.deck| - 1]])
    requires DiscardStep(gs, seat, tileIndex, drawnTwice).phase == GamePhase.Discard
    ensures var r := DiscardStep(gs, seat, tileIndex, drawnTwice);
            DisplayHand(r, Next(seat)) == r.players[Next(seat)]
  {
    var r := DiscardStep(gs, seat, tileIndex, drawnTwice);
    DiscardMoves(gs, seat, tileIndex, drawnTwice);
    DisplayDrawnLast(r, Next(seat));
  }

  /** When the drawn tile is the last tile of a hand of distinct tiles, the display is the hand. */
  lemma DisplayDrawnLast(gs: GameState, me: Seat)
    requires DistinctIds(gs.players[me]) && gs.players[me] != []
    requires gs.currentPlayer == me && gs.phase == GamePhase.Discard
    requires gs.lastDrawnTile == Some(gs.players[me][|gs.players[me]| - 1])
    ensures DisplayHand(gs, me) == gs.players[me]
  {
    var hand := gs.players[me];
    var n := |hand| - 1;
    DistinctLastIndex(hand);
    LastBackInPlace(hand);
  }

  lemma LastBackInPlace(s: seq<Tile>)
    requires s != []
    ensures s[..|s| - 1] + s[|s|..] + [s[|s| - 1]] == s
  {
  }

  /** In a hand of distinct tiles the identity of the last tile is found at the last position. */
  lemma DistinctLastIndex(s: seq<Tile>)
    requires DistinctIds(s) && s != []
    ensures IndexOfId(s, s[|s| - 1].id) == |s| - 1
  {
    var i := IndexOfId(s, s[|s| - 1].id);
    assert i != -1;
  }

  /**
   rotatedDiscards: the discard pile shown at each visual position is the
   pile of the seat drawn there. The source asserts the seat is known.
   */
  function RotatedDiscards(view: Option<ClientState>): (r: SeatTiles)
    requires KnowsSeat(view)
    ensures forall rel: Seat :: r[rel] == view.value.game.discards[GetAbsolutePlayerFromRelative(view, rel).value]
  {
    var discards := view.value.game.discards;
    var me: int := MySeat(view);
    [discards[me], discards[(1 + me) % 4], discards[(2 + me) % 4], discards[(3 + me) % 4]]
  }

  /** Every seat's pile is shown, at that seat's visual position: the rotation loses no pile. */
  lemma RotatedDiscardsShowEverySeat(view: Option<ClientState>, q: Seat)
    requires KnowsSeat(view)
    ensures RotatedDiscards(view)[GetRelativePlayer(view, q)] == view.value.game.discards[q]
  {
    AbsoluteOfRelative(view, q);
  }

  /** The rotated piles hold exactly the tiles of the piles. */
  lemma RotatedDiscardsSameTiles(view: Option<ClientState>)
    requires KnowsSeat(view)
    ensures SeatTotal(RotatedDiscards(view)) == SeatTotal(view.value.game.discards)
  {
    var d := view.value.game.discards;
    var r := RotatedDiscards(view);
    var me := MySeat(view);
    var a, b, c, e := multiset(d[0]), multiset(d[1]), multiset(d[2]), multiset(d[3]);
    assert SeatTotal(d) == a + b + c + e;
    SumRotations(a, b, c, e);
    if me == 0 {
      assert r == [d[0], d[1], d[2], d[3]];
    } else if me == 1 {
      assert r == [d[1], d[2], d[3], d[0]];
      assert SeatTotal(r) == b + c + e + a;
    } else if me == 2 {
      assert r == [d[2], d[3], d[0], d[1]];
      assert SeatTotal(r) == c + e + a + b;
    } else {
      assert r == [d[3], d[0], d[1], d[2]];
      assert SeatTotal(r) == e + a + b + c;
    }
  }

  lemma SumRotations(a: multiset<Tile>, b: multiset<Tile>, c: multiset<Tile>, d: multiset<Tile>)
    ensures b + c + d + a == a + b + c + d
    ensures c + d + a + b == a + b + c + d
    ensures d + a + b + c == a + b + c + d
  {
  }
}
