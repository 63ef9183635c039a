/**
 The match state kept by the server (server/index.ts): the initial deal of
 createInitialGameState and the state transition of the `Discard` branch of
 the `playerAction` handler. Sockets, rooms and broadcasting are not part of
 this model: the acting seat and the requested index are parameters.
 */
module Server {
  import opened Wrappers
  import opened Tiles
  import opened TileSeq
  import opened Deck
  import opened WinCheck
  import opened HandSort

  /** One tile list per seat (hands, discard piles), indexed by seat. */
  type SeatTiles = s: seq<seq<Tile>> | |s| == 4 witness [[], [], [], []]

  /** One meld list per seat, indexed by seat. */
  type SeatMelds = s: seq<seq<Meld>> | |s| == 4 witness [[], [], [], []]

  /** `lastDiscardedTile`: the tile and the seat that discarded it. */
  datatype DiscardRecord = DiscardRecord(tile: Tile, fromPlayer: Seat)

  datatype GameState = GameState(
    deck: seq<Tile>,
    players: SeatTiles,
    melds: SeatMelds,
    discards: SeatTiles,
    currentPlayer: Seat,
    phase: GamePhase,
    winner: Option<Seat>,
    lastDrawnTile: Option<Tile>,
    lastDiscardedTile: Option<DiscardRecord>,
    turnCount: nat,
    availableActions: seq<ActionType>)

  /** Every tile held by the four seats together. */
  function SeatTotal(hs: SeatTiles): multiset<Tile> {
    multiset(hs[0]) + multiset(hs[1]) + multiset(hs[2]) + multiset(hs[3])
  }

  /** The tiles of a list of melds. */
  function MeldTiles(ms: seq<Meld>): multiset<Tile> {
    if ms == [] then multiset{} else multiset(ms[0].tiles) + MeldTiles(ms[1..])
  }

  function MeldTotal(ms: SeatMelds): multiset<Tile> {
    MeldTiles(ms[0]) + MeldTiles(ms[1]) + MeldTiles(ms[2]) + MeldTiles(ms[3])
  }

  /** Every tile of the match: the wall, the hands, the discard piles and the melds. */
  function AllTiles(gs: GameState): multiset<Tile> {
    multiset(gs.deck) + SeatTotal(gs.players) + SeatTotal(gs.discards) + MeldTotal(gs.melds)
  }

  /** No tile is present twice and no two tiles share an identity. */
  ghost predicate UniqueTiles(m: multiset<Tile>) {
    && (forall x :: m[x] <= 1)
    && (forall x, y :: x in m && y in m && x.id == y.id ==> x == y)
  }

  /** Replacing one seat's list changes the total by exactly the difference. */
  lemma SeatTotalUpdate(hs: SeatTiles, p: Seat, h: seq<Tile>)
    ensures SeatTotal(hs[p := h]) + multiset(hs[p]) == SeatTotal(hs) + multiset(h)
  {
  }

  /** A hand whose tiles are part of a collection of unique tiles has distinct identities. */
  lemma UniqueDistinct(h: seq<Tile>, m: multiset<Tile>)
    requires multiset(h) <= m
    requires UniqueTiles(m)
    ensures DistinctIds(h)
  {
    forall i, j | 0 <= i < j < |h|
      ensures h[i].id != h[j].id
    {
      assert h[i] in m && h[j] in m;
      RepeatedTile(h, i, j);
    }
  }

  /** A sequence with distinct identities is a collection of unique tiles. */
  lemma DistinctUnique(s: seq<Tile>)
    requires DistinctIds(s)
    ensures UniqueTiles(multiset(s))
  {
    forall x
      ensures multiset(s)[x] <= 1
    {
      DistinctOccursOnce(s, x);
    }
    forall x, y | x in multiset(s) && y in multiset(s) && x.id == y.id
      ensures x == y
    {
      SameIdSameTile(s, x, y);
    }
  }

  /** The first `n` tiles seat `q` receives in the deal: round `j` gives it the tile `4 * j + q` from the end. */
  function Dealt(deck0: seq<Tile>, q: Seat, n: nat): (r: seq<Tile>)
    requires |deck0| == 136 && n <= 16
    ensures |r| == n
  {
    seq(n, j requires 0 <= j < n => deck0[135 - (4 * j + q)])
  }

  lemma DealtNext(deck0: seq<Tile>, q: Seat, n: nat)
    requires |deck0| == 136 && n < 16
    ensures Dealt(deck0, q, n + 1) == Dealt(deck0, q, n) + [deck0[135 - (4 * n + q)]]
  {
  }

  /** Every seat holds the first `n` tiles the deal gives it. */
  predicate HandsDealt(deck0: seq<Tile>, hands: SeatTiles, n: nat)
    requires |deck0| == 136 && n <= 16
  {
    forall q: Seat :: hands[q] == Dealt(deck0, q, n)
  }

  /**
   The 16 rounds of the deal: in every round seats 0, 1, 2 and 3 in turn pop
   the last tile of the wall.
   */
  method Deal(deck0: seq<Tile>) returns (deck: seq<Tile>, hands: SeatTiles)
    requires |deck0| == 136
    ensures deck == deck0[..72]
    ensures HandsDealt(deck0, hands, 16)
    ensures multiset(deck) + SeatTotal(hands) == multiset(deck0)
  {
    deck := deck0;
    hands := [[], [], [], []];
    assert deck0[..136] == deck0;
    assert SeatTotal(hands) == multiset{};
    assert HandsDealt(deck0, hands, 0);
    var i := 0;
    while i < 16
      invariant 0 <= i <= 16
      invariant deck == deck0[..136 - 4 * i]
      invariant HandsDealt(deck0, hands, i)
      invariant multiset(deck) + SeatTotal(hands) == multiset(deck0)
    {
      deck, hands := DealRound(deck0, i, deck, hands);
      i := i + 1;
    }
  }

  /** One round of the deal: seats 0 to 3 each pop the last tile of the wall. */
  method DealRound(deck0: seq<Tile>, i: nat, deck: seq<Tile>, hands: SeatTiles)
    returns (deck': seq<Tile>, hands': SeatTiles)
    requires |deck0| == 136 && i < 16
    requires deck == deck0[..136 - 4 * i]
    requires HandsDealt(deck0, hands, i)
    ensures deck' == deck0[..136 - 4 * (i + 1)]
    ensures HandsDealt(deck0, hands', i + 1)
    ensures multiset(deck') + SeatTotal(hands') == multiset(deck) + SeatTotal(hands)
  {
    deck', hands' := deck, hands;
    var p := 0;
    while p < 4
      invariant 0 <= p <= 4
      invariant deck' == deck0[..136 - 4 * i - p]
      invariant forall q: Seat :: hands'[q] == Dealt(deck0, q, if q < p then i + 1 else i)
      invariant multiset(deck') + SeatTotal(hands') == multiset(deck) + SeatTotal(hands)
    {
      DealStep(deck0, i, p, deck', hands');
      var next := DrawInto(deck', hands', p);
      deck', hands' := next.0, next.1;
      p := p + 1;
    }
  }

  /** Seat `p` popping the wall in round `i` receives the tile `4 * i + p` from the end. */
  lemma DealStep(deck0: seq<Tile>, i: nat, p: Seat, deck: seq<Tile>, hands: SeatTiles)
    requires |deck0| == 136 && i < 16
    requires deck == deck0[..136 - 4 * i - p]
    requires forall q: Seat :: hands[q] == Dealt(deck0, q, if q < p then i + 1 else i)
    ensures var next := DrawInto(deck, hands, p);
            && next.0 == deck0[..136 - 4 * i - (p + 1)]
            && forall q: Seat :: next.1[q] == Dealt(deck0, q, if q < p + 1 then i + 1 else i)
  {
    var tile := deck[|deck| - 1];
    assert tile == deck0[135 - (4 * i + p)];
    DealtNext(deck0, p, i);
    var next := DrawInto(deck, hands, p);
    assert next.1 == hands[p := hands[p] + [tile]];
    forall q: Seat
      ensures next.1[q] == Dealt(deck0, q, if q < p + 1 then i + 1 else i)
    {
      if q != p {
        assert next.1[q] == hands[q];
      }
    }
  }

  /**
   createInitialGameState: a fresh deck is dealt 16 tiles per seat, seat 0
   draws one more and starts in the Discard phase; no tile is lost or
   duplicated and identities stay distinct.
   */
  method CreateInitialGameState(pick: nat -> nat) returns (gs: GameState)
    ensures |gs.deck| == 71
    ensures |gs.players[0]| == 17 && |gs.players[1]| == 16 && |gs.players[2]| == 16 && |gs.players[3]| == 16
    ensures gs.melds == [[], [], [], []] && gs.discards == [[], [], [], []]
    ensures gs.currentPlayer == 0 && gs.phase == GamePhase.Discard && gs.winner == None
    ensures gs.lastDrawnTile == Some(gs.players[0][16]) && gs.lastDiscardedTile == None
    ensures gs.turnCount == 0 && gs.availableActions == []
    ensures AllTiles(gs) == multiset(OrderedDeck())
    ensures |AllTiles(gs)| == 136
    ensures UniqueTiles(AllTiles(gs))
  {
    var deck0 := GenerateDeck(pick);
    var wall, players, drawn := DealAndDraw(deck0);
    gs := GameState(wall, players, [[], [], [], []], [[], [], [], []], 0, GamePhase.Discard, None,
                    Some(drawn), None, 0, []);
    InitialTiles(gs, deck0);
  }

  /** The deal followed by seat 0's first draw from what is left of the wall. */
  method DealAndDraw(deck0: seq<Tile>) returns (wall: seq<Tile>, players: SeatTiles, drawn: Tile)
    requires |deck0| == 136
    ensures |wall| == 71
    ensures |players[0]| == 17 && |players[1]| == 16 && |players[2]| == 16 && |players[3]| == 16
    ensures drawn == players[0][16]
    ensures multiset(wall) + SeatTotal(players) == multiset(deck0)
  {
    var deck, hands := Deal(deck0);
    DealtLengths(deck0, hands);
    var next := DrawInto(deck, hands, 0);
    wall, players, drawn := next.0, next.1, deck[71];
  }

  /** A table whose wall and hands hold a shuffled deck, and nothing else, holds exactly the deck's tiles. */
  lemma InitialTiles(gs: GameState, deck0: seq<Tile>)
    requires multiset(gs.deck) + SeatTotal(gs.players) == multiset(deck0)
    requires gs.discards == [[], [], [], []] && gs.melds == [[], [], [], []]
    requires |deck0| == 136 && DistinctIds(deck0) && multiset(deck0) == multiset(OrderedDeck())
    ensures AllTiles(gs) == multiset(OrderedDeck())
    ensures |AllTiles(gs)| == 136
    ensures UniqueTiles(AllTiles(gs))
  {
    EmptyTable();
    DistinctUnique(deck0);
  }

  lemma DealtLengths(deck0: seq<Tile>, hands: SeatTiles)
    requires |deck0| == 136 && HandsDealt(deck0, hands, 16)
    ensures |hands[0]| == 16 && |hands[1]| == 16 && |hands[2]| == 16 && |hands[3]| == 16
  {
  }

  /** A table with no discards and no melds holds no tiles there. */
  lemma EmptyTable()
    ensures SeatTotal([[], [], [], []]) == multiset{}
    ensures MeldTotal([[], [], [], []]) == multiset{}
  {
  }

  /** The guard of the Discard branch: the sender's turn and an index inside the hand. */
  predicate Accepts(gs: GameState, seat: Seat, tileIndex: int): (r: bool)
    ensures r ==> gs.currentPlayer == seat && 0 <= tileIndex < |gs.players[seat]|
  {
    gs.currentPlayer == seat && 0 <= tileIndex < |gs.players[seat]|
  }

  /** `hand.splice(tileIndex, 1)`: the hand without position `i`. */
  function RemoveAt(hand: seq<Tile>, i: int): (r: seq<Tile>)
    requires 0 <= i < |hand|
    ensures |r| == |hand| - 1
    ensures multiset(r) + multiset{hand[i]} == multiset(hand)
    ensures forall j :: 0 <= j < |r| ==> r[j] == if j < i then hand[j] else hand[j + 1]
  {
    assert hand == hand[..i] + [hand[i]] + hand[i + 1..];
    hand[..i] + hand[i + 1..]
  }

  /**
   `gs.deck.pop() ?? null` and the push into the next seat's hand: the last
   tile of the wall, if any, moves to the end of that hand.
   */
  function DrawInto(deck: seq<Tile>, hands: SeatTiles, seat: Seat): (r: (seq<Tile>, SeatTiles, Option<Tile>))
    ensures multiset(r.0) + SeatTotal(r.1) == multiset(deck) + SeatTotal(hands)
    ensures deck == [] ==> r == (deck, hands, None)
    ensures deck != [] ==> && r.0 == deck[..|deck| - 1]
                           && r.1 == hands[seat := hands[seat] + [deck[|deck| - 1]]]
                           && r.2 == Some(deck[|deck| - 1])
  {
    if deck == [] then (deck, hands, None)
    else
      var tile := deck[|deck| - 1];
      assert deck == deck[..|deck| - 1] + [tile];
      SeatTotalUpdate(hands, seat, hands[seat] + [tile]);
      (deck[..|deck| - 1], hands[seat := hands[seat] + [tile]], Some(tile))
  }

  /**
   `hasWin`: only a drawn tile can win, and the check is made on the hand
   that already holds it, with the drawn tile passed again as the extra tile
   when `drawnTwice` holds.
   */
  function DrawWins(hand: seq<Tile>, melds: seq<Meld>, drawn: Option<Tile>, drawnTwice: bool): (r: bool)
    ensures r ==> drawn.Some?
    ensures drawn.Some? && !drawnTwice ==> (r <==> CheckWin(hand, melds, None))
  {
    drawn.Some? && CheckWin(hand, melds, if drawnTwice then drawn else None)
  }

  /** The tiles on the table after a discard and the draw that follows it. */
  datatype Table = Table(deck: seq<Tile>, players: SeatTiles, discards: SeatTiles, drawn: Option<Tile>)

  /**
   The moves of an accepted discard: the tile at `tileIndex` goes from the
   seat's hand to its discard pile, then the next seat draws the last tile of
   the wall, if any.
   */
  function MoveTiles(gs: GameState, seat: Seat, tileIndex: int): (t: Table)
    requires Accepts(gs, seat, tileIndex)
    ensures multiset(t.deck) + SeatTotal(t.players) + SeatTotal(t.discards)
            == multiset(gs.deck) + SeatTotal(gs.players) + SeatTotal(gs.discards)
  {
    var hand := gs.players[seat];
    var discarded := hand[tileIndex];
    var players1 := gs.players[seat := RemoveAt(hand, tileIndex)];
    var discards := gs.discards[seat := gs.discards[seat] + [discarded]];
    var d := DrawInto(gs.deck, players1, Next(seat));
    TakeAndPile(gs.players, gs.discards, seat, tileIndex);
    MovedTiles(multiset(gs.deck), multiset(d.0), SeatTotal(gs.players), SeatTotal(players1), SeatTotal(d.1),
               SeatTotal(gs.discards), SeatTotal(discards), multiset{discarded});
    Table(d.0, d.1, discards, d.2)
  }

  /**
   The Discard branch. `drawnTwice` selects what the win check sees: the
   source appends the drawn tile to the hand and then passes it again as
   the extra tile (`true`); the corrected check passes the hand alone.
   */
  function DiscardStep(gs: GameState, seat: Seat, tileIndex: int, drawnTwice: bool): (r: GameState)
    ensures !Accepts(gs, seat, tileIndex) ==> r == gs
    ensures Accepts(gs, seat, tileIndex) ==>
              && r.currentPlayer == Next(seat)
              && r.turnCount == gs.turnCount + 1
              && r.availableActions == []
              && r.melds == gs.melds
              && r.lastDiscardedTile == Some(DiscardRecord(gs.players[seat][tileIndex], seat))
              && r.discards == gs.discards[seat := gs.discards[seat] + [gs.players[seat][tileIndex]]]
  {
    if !Accepts(gs, seat, tileIndex) then gs
    else
      var t := MoveTiles(gs, seat, tileIndex);
      var next := Next(seat);
      var hasWin := DrawWins(t.players[next], gs.melds[next], t.drawn, drawnTwice);
      var phase := if hasWin then GameOver else if t.deck == [] then GameOver else GamePhase.Discard;
      var winner := if hasWin then Some(next) else gs.winner;
      GameState(t.deck, t.players, gs.melds, t.discards, next, phase, winner, t.drawn,
                Some(DiscardRecord(gs.players[seat][tileIndex], seat)), gs.turnCount + 1, [])
  }

  /** An accepted discard leaves the table as MoveTiles lays it. */
  lemma DiscardTable(gs: GameState, seat: Seat, tileIndex: int, drawnTwice: bool)
    requires Accepts(gs, seat, tileIndex)
    ensures var r := DiscardStep(gs, seat, tileIndex, drawnTwice);
            Table(r.deck, r.players, r.discards, r.lastDrawnTile) == MoveTiles(gs, seat, tileIndex)
  {
  }

  /**
   Conservation: an accepted discard only moves tiles, from the hand to the
   discard pile and from the wall to the next hand; a rejected one moves none.
   */
  lemma DiscardConserves(gs: GameState, seat: Seat, tileIndex: int, drawnTwice: bool)
    ensures AllTiles(DiscardStep(gs, seat, tileIndex, drawnTwice)) == AllTiles(gs)
  {
    if Accepts(gs, seat, tileIndex) {
      DiscardTable(gs, seat, tileIndex, drawnTwice);
    }
  }

  /** Taking the tile at `i` from a seat's hand and piling it on that seat's discards. */
  lemma TakeAndPile(players: SeatTiles, discards: SeatTiles, seat: Seat, i: int)
    requires 0 <= i < |players[seat]|
    ensures SeatTotal(players[seat := RemoveAt(players[seat], i)]) + multiset{players[seat][i]} == SeatTotal(players)
    ensures SeatTotal(discards[seat := discards[seat] + [players[seat][i]]]) == SeatTotal(discards) + multiset{players[seat][i]}
  {
    var x := players[seat][i];
    var rest := RemoveAt(players[seat], i);
    SeatTotalUpdate(players, seat, rest);
    Swap(SeatTotal(players[seat := rest]), SeatTotal(players), multiset(players[seat]), multiset(rest), multiset{x});
    var pile := discards[seat] + [x];
    SeatTotalUpdate(discards, seat, pile);
    Swap(SeatTotal(discards), SeatTotal(discards[seat := pile]), multiset(pile), multiset(discards[seat]), multiset{x});
  }

  /** Cancelling the replaced part: if `a' + before == a + after` and `before == after + x`, then `a' + x == a`. */
  lemma Swap(a': multiset<Tile>, a: multiset<Tile>, before: multiset<Tile>, after: multiset<Tile>, x: multiset<Tile>)
    requires a' + before == a + after
    requires before == after + x
    ensures a' + x == a
  {
    forall t
      ensures (a' + x)[t] == a[t]
    {
      assert (a' + before)[t] == (a + after)[t];
    }
  }

  /** Tiles moved from the hands to the piles and from the wall to the hands: the sum is unchanged. */
  lemma MovedTiles(deck: multiset<Tile>, deck': multiset<Tile>, hands: multiset<Tile>, hands1: multiset<Tile>,
                   hands': multiset<Tile>, piles: multiset<Tile>, piles': multiset<Tile>, moved: multiset<Tile>)
    requires hands1 + moved == hands
    requires piles' == piles + moved
    requires deck' + hands' == deck + hands1
    ensures deck' + hands' + piles' == deck + hands + piles
  {
  }

  /**
   The Discard branch exactly as the source writes it: no tile is gained or
   lost, and after a draw the win check is given the hand that already ends
   with the drawn tile together with that tile once more. A win ends the game
   with the drawer as winner; otherwise the winner stays and the game ends
   exactly when the draw emptied the wall.
   */
  function HandleDiscard(gs: GameState, seat: Seat, tileIndex: int): (r: GameState)
    ensures AllTiles(r) == AllTiles(gs)
    ensures Accepts(gs, seat, tileIndex) && gs.deck != [] ==>
              var drawn := gs.deck[|gs.deck| - 1];
              var hand := r.players[Next(seat)];
              var win := CheckWin(hand, gs.melds[Next(seat)], Some(drawn));
              && hand == gs.players[Next(seat)] + [drawn]
              && (win ==> r.phase == GameOver && r.winner == Some(Next(seat)))
              && (!win ==> r.winner == gs.winner && (r.phase == GameOver <==> |gs.deck| == 1))
  {
    DiscardSummary(gs, seat, tileIndex, true);
    DiscardStep(gs, seat, tileIndex, true)
  }

  /**
   The Discard branch with each tile counted once: the win check is given
   the hand that ends with the drawn tile and nothing more.
   */
  function HandleDiscardCorrected(gs: GameState, seat: Seat, tileIndex: int): (r: GameState)
    ensures AllTiles(r) == AllTiles(gs)
    ensures Accepts(gs, seat, tileIndex) && gs.deck != [] ==>
              var drawn := gs.deck[|gs.deck| - 1];
              var hand := r.players[Next(seat)];
              var win := CheckWin(hand, gs.melds[Next(seat)], None);
              && hand == gs.players[Next(seat)] + [drawn]
              && (win ==> r.phase == GameOver && r.winner == Some(Next(seat)))
              && (!win ==> r.winner == gs.winner && (r.phase == GameOver <==> |gs.deck| == 1))
  {
    DiscardSummary(gs, seat, tileIndex, false);
    DiscardStep(gs, seat, tileIndex, false)
  }

  /** Conservation, the draw and the outcome of one discard, in terms of the win check. */
  lemma DiscardSummary(gs: GameState, seat: Seat, tileIndex: int, drawnTwice: bool)
    ensures AllTiles(DiscardStep(gs, seat, tileIndex, drawnTwice)) == AllTiles(gs)
    ensures Accepts(gs, seat, tileIndex) && gs.deck != [] ==>
              var r := DiscardStep(gs, seat, tileIndex, drawnTwice);
              var drawn := gs.deck[|gs.deck| - 1];
              var hand := r.players[Next(seat)];
              var win := CheckWin(hand, gs.melds[Next(seat)], if drawnTwice then Some(drawn) else None);
              && hand == gs.players[Next(seat)] + [drawn]
              && (win ==> r.phase == GameOver && r.winner == Some(Next(seat)))
              && (!win ==> r.winner == gs.winner && (r.phase == GameOver <==> |gs.deck| == 1))
  {
    DiscardConserves(gs, seat, tileIndex, drawnTwice);
    if Accepts(gs, seat, tileIndex) && gs.deck != [] {
      DiscardMoves(gs, seat, tileIndex, drawnTwice);
      DiscardOutcome(gs, seat, tileIndex, drawnTwice);
    }
  }

  /** Discard requests, each a seat and an index, handled by the server one after another. */
  function Play(gs: GameState, moves: seq<(Seat, int)>): (r: GameState)
    ensures AllTiles(r) == AllTiles(gs)
    decreases |moves|
  {
    if moves == [] then gs
    else Play(HandleDiscard(gs, moves[0].0, moves[0].1), moves[1..])
  }

  /**
   From a freshly dealt match, whatever discards are requested, the match
   holds exactly the 136 tiles of the deck, each unique.
   */
  lemma PlayKeepsDeck(gs: GameState, moves: seq<(Seat, int)>)
    requires AllTiles(gs) == multiset(OrderedDeck())
    ensures AllTiles(Play(gs, moves)) == multiset(OrderedDeck())
    ensures |AllTiles(Play(gs, moves))| == 136
    ensures UniqueTiles(AllTiles(Play(gs, moves)))
  {
    OrderedDeckShape();
    DistinctUnique(OrderedDeck());
  }

  /**
   An accepted discard: the discarder's hand loses exactly the tile at the
   index, the other hands are untouched except that the next seat draws the
   last tile of the wall when there is one; with an empty wall nothing is
   drawn and the game is over.
   */
  lemma DiscardMoves(gs: GameState, seat: Seat, tileIndex: int, drawnTwice: bool)
    requires Accepts(gs, seat, tileIndex)
    ensures var r := DiscardStep(gs, seat, tileIndex, drawnTwice);
            && r.players[seat] == RemoveAt(gs.players[seat], tileIndex)
            && (forall q: Seat :: q != seat && q != Next(seat) ==> r.players[q] == gs.players[q])
            && (forall q: Seat :: q != seat ==> r.discards[q] == gs.discards[q])
            && (gs.deck != [] ==> && r.deck == gs.deck[..|gs.deck| - 1]
                                  && r.players[Next(seat)] == gs.players[Next(seat)] + [gs.deck[|gs.deck| - 1]]
                                  && r.lastDrawnTile == Some(gs.deck[|gs.deck| - 1]))
            && (gs.deck == [] ==> && r.deck == [] && r.players[Next(seat)] == gs.players[Next(seat)]
                                  && r.lastDrawnTile == None && r.phase == GameOver && r.winner == gs.winner)
  {
    DiscardTable(gs, seat, tileIndex, drawnTwice);
    MoveTilesShape(gs, seat, tileIndex);
  }

  /**
   A Discard request changes the match exactly when the guard lets it
   through, and then the named tile leaves the sender's hand for the
   sender's pile and becomes the last discard.
   */
  lemma AcceptedDiscardTakesTile(gs: GameState, seat: Seat, tileIndex: int, drawnTwice: bool)
    ensures var r := DiscardStep(gs, seat, tileIndex, drawnTwice);
            r != gs <==> gs.currentPlayer == seat && 0 <= tileIndex < |gs.players[seat]|
    ensures var r := DiscardStep(gs, seat, tileIndex, drawnTwice);
            gs.currentPlayer == seat && 0 <= tileIndex < |gs.players[seat]| ==>
              var t := gs.players[seat][tileIndex];
              && |r.players[seat]| + 1 == |gs.players[seat]|
              && multiset(r.players[seat]) + multiset{t} == multiset(gs.players[seat])
              && r.discards[seat] == gs.discards[seat] + [t]
              && r.lastDiscardedTile == Some(DiscardRecord(t, seat))
  {
    if Accepts(gs, seat, tileIndex) {
      DiscardMoves(gs, seat, tileIndex, drawnTwice);
    }
  }

  lemma MoveTilesShape(gs: GameState, seat: Seat, tileIndex: int)
    requires Accepts(gs, seat, tileIndex)
    ensures var t := MoveTiles(gs, seat, tileIndex);
            && t.players[seat] == RemoveAt(gs.players[seat], tileIndex)
            && (forall q: Seat :: q != seat && q != Next(seat) ==> t.players[q] == gs.players[q])
            && (forall q: Seat :: q != seat ==> t.discards[q] == gs.discards[q])
            && (gs.deck != [] ==> && t.deck == gs.deck[..|gs.deck| - 1]
                                  && t.players[Next(seat)] == gs.players[Next(seat)] + [gs.deck[|gs.deck| - 1]]
                                  && t.drawn == Some(gs.deck[|gs.deck| - 1]))
            && (gs.deck == [] ==> t.deck == [] && t.players[Next(seat)] == gs.players[Next(seat)] && t.drawn == None)
  {
  }

  /**
   The outcome after the draw: a win for the next seat ends the game with
   that seat as winner; otherwise an empty wall ends it with the winner
   unchanged; otherwise the next seat is to discard.
   */
  lemma DiscardOutcome(gs: GameState, seat: Seat, tileIndex: int, drawnTwice: bool)
    requires Accepts(gs, seat, tileIndex)
    ensures var r := DiscardStep(gs, seat, tileIndex, drawnTwice);
            var win := DrawWins(r.players[Next(seat)], gs.melds[Next(seat)], r.lastDrawnTile, drawnTwice);
            && (win ==> r.phase == GameOver && r.winner == Some(Next(seat)))
            && (!win && r.deck == [] ==> r.phase == GameOver && r.winner == gs.winner)
            && (!win && r.deck != [] ==> r.phase == GamePhase.Discard && r.winner == gs.winner)
  {
  }

  /**
   The guard never reads the phase: whether a discard is accepted, and what
   it does, is the same in every phase, so a discard after the game is over
   is still applied.
   */
  lemma DiscardIgnoresPhase(gs: GameState, seat: Seat, tileIndex: int, drawnTwice: bool, phase: GamePhase)
    ensures Accepts(gs.(phase := phase), seat, tileIndex) == Accepts(gs, seat, tileIndex)
    ensures Accepts(gs, seat, tileIndex) ==>
              DiscardStep(gs.(phase := phase), seat, tileIndex, drawnTwice) == DiscardStep(gs, seat, tileIndex, drawnTwice)
  {
  }

  /**
   A finished game resumes: after a win, a discard by the seat to move with
   at least two tiles in the wall and no new win puts the game back in the
   Discard phase, the old winner still recorded.
   */
  lemma GameOverResumes(gs: GameState, seat: Seat, tileIndex: int, drawnTwice: bool)
    requires gs.phase == GameOver && gs.winner.Some?
    requires Accepts(gs, seat, tileIndex) && |gs.deck| >= 2
    requires !DrawWins(DiscardStep(gs, seat, tileIndex, drawnTwice).players[Next(seat)], gs.melds[Next(seat)],
                       DiscardStep(gs, seat, tileIndex, drawnTwice).lastDrawnTile, drawnTwice)
    ensures DiscardStep(gs, seat, tileIndex, drawnTwice).phase == GamePhase.Discard
    ensures DiscardStep(gs, seat, tileIndex, drawnTwice).winner == gs.winner
  {
    DiscardOutcome(gs, seat, tileIndex, drawnTwice);
  }

  /** The tiles of a match stay unique across every discard, accepted or not. */
  lemma DiscardKeepsUnique(gs: GameState, seat: Seat, tileIndex: int, drawnTwice: bool)
    requires UniqueTiles(AllTiles(gs))
    ensures UniqueTiles(AllTiles(DiscardStep(gs, seat, tileIndex, drawnTwice)))
    ensures |AllTiles(DiscardStep(gs, seat, tileIndex, drawnTwice))| == |AllTiles(gs)|
  {
    DiscardConserves(gs, seat, tileIndex, drawnTwice);
  }

  /** In a match whose tiles are unique, every hand has distinct identities. */
  lemma HandDistinct(gs: GameState, q: Seat)
    requires UniqueTiles(AllTiles(gs))
    ensures DistinctIds(gs.players[q])
  {
    assert multiset(gs.players[q]) <= SeatTotal(gs.players);
    UniqueDistinct(gs.players[q], AllTiles(gs));
  }

  /**
   With each tile counted once the win check is sound: when a match whose
   tiles are unique declares a win on a discard, the next seat's hand is the
   eight-pairs shortcut or really splits into one pair and the sets its
   melds leave to find.
   */
  lemma CorrectedWinSound(gs: GameState, seat: Seat, tileIndex: int)
    requires UniqueTiles(AllTiles(gs))
    requires Accepts(gs, seat, tileIndex)
    requires var r := HandleDiscardCorrected(gs, seat, tileIndex);
             DrawWins(r.players[Next(seat)], gs.melds[Next(seat)], r.lastDrawnTile, false)
    ensures var r := HandleDiscardCorrected(gs, seat, tileIndex);
            var hand := r.players[Next(seat)];
            var melds := gs.melds[Next(seat)];
            EightPairs(hand, melds) || (|hand| == 17 - 3 * |melds| && Splits(hand, 5 - |melds|, false))
  {
    var r := HandleDiscardCorrected(gs, seat, tileIndex);
    var hand := r.players[Next(seat)];
    var melds := gs.melds[Next(seat)];
    DiscardKeepsHandsDistinct(gs, seat, tileIndex, false, Next(seat));
    WinOnOwnHand(hand, melds);
    assert EightPairs(hand, melds) || (|hand| == 17 - 3 * |melds| && Splits(hand, 5 - |melds|, false));
  }

  /** After any discard of a unique-tile match every hand still has distinct identities. */
  lemma DiscardKeepsHandsDistinct(gs: GameState, seat: Seat, tileIndex: int, drawnTwice: bool, q: Seat)
    requires UniqueTiles(AllTiles(gs))
    ensures DistinctIds(DiscardStep(gs, seat, tileIndex, drawnTwice).players[q])
  {
    DiscardKeepsUnique(gs, seat, tileIndex, drawnTwice);
    HandDistinct(DiscardStep(gs, seat, tileIndex, drawnTwice), q);
  }

  lemma WinOnOwnHand(hand: seq<Tile>, melds: seq<Meld>)
    requires DistinctIds(hand)
    requires CheckWin(hand, melds, None)
    ensures EightPairs(hand, melds) || (|hand| == 17 - 3 * |melds| && Splits(hand, 5 - |melds|, false))
  {
    assert FullHand(hand, None) == hand;
    CheckWinSound(hand, melds, None);
  }

  /**
   As written, the win check sees the drawn tile twice: the hand it is given
   already ends with it and it is passed again, so the full hand it examines
   holds one tile at two positions.
   */
  lemma AsWrittenCountsDrawTwice(gs: GameState, seat: Seat, tileIndex: int)
    requires Accepts(gs, seat, tileIndex) && gs.deck != []
    ensures var r := HandleDiscard(gs, seat, tileIndex);
            && r.lastDrawnTile.Some?
            && multiset(FullHand(r.players[Next(seat)], r.lastDrawnTile))[r.lastDrawnTile.value] >= 2
            && !DistinctIds(FullHand(r.players[Next(seat)], r.lastDrawnTile))
  {
    var r := HandleDiscard(gs, seat, tileIndex);
    DiscardMoves(gs, seat, tileIndex, true);
    var full := FullHand(r.players[Next(seat)], r.lastDrawnTile);
    var n := |full|;
    assert full[n - 2] == full[n - 1] == r.lastDrawnTile.value;
    RepeatedTile(full, n - 2, n - 1);
  }

  /**
   As written, a meld-free hand of winds and dragons is never declared a win
   after a draw: the check sees 18 tiles where the split needs 17.
   */
  lemma AsWrittenMissesHonorWins(gs: GameState, seat: Seat, tileIndex: int)
    requires Accepts(gs, seat, tileIndex) && gs.deck != []
    requires gs.melds[Next(seat)] == []
    requires var r := HandleDiscard(gs, seat, tileIndex);
             |r.players[Next(seat)]| == 17 && AllHonors(r.players[Next(seat)])
    ensures var r := HandleDiscard(gs, seat, tileIndex);
            !DrawWins(r.players[Next(seat)], [], r.lastDrawnTile, true)
  {
    var r := HandleDiscard(gs, seat, tileIndex);
    DiscardMoves(gs, seat, tileIndex, true);
    HonorsTwiceNoWin(r.players[Next(seat)], r.lastDrawnTile.value);
  }

  /** Seventeen winds and dragons ending with the drawn tile, checked with that tile once more, never win. */
  lemma HonorsTwiceNoWin(hand: seq<Tile>, drawn: Tile)
    requires |hand| == 17 && AllHonors(hand) && hand[16] == drawn
    ensures !CheckWin(hand, [], Some(drawn))
  {
    var full := FullHand(hand, Some(drawn));
    var sorted := SortHand(full);
    forall i | 0 <= i < |sorted|
      ensures IsHonor(sorted[i].suit)
    {
      assert sorted[i] in multiset(full);
    }
    if CanFormSets(sorted, 5, false) {
      HonorsLength(sorted, 5, false);
    }
  }

  /**
   A triplet of every wind and of the red dragon, numbered 0 to 14: tiles
   0 to 11 are the winds 1 to 4, three of each, and 12 to 14 the red dragon.
   */
  function FiveTriplets(): (r: seq<Tile>)
    ensures |r| == 15
    ensures forall i :: 0 <= i < 15 ==> r[i].id == i && IsHonor(r[i].suit)
  {
    seq(15, i requires 0 <= i < 15 => if i < 12 then Tile(i, Wind, i / 3 + 1) else Tile(i, Dragon, 1))
  }

  /** Sixteen winds and dragons: the five triplets and one green dragon. */
  function HonorHand(): (r: seq<Tile>)
    ensures |r| == 16 && AllHonors(r)
  {
    FiveTriplets() + [Tile(15, Dragon, 2)]
  }

  /**
   Seat 3 is to discard its only tile; the wall ends with the second green
   dragon, which completes seat 0's pair.
   */
  function PairDrawState(): (gs: GameState)
    ensures Accepts(gs, 3, 0)
  {
    GameState([Tile(20, Man, 1), Tile(16, Dragon, 2)],
              [HonorHand(), [], [], [Tile(21, Man, 2)]],
              [[], [], [], []], [[], [], [], []], 3, GamePhase.Discard, None, None, None, 0, [])
  }

  /** Seat 0's hand after the draw. */
  function PairDrawHand(): (r: seq<Tile>)
    ensures |r| == 17 && AllHonors(r)
  {
    HonorHand() + [Tile(16, Dragon, 2)]
  }

  /** Tiles numbered by their positions have distinct identities. */
  lemma IdsArePositions(s: seq<Tile>)
    requires forall i :: 0 <= i < |s| ==> s[i].id == i
    ensures DistinctIds(s)
  {
  }

  /**
   A hand of 17 winds and dragons in sorted order: five triplets and then a
   pair, a winning hand with no melds.
   */
  predicate WinningHonorHand(hand: seq<Tile>) {
    && |hand| == 17 && AllHonors(hand)
    && (forall i :: 0 < i < |hand| ==> InOrder(hand[i - 1], hand[i]))
    && (forall k :: 0 <= k < 5 ==> IsTriplet(hand[3 * k], hand[3 * k + 1], hand[3 * k + 2]))
    && KindOf(hand[15]) == KindOf(hand[16])
  }

  /** The corrected check accepts such a hand. */
  lemma HonorHandWins(hand: seq<Tile>, melds: seq<Meld>)
    requires WinningHonorHand(hand) && melds == []
    ensures CheckWin(hand, melds, None)
  {
    SortedFromNeighbours(hand);
    HonorHandSplits(hand);
    WinBySortedSearch(hand, melds);
  }

  lemma HonorHandSplits(hand: seq<Tile>)
    requires WinningHonorHand(hand)
    ensures CanFormSets(hand, 5, false)
  {
    TripletsThenPairAccepted(hand, 5);
  }

  /**
   When the drawn tile completes such a hand, the corrected check ends the
   game with the next seat as winner, while the check as written, seeing the
   drawn tile twice, lets play go on.
   */
  lemma DoubleCountMissesWin(gs: GameState, seat: Seat, tileIndex: int)
    requires Accepts(gs, seat, tileIndex) && |gs.deck| >= 2
    requires gs.melds[Next(seat)] == []
    requires WinningHonorHand(gs.players[Next(seat)] + [gs.deck[|gs.deck| - 1]])
    ensures HandleDiscardCorrected(gs, seat, tileIndex).phase == GameOver
    ensures HandleDiscardCorrected(gs, seat, tileIndex).winner == Some(Next(seat))
    ensures HandleDiscard(gs, seat, tileIndex).phase == GamePhase.Discard
    ensures HandleDiscard(gs, seat, tileIndex).winner == gs.winner
  {
    var hand := gs.players[Next(seat)] + [gs.deck[|gs.deck| - 1]];
    DiscardMoves(gs, seat, tileIndex, false);
    DiscardMoves(gs, seat, tileIndex, true);
    HonorHandWins(hand, gs.melds[Next(seat)]);
    DiscardOutcome(gs, seat, tileIndex, false);
    AsWrittenMissesHonorWins(gs, seat, tileIndex);
    DiscardOutcome(gs, seat, tileIndex, true);
  }

  /**
   A state that meets those conditions: seat 3 discards, and seat 0 draws the
   second green dragon onto five honour triplets and a green dragon, every
   tile with its own identity.
   */
  lemma PairDrawStateQualifies()
    ensures Accepts(PairDrawState(), 3, 0) && |PairDrawState().deck| >= 2
    ensures PairDrawState().melds[Next(3)] == []
    ensures WinningHonorHand(PairDrawState().players[Next(3)] + [PairDrawState().deck[1]])
    ensures DistinctIds(PairDrawState().players[Next(3)] + [PairDrawState().deck[1]])
  {
    var hand := PairDrawState().players[0] + [PairDrawState().deck[1]];
    assert hand == PairDrawHand();
    PairDrawHandWins(hand);
    IdsArePositions(hand);
  }

  /** Seat 0's hand after the draw is such a winning hand. */
  lemma PairDrawHandWins(hand: seq<Tile>)
    requires hand == PairDrawHand()
    ensures WinningHonorHand(hand)
    ensures forall i :: 0 <= i < |hand| ==> hand[i].id == i
  {
    var t := FiveTriplets();
    assert forall i :: 0 <= i < 15 ==> hand[i] == t[i];
    forall k | 0 <= k < 5
      ensures IsTriplet(hand[3 * k], hand[3 * k + 1], hand[3 * k + 2])
    {
    }
  }
}
