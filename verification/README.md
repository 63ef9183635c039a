# Taiwan-style Mahjong engine: Dafny model

This project models the core of a four-seat Taiwan-style Mahjong game. Hands hold
16 tiles, and a winning hand holds 17: five sets and a pair, or eight pairs. The
model covers:

- **Tile table and deck** (`constants.dfy`, `deck.dfy`). There are 34 tile kinds.
  The deck holds four numbered copies of each kind, 136 tiles in all, and is then
  shuffled with Fisher–Yates.
- **Hand utilities** (`tile_seq.dfy`, `sort_hand.dfy`, `grouping.dfy`).
  - `sortHand` orders by suit and then by value.
  - `find`, `findIndex` and `filter` are modelled on tile sequences.
  - Tiles are grouped by kind the way the source's `Record` keyed by suit and
    value does it.
- **Meld rules** (`meld_rules.dfy`): `canPong`, `canKong`, `getPossibleAnKongs`
  (concealed kongs), `getPossibleBuKongs` (added kongs) and `canChi`.
- **Win check** (`win_check.dfy`): the eight-pairs shortcut of `checkWin`, and the
  backtracking search `canFormSets` over pair, triplet and run. A separate reference
  definition (`Splits`) says what a genuine split of a hand into one pair and its
  sets is.
- **Server state** (`server.dfy`):
  - `createInitialGameState`: 16 rounds of dealing from the end of the wall, then
    the starting draw for seat 0.
  - The `Discard` branch of the `playerAction` handler: its guard, the discard, the
    next seat's draw, the win check, and the phase that follows.
- **Client view** (`client_view.dfy`):
  - the relative and absolute seat arithmetic;
  - the two-click discard;
  - the hand display that moves the drawn tile to the far right;
  - the discard piles rotated into the player's own view.

Tiles are `Tile(id, suit, value)`. The source builds its id string from a counter,
the suit and the value. The model keeps only the counter, which is already unique.
Per-seat records become sequences of length four indexed by `Seat` (0..3). Wherever
the source calls `Math.random`, the model takes a function parameter `pick`.

Behaviour of the code that a reader might not expect, and the model keeps as written:

- **A discard after the game is over is still applied.** The `Discard` branch never
  reads the phase (`Server.DiscardIgnoresPhase`). After a win, a further discard
  puts the game back in the Discard phase with the old winner still recorded
  (`Server.GameOverResumes`). A game that treats GameOver as terminal would reject
  such a discard.
- **The game ends as the last tile is drawn.** Its end is decided by the wall being
  empty *after* the draw, not by a draw attempted on an empty wall. A game that ends
  this way keeps whatever winner was already recorded.
- **The eight-pairs shortcut accounts for only 16 of the 17 tiles.**
  `WinCheck.EightPairsLeaveLoneTile` shows that a hand accepted this way always
  has one kind held exactly once, and no kind held more than twice.

## Model

| member | source | states |
|---|---|---|
| Constants.TileDefinitionsShape | src/constants.ts:10-26 | the table has 34 entries, no kind twice, and lists exactly the real kinds: values 1-9 in the three numbered suits, winds 1-4, dragons 1-3 |
| Constants.DefinitionAt | src/constants.ts:10-26 | every entry is a real kind, listed at its suit block's offset plus its value minus one |
| Constants.DefinitionOf | src/constants.ts:10-26 | every real kind is listed, at the position its suit and value give |
| Deck.BuildDeck | shared/utils/mahjongLogic.ts:5-15 | four tiles per definition, with identities counting up from the counter without gaps |
| Deck.BuildDeckCounts | shared/utils/mahjongLogic.ts:8-15 | over distinct definitions, every listed kind gets exactly four tiles and an unlisted kind none |
| Deck.OrderedDeckShape | shared/utils/mahjongLogic.ts:4-16 | the unshuffled deck has 136 tiles with distinct identities: four of each real kind and none of any other |
| Deck.ShuffleDeck | shared/utils/mahjongLogic.ts:20-27 | whatever the random choices, the shuffled deck is a permutation of the input |
| Deck.GenerateDeck | shared/utils/mahjongLogic.ts:4-18 | the deck is a permutation of the 136-tile ordered deck, with distinct identities and four tiles of each real kind |
| TileSeq.Matches | shared/utils/mahjongLogic.ts:43 | the filter keeps exactly the tiles of the given kind |
| TileSeq.FirstIndexOf | shared/utils/mahjongLogic.ts:165-166 | `findIndex` by kind: -1 or a position of the sequence, and a position found holds the kind |
| TileSeq.FirstIndexOfFirst | shared/utils/mahjongLogic.ts:165-166 | no position before the one `findIndex` returns holds the kind, and -1 means no position does |
| TileSeq.Find | shared/utils/mahjongLogic.ts:73 | `find` by kind yields a tile exactly when the hand holds the kind, and then the tile at the first position holding it |
| TileSeq.IndexOfId | src/App.tsx:94 | `findIndex` by identity: the first position with the identity, or -1 when none has it |
| TileSeq.RemoveIdsKeeps | shared/utils/mahjongLogic.ts:175 | the id filter keeps a tile exactly when it is in the hand and its identity is not one of those removed |
| TileSeq.RemoveThreeIds | shared/utils/mahjongLogic.ts:169-175 | on distinct identities, filtering out the identities at three different positions removes exactly those three tiles, and the rest keeps distinct identities |
| HandSort.SortHand | shared/utils/mahjongLogic.ts:29-38 | the result is a permutation of the hand, ordered by suit rank and then by value |
| HandSort.SortHandSorted | shared/utils/mahjongLogic.ts:29-38 | a hand already in that order comes back unchanged |
| HandSort.SortHandIdempotent | shared/utils/mahjongLogic.ts:29-38 | sorting a sorted hand changes nothing |
| Grouping.Keys | shared/utils/mahjongLogic.ts:54-59 | the record's keys are distinct and are exactly the kinds the hand holds |
| Grouping.GroupsMeaning | shared/utils/mahjongLogic.ts:54-61 | a key's group holds exactly the hand's tiles of that kind, one per position holding the kind, so never none, and starts with the hand's first tile of the kind |
| Grouping.GroupSizesMeaning | shared/utils/mahjongLogic.ts:114-119 | a key's count is the number of positions of the hand holding that kind, at least one |
| Grouping.GroupSizesHeld | shared/utils/mahjongLogic.ts:114-119 | counting the group sizes equal to n counts the kinds held at exactly n positions of the hand |
| WinCheck.GroupSizesSum | shared/utils/mahjongLogic.ts:114-119 | the counts per kind add up to the number of tiles |
| MeldRules.CanPong | shared/utils/mahjongLogic.ts:42-45 | Pong is possible exactly when at least two positions of the hand hold the tile's kind |
| MeldRules.CanKong | shared/utils/mahjongLogic.ts:47-50 | Kong is possible exactly when exactly three positions hold the kind; a possible Kong is also a possible Pong |
| MeldRules.PossibleAnKongs | shared/utils/mahjongLogic.ts:53-64 | each result is the hand's first tile of a kind held exactly four times; every such kind appears, and no kind appears twice |
| MeldRules.AnKongsComplete | shared/utils/mahjongLogic.ts:53-64 | every kind held four times gets a group of four, headed by a tile of that kind |
| MeldRules.PongMelds | shared/utils/mahjongLogic.ts:68 | the filter keeps exactly the Pong melds |
| MeldRules.PossibleBuKongs | shared/utils/mahjongLogic.ts:67-80 | there is at most one tile per Pong meld; each is the hand's first tile of some Pong meld's kind, and every Pong meld whose kind the hand holds contributes its tile |
| MeldRules.BuKongsIgnoreOtherMelds | shared/utils/mahjongLogic.ts:67-80 | adding a meld other than a Pong, at either end, does not change the result |
| MeldRules.CanChi | shared/utils/mahjongLogic.ts:83-103 | a wind or dragon gets no option; any other tile gets at most three |
| MeldRules.CanChiSound | shared/utils/mahjongLogic.ts:83-103 | every option is two of the hand's first tiles of their values, in the discarded tile's suit, that complete a run with it |
| MeldRules.CanChiOrdered | shared/utils/mahjongLogic.ts:86-102 | options come in the order lower, middle, upper run, each with a distinct lower value |
| MeldRules.CanChiComplete | shared/utils/mahjongLogic.ts:84-100 | for a numbered tile, an option starting at a run's lower value is present exactly when the hand holds both of that run's other tiles |
| WinCheck.FullHand | shared/utils/mahjongLogic.ts:107 | the full hand is the hand plus the extra tile, if given |
| WinCheck.RemovePair | shared/utils/mahjongLogic.ts:144-145 | the splice removes exactly the two adjacent tiles of the pair |
| WinCheck.RunPositions | shared/utils/mahjongLogic.ts:163-168 | when both look-ups succeed, the first tile and the two tiles found form a run of a numbered suit |
| WinCheck.CanFormSetsLength | shared/utils/mahjongLogic.ts:137-182 | whatever the identities, a successful search had at least three tiles per set still needed, plus two while the pair is still to be found |
| WinCheck.CanFormSetsSound | shared/utils/mahjongLogic.ts:137-182 | on distinct identities, a successful search means the tiles really split into the pair (unless already found) and exactly `setsNeeded` triplets or runs, each tile used once; the length is three per set plus two for the pair |
| WinCheck.TripletsThenPairAccepted | shared/utils/mahjongLogic.ts:137-182 | a hand laid out as triplets followed by a pair is accepted |
| WinCheck.HonorsLength | shared/utils/mahjongLogic.ts:137-182 | over winds and dragons, identities or not, a successful search used exactly two tiles for the pair and three per set |
| WinCheck.CheckWin | shared/utils/mahjongLogic.ts:106-134 | a 17-tile meld-free hand with exactly eight kinds held twice is a win |
| WinCheck.CheckWinSound | shared/utils/mahjongLogic.ts:106-134 | on distinct identities, a win is the eight-pairs shortcut or a genuine split of 17 - 3 × melds tiles into one pair and the sets still needed |
| WinCheck.WinBySortedSearch | shared/utils/mahjongLogic.ts:130-133 | a hand already in `sortHand`'s order, that the search accepts with the sets its melds leave, is a win |
| WinCheck.EightPairsMeaning | shared/utils/mahjongLogic.ts:113-124 | the shortcut accepts exactly a meld-free 17-tile hand in which exactly eight kinds are each held at exactly two positions |
| WinCheck.EightPairsLeaveLoneTile | shared/utils/mahjongLogic.ts:113-124 | a hand accepted by the eight-pairs shortcut holds some kind exactly once and no kind more than twice |
| Server.Deal | server/index.ts:65-72 | after 16 rounds the wall keeps its first 72 tiles; seat q's j-th tile is the (4j + q)-th from the end of the wall; no tile is lost |
| Server.DealAndDraw | server/index.ts:65-78 | after the deal and the starting draw the wall holds 71 tiles, seat 0 holds 17 with the drawn tile last, the others 16, and no tile is lost |
| Server.CreateInitialGameState | server/index.ts:43-93 | the wall has 71 tiles; seat 0 holds 17 and has just drawn its last tile; the others hold 16; there are no melds or discards and seat 0 is to discard; the tiles are the 136-tile deck, each unique |
| Server.RemoveAt | server/index.ts:148 | the splice removes exactly the tile at the index and keeps the order of the rest |
| Server.DrawInto | server/index.ts:156-160 | the last tile of the wall, if any, moves to the end of the seat's hand; an empty wall moves nothing; no tile is lost |
| Server.MoveTiles | server/index.ts:148-160 | the discard and the draw only move tiles between wall, hands and piles |
| Server.AcceptedDiscardTakesTile | server/index.ts:142-151 | a Discard request changes the match exactly when it comes from the current player and names a position of that player's hand; the tile there then leaves the hand, is added to the player's pile and becomes the last discard |
| Server.DiscardStep | server/index.ts:142-177 | a discard out of turn or out of range changes nothing; an accepted one passes the turn to the next seat, records the discarded tile and its seat, piles it, counts the turn and clears the actions |
| Server.DiscardConserves | server/index.ts:142-177 | every discard, accepted or not, keeps the match's tiles the same |
| Server.DiscardMoves | server/index.ts:148-160 | the discarder loses exactly the indexed tile; only the next seat draws, and only from a non-empty wall; an empty wall ends the game with the winner unchanged |
| Server.DiscardOutcome | server/index.ts:163-173 | a win ends the game with the next seat as winner; otherwise an empty wall ends it; otherwise the next seat is to discard |
| Server.DiscardIgnoresPhase | server/index.ts:142-146 | acceptance and effect of a discard are the same in every phase |
| Server.GameOverResumes | server/index.ts:166-173 | after a win, a discard that draws without winning puts the game back in the Discard phase, keeping the old winner |
| Server.HandleDiscard | server/index.ts:142-177 | the branch as written keeps the match's tiles; on an accepted discard from a non-empty wall the next seat's hand gains the wall's last tile at its end; a win of the check that is passed that tile again ends the game with that seat as winner, and otherwise the old winner stays and the game ends exactly when the draw emptied the wall |
| Server.HandleDiscardCorrected | server/index.ts:142-177 | the same, with the win check run on the next seat's hand alone |
| Server.Play | server/index.ts:142-177 | any sequence of discard requests, accepted or not, keeps the match's tiles |
| Server.PlayKeepsDeck | server/index.ts:142-177 | from a match holding the deck's tiles, any sequence of discard requests leaves exactly the 136 tiles of the deck on the table, each unique |
| Server.DiscardKeepsUnique | server/index.ts:142-177 | the match's tiles stay unique, and as many, across any discard |
| Server.CorrectedWinSound | server/index.ts:156-168 | with the drawn tile counted once, a declared win is eight pairs or a genuine pair-and-sets split of the next seat's hand |
| Server.AsWrittenCountsDrawTwice | server/index.ts:158-164 | as written, the hand the win check examines holds the drawn tile twice |
| Server.AsWrittenMissesHonorWins | server/index.ts:158-164 | as written, a meld-free 17-tile hand of winds and dragons is never a win after a draw |
| Server.DoubleCountMissesWin | server/index.ts:156-173 | when the drawn tile completes five honour triplets and a pair, the corrected check ends the game with the drawer as winner, while the check as written lets play go on |
| Server.PairDrawStateQualifies | server/index.ts:156-173 | a concrete state meets those conditions: seat 3 discards and seat 0 draws the second green dragon |
| ClientView.GetRelativePlayer | src/App.tsx:133-141 | the visual position, counted on from the player's own seat, lands on the target seat; without a seat the target is returned unchanged |
| ClientView.GetAbsolutePlayerFromRelative | src/App.tsx:146-152 | a seat is given exactly when the client knows its own seat, and that seat is shown at the requested position |
| ClientView.AbsoluteOfRelative | src/App.tsx:133-152 | the seat drawn at the position where a seat is shown is that seat |
| ClientView.RotationKeepsTurnOrder | src/App.tsx:133-141 | the player is shown at the bottom, and the seat after any seat is shown one position further round |
| ClientView.HandleHumanDiscard | src/App.tsx:91-114 | an index is sent exactly when the player may discard the tile and it was already selected; it is the first position of that identity in the hand, and the selection is cleared; a first click selects; any other click changes nothing |
| ClientView.SecondClickDiscards | src/App.tsx:101-113 | of two clicks in a row on a tile the player may discard, one sends it |
| ClientView.SentDiscardAccepted | src/App.tsx:107-112 | the index the client sends passes the server's guard and moves the clicked tile onto the player's pile |
| ClientView.DisplayHand | src/App.tsx:190-197 | off the player's own Discard turn, or with no drawn tile, the hand is shown as it is; on distinct identities the display is a rearrangement of the hand, in which a drawn tile the hand holds moves to the end during the player's Discard turn while the others keep their order |
| ClientView.DisplayAfterDrawUnchanged | src/App.tsx:190-197 | right after the server's draw, the drawn tile is already last, so the display is the hand itself |
| ClientView.RotatedDiscards | src/App.tsx:343-348 | the pile shown at each visual position is that of the seat drawn there |
| ClientView.RotatedDiscardsShowEverySeat | src/App.tsx:343-348 | every seat's pile is shown, at that seat's visual position |
| ClientView.RotatedDiscardsSameTiles | src/App.tsx:343-348 | the rotated piles hold exactly the tiles of the piles |

## Left out

- Sockets, rooms, seat assignment and broadcasting are not modelled; the acting seat and the client's state are parameters.
- The non-Discard branch of `playerAction` (server/index.ts:182-185) only rebroadcasts the state and changes nothing, so it is not modelled; the resolution of Chi, Pong, Kong and Hu claims does not exist on the server.
- The AI helpers (`getSimpleAIMove`, `getAIReaction`, `formatHandForAI`) and the hint service are not modelled.
- React rendering and component state are not modelled; `selectedTileId` is an explicit parameter and result of `ClientView.HandleHumanDiscard`.
- `Math.random` in `shuffleDeck` is the parameter `pick`, with the index drawn as `pick(i) % (i + 1)`. Every choice the source can make is some `pick`, and the permutation property holds for all of them.
- The deal's `if (tile)` and `?? null` guards are not exercised, because the deck always holds 136 tiles (`Deck.GenerateDeck`). The model still follows `DrawInto` for an empty wall.
- `typeof tileIndex === 'number'`: the index is an integer. A fractional or NaN index, which `splice` would truncate, is not modelled.
- The display symbols and names of the tile table are not modelled, since no rule reads them.
- A tile's string identity is modelled by its counter. Two ids are equal exactly when their counters are, because the counter is part of the string.
- WinCheck.CanFormSetsSound: only soundness of the backtracking search is proved; its completeness, that it finds every split, is not proved.
- HandSort.SortHand: stability is not stated. The permutation and the order are; the insertion keeps equal tiles in input order, as the source's stable sort does.
- MeldRules.CanChi: its own contract gives only the honour case and the bound. The meaning of the options is stated by `MeldRules.CanChiSound`, `MeldRules.CanChiOrdered` and `MeldRules.CanChiComplete`.
- MeldRules.PossibleBuKongs: requires every Pong meld to hold a tile. The source reads `meld.tiles[0]` and would fail on an empty Pong meld, which the game never creates.
- Server.DiscardStep: `lastDrawnTile` set to null before the draw is not a separate state. The model writes the final value directly.

## Findings

| source | as written | input that shows it | evidently intended | confidence | as-written member | corrected member |
|---|---|---|---|---|---|---|
| server/index.ts:158-164 | the drawn tile is pushed into the next seat's hand and then passed again to `checkWin` as the extra tile, so the check sees 18 tiles, one of them twice | seat 3 discards its only tile and seat 0, holding five honour triplets and a green dragon, draws the second green dragon: a winning 17-tile hand that the check as written rejects | check the hand that already holds the drawn tile, without passing it again | not executed | Server.DoubleCountMissesWin | Server.CorrectedWinSound |

`Server.HandleDiscard` is the branch as written, and `Server.HandleDiscardCorrected` passes the hand alone. Three lemmas show the effect:

- `Server.AsWrittenCountsDrawTwice`: the examined hand holds the drawn tile twice.
- `Server.AsWrittenMissesHonorWins`: a hand of winds and dragons can never win after a draw.
- `Server.PairDrawStateQualifies`: the concrete state above meets the conditions of `Server.DoubleCountMissesWin`.
