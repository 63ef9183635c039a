/** Optional values, standing in for the source's `T | null` and `undefined`. */
module Wrappers {

  datatype Option<+T> = None | Some(value: T)
}

/**
 The shared vocabulary of the engine: suits, tiles, seats, phases, action
 kinds and melds (src/types.ts).
 */
module Tiles {

  /** The five suits, declared in the order the hand sorter ranks them. */
  datatype Suit = Man | Pin | Sou | Wind | Dragon

  /**
   A tile definition without identity: what two tiles must share to "match".
   The display symbol and name of a definition play no part in the rules.
   */
  datatype Kind = Kind(suit: Suit, value: int)

  /**
   A physical tile. The source's string id `tile-<n>-<suit>-<value>` is
   modelled by its counter `n`: two ids are equal exactly when the counters are.
   */
  datatype Tile = Tile(id: nat, suit: Suit, value: int)

  /** An absolute seat: Bottom = 0, Right = 1, Top = 2, Left = 3. */
  type Seat = s: int | 0 <= s < 4

  datatype GamePhase = Draw | Discard | Action | GameOver

  datatype ActionType = Chi | Pong | Kong | AnKong | BuKong | Hu | Pass

  datatype Meld = Meld(action: ActionType, tiles: seq<Tile>)

  function KindOf(t: Tile): Kind {
    Kind(t.suit, t.value)
  }

  /** Winds and dragons never take part in runs or Chi. */
  predicate IsHonor(s: Suit) {
    s == Wind || s == Dragon
  }

  /** The seat that acts after `s` in the ring. */
  function Next(s: Seat): Seat {
    (s + 1) % 4
  }
}
