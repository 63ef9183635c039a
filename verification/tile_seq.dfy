/**
 Searching, filtering and counting over sequences of tiles: the `filter`,
 `find` and `findIndex` calls the rules engine and the client make, with the
 multiset facts the rest of the model relies on.
 */
module TileSeq {
  import opened Wrappers
  import opened Tiles

  /** The tiles of `s` matching kind `k`, in order (`s.filter(...)`). */
  function Matches(s: seq<Tile>, k: Kind): (r: seq<Tile>)
    ensures |r| <= |s|
    ensures forall t :: t in r <==> t in s && KindOf(t) == k
  {
    if s == [] then []
    else (if KindOf(s[0]) == k then [s[0]] else []) + Matches(s[1..], k)
  }

  /** How many tiles of `s` match kind `k`. */
  function CountOf(s: seq<Tile>, k: Kind): nat {
    |Matches(s, k)|
  }

  /** The positions of `s` holding a tile of kind `k`: the reference for counting. */
  ghost function Positions(s: seq<Tile>, k: Kind): set<int> {
    set i | 0 <= i < |s| && KindOf(s[i]) == k
  }

  /** Index of the first tile of kind `k`, or -1 (`findIndex`); see FirstIndexOfFirst. */
  function FirstIndexOf(s: seq<Tile>, k: Kind): (i: int)
    ensures -1 <= i < |s|
    ensures 0 <= i ==> KindOf(s[i]) == k
  {
    if s == [] then -1
    else if KindOf(s[0]) == k then 0
    else
      var i := FirstIndexOf(s[1..], k);
      if i == -1 then -1 else i + 1
  }

  /** No tile before the index FirstIndexOf returns is of kind `k`; -1 means no tile at all is. */
  lemma {:induction false} FirstIndexOfFirst(s: seq<Tile>, k: Kind)
    ensures forall j :: 0 <= j < |s| && (FirstIndexOf(s, k) == -1 || j < FirstIndexOf(s, k)) ==> KindOf(s[j]) != k
    decreases |s|
  {
    if s != [] && KindOf(s[0]) != k {
      FirstIndexOfFirst(s[1..], k);
      forall j | 0 < j < |s|
        ensures s[j] == s[1..][j - 1]
      {
      }
    }
  }

  /** The first tile of kind `k`, if any (`find`). */
  function Find(s: seq<Tile>, k: Kind): (r: Option<Tile>)
    ensures r.Some? <==> exists i :: 0 <= i < |s| && KindOf(s[i]) == k
    ensures r.Some? ==> r.value in s && KindOf(r.value) == k
    ensures r.Some? ==> 0 <= FirstIndexOf(s, k) && r.value == s[FirstIndexOf(s, k)]
  {
    var i := FirstIndexOf(s, k);
    FirstIndexOfFirst(s, k);
    if i < 0 then None else Some(s[i])
  }

  /** Index of the first tile with identity `id`, or -1. */
  function IndexOfId(s: seq<Tile>, id: nat): (i: int)
    ensures -1 <= i < |s|
    ensures 0 <= i ==> s[i].id == id
    ensures forall j :: 0 <= j < |s| && (i == -1 || j < i) ==> s[j].id != id
  {
    if s == [] then -1
    else if s[0].id == id then 0
    else
      var i := IndexOfId(s[1..], id);
      if i == -1 then -1 else i + 1
  }

  /** The tiles of `s` whose identity is not in `ids`, in order. */
  function RemoveIds(s: seq<Tile>, ids: set<nat>): (r: seq<Tile>)
    ensures |r| <= |s|
    ensures |s| > 0 && s[0].id in ids ==> |r| < |s|
  {
    if s == [] then []
    else (if s[0].id in ids then [] else [s[0]]) + RemoveIds(s[1..], ids)
  }

  /**
   The filter drops at least one tile per listed position: every position in
   `ps` (strictly increasing) holds a tile whose identity is filtered out.
   */
  lemma {:induction false} RemoveIdsDrops(s: seq<Tile>, ids: set<nat>, ps: seq<int>)
    requires forall j :: 0 <= j < |ps| ==> 0 <= ps[j] < |s| && s[ps[j]].id in ids
    requires forall j, k :: 0 <= j < k < |ps| ==> ps[j] < ps[k]
    ensures |RemoveIds(s, ids)| + |ps| <= |s|
    decreases |s|
  {
    if ps != [] {
      assert 0 <= ps[0] < |s|;
      var rest := if |ps| > 0 && ps[0] == 0 then ps[1..] else ps;
      assert forall j :: 0 <= j < |rest| ==> rest[j] > 0 by {
        if |ps| > 0 && ps[0] == 0 {
          forall j | 0 <= j < |rest|
            ensures rest[j] > 0
          {
            assert rest[j] == ps[j + 1];
          }
        } else {
          forall j | 0 <= j < |rest|
            ensures rest[j] > 0
          {
            if j > 0 {
              assert ps[0] < ps[j];
            }
          }
        }
      }
      var shifted := seq(|rest|, j requires 0 <= j < |rest| => rest[j] - 1);
      forall j | 0 <= j < |shifted|
        ensures 0 <= shifted[j] < |s[1..]| && s[1..][shifted[j]].id in ids
      {
        if |ps| > 0 && ps[0] == 0 {
          assert rest[j] == ps[j + 1];
        }
      }
      forall j, k | 0 <= j < k < |shifted|
        ensures shifted[j] < shifted[k]
      {
        if |ps| > 0 && ps[0] == 0 {
          assert rest[j] == ps[j + 1] && rest[k] == ps[k + 1];
        }
      }
      RemoveIdsDrops(s[1..], ids, shifted);
      assert RemoveIds(s, ids) == (if s[0].id in ids then [] else [s[0]]) + RemoveIds(s[1..], ids);
      if |ps| > 0 && ps[0] == 0 {
        assert s[0].id in ids;
      }
    }
  }

  /** A tile survives the filter exactly when it is in the sequence and its identity is not listed. */
  lemma {:induction false} RemoveIdsKeeps(s: seq<Tile>, ids: set<nat>, x: Tile)
    ensures x in RemoveIds(s, ids) <==> x in s && x.id !in ids
    decreases |s|
  {
    if s != [] {
      RemoveIdsKeeps(s[1..], ids, x);
      assert s == [s[0]] + s[1..];
    }
  }

  /** No two positions of `s` hold tiles with the same identity. */
  predicate DistinctIds(s: seq<Tile>) {
    forall i, j :: 0 <= i < j < |s| ==> s[i].id != s[j].id
  }

  lemma MatchesAppend(a: seq<Tile>, b: seq<Tile>, k: Kind)
    ensures Matches(a + b, k) == Matches(a, k) + Matches(b, k)
  {
    if a != [] {
      var head := if KindOf(a[0]) == k then [a[0]] else [];
      assert (a + b)[0] == a[0];
      assert (a + b)[1..] == a[1..] + b;
      MatchesAppend(a[1..], b, k);
      assert Matches(a + b, k) == head + Matches(a[1..] + b, k);
      assert Matches(a, k) == head + Matches(a[1..], k);
    } else {
      assert a + b == b;
    }
  }

  /** Counting by kind is blind to the order of the tiles. */
  lemma {:induction false} CountPermutation(a: seq<Tile>, b: seq<Tile>, k: Kind)
    requires multiset(a) == multiset(b)
    ensures CountOf(a, k) == CountOf(b, k)
    decreases |a|
  {
    if a == [] {
      assert |b| == |multiset(b)| == 0;
    } else {
      var x := a[0];
      assert x in multiset(b);
      var i :| 0 <= i < |b| && b[i] == x;
      var rest := b[..i] + b[i + 1..];
      SpliceMultiset(a, b, i);
      CountPermutation(a[1..], rest, k);
      CountSplice(b, i, k);
    }
  }

  /** Taking the first tile of `a` out of `a`, and out of a permutation `b` of it, leaves permutations. */
  lemma SpliceMultiset(a: seq<Tile>, b: seq<Tile>, i: nat)
    requires multiset(a) == multiset(b)
    requires a != [] && i < |b| && b[i] == a[0]
    ensures multiset(b[..i] + b[i + 1..]) == multiset(a[1..])
  {
    assert b == b[..i] + [b[i]] + b[i + 1..];
    assert a == [a[0]] + a[1..];
    assert multiset(b[..i] + b[i + 1..]) == multiset(b) - multiset{b[i]};
    assert multiset(a[1..]) == multiset(a) - multiset{a[0]};
  }

  /** Taking out position `i` lowers the count of that position's kind by one. */
  lemma CountSplice(b: seq<Tile>, i: nat, k: Kind)
    requires i < |b|
    ensures CountOf(b, k) == CountOf(b[..i] + b[i + 1..], k) + (if KindOf(b[i]) == k then 1 else 0)
  {
    assert b == b[..i] + [b[i]] + b[i + 1..];
    MatchesAppend(b[..i] + [b[i]], b[i + 1..], k);
    MatchesAppend(b[..i], [b[i]], k);
    MatchesAppend(b[..i], b[i + 1..], k);
  }

  /** The recursive count agrees with the number of matching positions. */
  lemma {:induction false} CountIsPositions(s: seq<Tile>, k: Kind)
    ensures CountOf(s, k) == |Positions(s, k)|
    decreases |s|
  {
    if s != [] {
      var n := |s| - 1;
      CountIsPositions(s[..n], k);
      CountSnoc(s, k);
      PositionsSnoc(s, k);
    }
  }

  lemma CountSnoc(s: seq<Tile>, k: Kind)
    requires s != []
    ensures CountOf(s, k) == CountOf(s[..|s| - 1], k) + (if KindOf(s[|s| - 1]) == k then 1 else 0)
  {
    var n := |s| - 1;
    assert s == s[..n] + [s[n]];
    MatchesAppend(s[..n], [s[n]], k);
  }

  lemma PositionsSnoc(s: seq<Tile>, k: Kind)
    requires s != []
    ensures |Positions(s, k)| == |Positions(s[..|s| - 1], k)| + (if KindOf(s[|s| - 1]) == k then 1 else 0)
  {
    var n := |s| - 1;
    var p := s[..n];
    var extra: set<int> := if KindOf(s[n]) == k then {n} else {};
    assert Positions(s, k) == Positions(p, k) + extra;
    assert n !in Positions(p, k);
  }

  /** In a sequence with distinct identities every tile occurs at most once. */
  lemma {:induction false} DistinctOccursOnce(s: seq<Tile>, x: Tile)
    requires DistinctIds(s)
    ensures multiset(s)[x] == if x in s then 1 else 0
    decreases |s|
  {
    if s != [] {
      assert s == [s[0]] + s[1..];
      assert DistinctIds(s[1..]);
      DistinctOccursOnce(s[1..], x);
      if x == s[0] {
        assert x !in s[1..];
      }
    }
  }

  /** Two tiles of a sequence with distinct identities that share an identity are one tile. */
  lemma SameIdSameTile(s: seq<Tile>, x: Tile, y: Tile)
    requires DistinctIds(s)
    requires x in s && y in s
    ensures x.id == y.id ==> x == y
  {
    var p :| 0 <= p < |s| && s[p] == x;
    var q :| 0 <= q < |s| && s[q] == y;
    assert p < q || q < p || p == q;
  }

  /** A tile at two positions occurs at least twice in the multiset. */
  lemma RepeatedTile(s: seq<Tile>, i: nat, j: nat)
    requires i < j < |s|
    ensures s[i] == s[j] ==> multiset(s)[s[i]] >= 2
  {
    assert s == s[..j] + s[j..];
    assert s[i] in s[..j] && s[j] in s[j..];
    assert multiset(s)[s[i]] == multiset(s[..j])[s[i]] + multiset(s[j..])[s[i]];
  }

  /** Any sub-multiset (in particular any permutation) keeps identities distinct. */
  lemma SubMultisetDistinct(a: seq<Tile>, b: seq<Tile>)
    requires multiset(a) <= multiset(b)
    requires DistinctIds(b)
    ensures DistinctIds(a)
  {
    forall i, j | 0 <= i < j < |a|
      ensures a[i].id != a[j].id
    {
      assert a[i] in multiset(b) && a[j] in multiset(b);
      SameIdSameTile(b, a[i], a[j]);
      RepeatedTile(a, i, j);
      DistinctOccursOnce(b, a[i]);
    }
  }

  lemma RemoveIdsSubMultiset(s: seq<Tile>, ids: set<nat>)
    ensures multiset(RemoveIds(s, ids)) <= multiset(s)
  {
    if s != [] {
      assert s == [s[0]] + s[1..];
      RemoveIdsSubMultiset(s[1..], ids);
    }
  }

  /** With distinct identities, filtering by identity keeps each surviving tile exactly once. */
  lemma RemoveIdsOccurs(s: seq<Tile>, ids: set<nat>, x: Tile)
    requires DistinctIds(s)
    ensures multiset(RemoveIds(s, ids))[x] == if x in s && x.id !in ids then 1 else 0
  {
    var r := RemoveIds(s, ids);
    RemoveIdsSubMultiset(s, ids);
    SubMultisetDistinct(r, s);
    DistinctOccursOnce(r, x);
    RemoveIdsKeeps(s, ids, x);
  }

  /** Filtering identities out of a sequence with distinct identities drops each tile carrying one. */
  lemma RemoveCount(s: seq<Tile>, ids: set<nat>, x: Tile, taken: bool)
    requires DistinctIds(s)
    requires taken <==> x in s && x.id in ids
    ensures multiset(RemoveIds(s, ids))[x] + (if taken then 1 else 0) == multiset(s)[x]
  {
    RemoveIdsOccurs(s, ids, x);
    DistinctOccursOnce(s, x);
  }

  /** The tiles taken out by three identities are the three tiles carrying them. */
  lemma TakenIffNamed(s: seq<Tile>, ta: Tile, tb: Tile, tc: Tile, x: Tile)
    requires DistinctIds(s)
    requires ta in s && tb in s && tc in s
    ensures x == ta || x == tb || x == tc <==> x in s && x.id in {ta.id, tb.id, tc.id}
  {
    InThree(ta.id, tb.id, tc.id, x.id);
    if x in s {
      NamedIsOneOf(s, ta, tb, tc, x);
    }
  }

  lemma InThree(a: nat, b: nat, c: nat, y: nat)
    ensures y in {a, b, c} <==> y == a || y == b || y == c
  {
  }

  /** In a sequence with distinct identities, a tile carrying one of three identities is that tile. */
  lemma NamedIsOneOf(s: seq<Tile>, ta: Tile, tb: Tile, tc: Tile, x: Tile)
    requires DistinctIds(s)
    requires ta in s && tb in s && tc in s && x in s
    ensures x.id == ta.id || x.id == tb.id || x.id == tc.id <==> x == ta || x == tb || x == tc
  {
    SameIdSameTile(s, x, ta);
    SameIdSameTile(s, x, tb);
    SameIdSameTile(s, x, tc);
  }

  lemma ThreeCount(ta: Tile, tb: Tile, tc: Tile, x: Tile)
    requires ta.id != tb.id && tb.id != tc.id && ta.id != tc.id
    ensures (multiset{ta} + multiset{tb} + multiset{tc})[x] == if x == ta || x == tb || x == tc then 1 else 0
  {
  }

  lemma RemoveThree(s: seq<Tile>, ta: Tile, tb: Tile, tc: Tile)
    requires DistinctIds(s)
    requires ta in s && tb in s && tc in s
    requires ta.id != tb.id && tb.id != tc.id && ta.id != tc.id
    ensures multiset(RemoveIds(s, {ta.id, tb.id, tc.id})) + multiset{ta, tb, tc} == multiset(s)
  {
    var r := RemoveIds(s, {ta.id, tb.id, tc.id});
    forall x
      ensures (multiset(r) + (multiset{ta} + multiset{tb} + multiset{tc}))[x] == multiset(s)[x]
    {
      TakenIffNamed(s, ta, tb, tc, x);
      RemoveCount(s, {ta.id, tb.id, tc.id}, x, x == ta || x == tb || x == tc);
      ThreeCount(ta, tb, tc, x);
    }
    assert multiset{ta, tb, tc} == multiset{ta} + multiset{tb} + multiset{tc};
    assert multiset(r) + (multiset{ta} + multiset{tb} + multiset{tc}) == multiset(s);
  }

  /**
   Filtering out the identities of three tiles at distinct positions of a
   sequence with distinct identities removes exactly those three tiles.
   */
  lemma RemoveThreeIds(s: seq<Tile>, a: nat, b: nat, c: nat)
    requires DistinctIds(s)
    requires a < |s| && b < |s| && c < |s|
    requires a != b && b != c && a != c
    ensures multiset(RemoveIds(s, {s[a].id, s[b].id, s[c].id})) + multiset{s[a], s[b], s[c]}
            == multiset(s)
    ensures DistinctIds(RemoveIds(s, {s[a].id, s[b].id, s[c].id}))
  {
    var ids := {s[a].id, s[b].id, s[c].id};
    RemoveIdsSubMultiset(s, ids);
    SubMultisetDistinct(RemoveIds(s, ids), s);
    assert s[a].id != s[b].id && s[b].id != s[c].id && s[a].id != s[c].id;
    RemoveThree(s, s[a], s[b], s[c]);
  }
}
