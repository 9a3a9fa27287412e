/**
 * The part of the Dominion game state that card actions act on: cards,
 * per-player zones, and the state object that owns every zone and moves
 * cards between them.
 */
module DominionState {

  datatype Option<T> = None | Some(value: T)

  /** The enumerated kinds of Dominion card (a representative subset). */
  datatype CardType =
    | Copper | Silver | Gold
    | Estate | Duchy | Province | Curse
    | Cellar | Chapel | Moat | Village | Smithy | Militia | Market

  /** A card instance: its component identity and its kind. */
  datatype Card = Card(componentId: nat, cardType: CardType)

  /** The per-player piles the discard action touches or must leave alone. */
  datatype DeckType = Hand | Draw | Discard

  /** One zone of the game: a deck kind owned by a player index. */
  datatype Zone = Zone(player: int, deck: DeckType)

  /** Every zone of a state, each an ordered sequence of cards. */
  type Zones = map<Zone, seq<Card>>

  /** The number of cards of kind t in s. */
  function CountType(s: seq<Card>, t: CardType): (n: nat)
    ensures n <= |s|
    ensures n == 0 <==> forall i :: 0 <= i < |s| ==> s[i].cardType != t
  {
    if s == [] then 0
    else
      assert forall i :: 1 <= i < |s| ==> s[i] == s[1..][i - 1];
      (if s[0].cardType == t then 1 else 0) + CountType(s[1..], t)
  }

  lemma {:induction false} CountTypeConcat(a: seq<Card>, b: seq<Card>, t: CardType)
    ensures CountType(a + b, t) == CountType(a, t) + CountType(b, t)
  {
    if a == [] {
      assert a + b == b;
    } else {
      assert (a + b)[1..] == a[1..] + b;
      CountTypeConcat(a[1..], b, t);
    }
  }

  /** The position of the first card of kind t in s, the way a stream
      filtered on the card kind finds its first element. */
  function FirstOfType(s: seq<Card>, t: CardType): (r: Option<nat>)
    ensures r.Some? ==> r.value < |s| && s[r.value].cardType == t
    ensures r.Some? ==> forall j :: 0 <= j < r.value ==> s[j].cardType != t
    ensures r.None? <==> forall j :: 0 <= j < |s| ==> s[j].cardType != t
  {
    if s == [] then None
    else if s[0].cardType == t then Some(0)
    else
      assert forall j :: 1 <= j < |s| ==> s[j] == s[1..][j - 1];
      match FirstOfType(s[1..], t)
      case None => None
      case Some(k) => Some(k + 1)
  }

  /** The linear search over a hand for the first card of kind t. */
  method FindFirstOfType(s: seq<Card>, t: CardType) returns (r: Option<nat>)
    ensures r == FirstOfType(s, t)
  {
    var i := 0;
    while i < |s|
      invariant 0 <= i <= |s|
      invariant forall j :: 0 <= j < i ==> s[j].cardType != t
    {
      if s[i].cardType == t {
        return Some(i);
      }
      i := i + 1;
    }
    return None;
  }

  /** The position of the first occurrence of c in s: the element a list's
      remove-by-value operation takes out. */
  function IndexOf(s: seq<Card>, c: Card): (k: nat)
    requires c in s
    ensures k < |s| && s[k] == c && c !in s[..k]
  {
    if s[0] == c then 0
    else
      var k := IndexOf(s[1..], c);
      assert s[..k + 1] == [s[0]] + s[1..][..k];
      k + 1
  }

  /** s without its element at position k, the rest in their order. */
  function RemoveAt(s: seq<Card>, k: nat): (r: seq<Card>)
    requires k < |s|
    ensures |r| == |s| - 1
    ensures forall j :: 0 <= j < |r| ==> r[j] == s[if j < k then j else j + 1]
    ensures multiset(r) + multiset{s[k]} == multiset(s)
  {
    assert s == s[..k] + [s[k]] + s[k + 1..];
    s[..k] + s[k + 1..]
  }

  /** s with c inserted so that it lands at position k. */
  function InsertAt(s: seq<Card>, k: nat, c: Card): (r: seq<Card>)
    requires k <= |s|
    ensures |r| == |s| + 1 && r[k] == c
    ensures multiset(r) == multiset(s) + multiset{c}
  {
    assert s == s[..k] + s[k..];
    s[..k] + [c] + s[k..]
  }

  /** s' is s with c inserted at some position: where a moved card lands
      in its destination pile is left open. */
  ghost predicate Inserted(s': seq<Card>, s: seq<Card>, c: Card)
  {
    exists k :: 0 <= k <= |s| && s' == InsertAt(s, k, c)
  }

  lemma {:induction false} InsertAtCount(s: seq<Card>, k: nat, c: Card, t: CardType)
    requires k <= |s|
    ensures CountType(InsertAt(s, k, c), t) == CountType(s, t) + (if c.cardType == t then 1 else 0)
  {
    assert InsertAt(s, k, c) == s[..k] + ([c] + s[k..]);
    assert s == s[..k] + s[k..];
    CountTypeConcat(s[..k], [c] + s[k..], t);
    CountTypeConcat([c], s[k..], t);
    CountTypeConcat(s[..k], s[k..], t);
  }

  lemma InsertedCounts(s': seq<Card>, s: seq<Card>, c: Card)
    requires Inserted(s', s, c)
    ensures multiset(s') == multiset(s) + multiset{c}
    ensures forall t :: CountType(s', t) == CountType(s, t) + (if c.cardType == t then 1 else 0)
  {
    var k :| 0 <= k <= |s| && s' == InsertAt(s, k, c);
    forall t ensures CountType(s', t) == CountType(s, t) + (if c.cardType == t then 1 else 0) {
      InsertAtCount(s, k, c, t);
    }
  }

  lemma {:induction false} RemoveAtCount(s: seq<Card>, k: nat, t: CardType)
    requires k < |s|
    ensures CountType(RemoveAt(s, k), t) + (if s[k].cardType == t then 1 else 0) == CountType(s, t)
  {
    assert s == s[..k] + ([s[k]] + s[k + 1..]);
    assert RemoveAt(s, k) == s[..k] + s[k + 1..];
    CountTypeConcat(s[..k], [s[k]] + s[k + 1..], t);
    CountTypeConcat([s[k]], s[k + 1..], t);
    CountTypeConcat(s[..k], s[k + 1..], t);
  }

  /** How many copies of card x the zones listed in ks hold together. */
  ghost function Copies(z: Zones, ks: seq<Zone>, x: Card): nat
  {
    if ks == [] then 0
    else (if ks[0] in z then multiset(z[ks[0]])[x] else 0) + Copies(z, ks[1..], x)
  }

  ghost predicate Distinct(ks: seq<Zone>)
  {
    forall i, j :: 0 <= i < j < |ks| ==> ks[i] != ks[j]
  }

  lemma DistinctTail(ks: seq<Zone>)
    requires Distinct(ks) && ks != []
    ensures Distinct(ks[1..]) && ks[0] !in ks[1..]
    ensures forall y :: y in ks <==> y == ks[0] || y in ks[1..]
  {
    var rest := ks[1..];
    forall i, j | 0 <= i < j < |rest| ensures rest[i] != rest[j] {
      assert rest[i] == ks[i + 1] && rest[j] == ks[j + 1];
    }
    forall i | 0 <= i < |rest| ensures rest[i] != ks[0] {
      assert rest[i] == ks[i + 1];
    }
    assert ks == [ks[0]] + rest;
  }

  /** One copy of c when `moved` holds, none otherwise. */
  function MovedIf(c: Card, x: Card, moved: bool): nat
  {
    if moved && x == c then 1 else 0
  }

  /** A move of card c from zone `from` to zone `to`, with every other zone
      untouched, changes the copies of any card held by a list of distinct
      zones only by c leaving (if `from` is listed) and arriving (if `to` is
      listed). */
  lemma {:induction false} MovePreservesCopies(
    z: Zones, z': Zones, from: Zone, to: Zone, c: Card, ks: seq<Zone>, x: Card)
    requires from in z && to in z && from != to && z'.Keys == z.Keys
    requires multiset(z'[from]) + multiset{c} == multiset(z[from])
    requires multiset(z'[to]) == multiset(z[to]) + multiset{c}
    requires forall y :: y in z && y != from && y != to ==> z'[y] == z[y]
    requires Distinct(ks)
    ensures Copies(z', ks, x) + MovedIf(c, x, from in ks) == Copies(z, ks, x) + MovedIf(c, x, to in ks)
  {
    if ks != [] {
      DistinctTail(ks);
      MovePreservesCopies(z, z', from, to, c, ks[1..], x);
      var k := ks[0];
      if k == from {
        assert (multiset(z'[from]) + multiset{c})[x] == multiset(z[from])[x];
      } else if k == to {
        assert multiset(z'[to])[x] == (multiset(z[to]) + multiset{c})[x];
      } else if k in z {
        assert z'[k] == z[k];
      }
    }
  }

  /** The single owner of every zone's cards, and of the game's history as
      lines of text. */
  class DominionGameState {
    var zones: Zones
    var history: seq<string>

    constructor (initial: Zones, initialHistory: seq<string>)
      ensures zones == initial && history == initialHistory
    {
      zones := initial;
      history := initialHistory;
    }

    /** Moves card from zone `from` to zone `to`: its first occurrence leaves
        `from`, the rest of `from` keeps its order, and the card is inserted
        somewhere in `to`. No other zone changes, nor does the history. */
    method MoveCard(card: Card, from: Zone, to: Zone)
      requires from in zones && to in zones && from != to
      requires card in zones[from]
      modifies this
      ensures zones.Keys == old(zones).Keys
      ensures zones[from] == RemoveAt(old(zones)[from], IndexOf(old(zones)[from], card))
      ensures Inserted(zones[to], old(zones)[to], card)
      ensures forall z :: z in old(zones) && z != from && z != to ==> zones[z] == old(zones)[z]
      ensures history == old(history)
    {
      var source, target := zones[from], zones[to];
      // Some position must be chosen; the contract does not say which.
      var placed := InsertAt(target, 0, card);
      zones := zones[from := RemoveAt(source, IndexOf(source, card))][to := placed];
      assert zones[to] == InsertAt(old(zones)[to], 0, card);
    }
  }
}
