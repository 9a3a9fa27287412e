/**
 * The Dominion action "player p discards a card of kind t from hand": the
 * action value, its execution against a game state, and its value-object
 * behaviour (equality, hashing, copying).
 */
module DiscardCardAction {
  import opened DominionState

  /** A Java `int`. */
  type Int32 = x: int | -0x8000_0000 <= x < 0x8000_0000

  const Modulus: int := 0x1_0000_0000

  /** The action carries only the card kind and the player index. */
  datatype DiscardCard = DiscardCard(cardType: CardType, player: Int32)

  /** The fatal outcomes of an execution. */
  datatype FatalError =
    | NotInHand(cardType: CardType)   // the AssertionError of the discard action
    | SubListOutOfRange               // an IndexOutOfBoundsException from List.subList

  /** `execute` either returns its boolean or aborts with an exception. */
  datatype ExecResult = Returned(value: bool) | Fatal(error: FatalError)

  /** The zones of player p's hand and discard pile. */
  function HandOf(p: int): Zone { Zone(p, Hand) }
  function DiscardOf(p: int): Zone { Zone(p, Discard) }

  /** z' is z after player p moved the first card of kind t in hand to
      their discard pile: the rest of the hand keeps its order, the card is
      somewhere in the discard pile, and every other zone is as it was. */
  ghost predicate Discarded(z: Zones, z': Zones, p: int, t: CardType)
  {
    var h, d := HandOf(p), DiscardOf(p);
    && h in z && d in z
    && FirstOfType(z[h], t).Some?
    && z'.Keys == z.Keys
    && z'[h] == RemoveAt(z[h], FirstOfType(z[h], t).value)
    && Inserted(z'[d], z[d], z[h][FirstOfType(z[h], t).value])
    && forall y :: y in z && y != h && y != d ==> z'[y] == z[y]
  }

  /** Executes action a against state. If the player's hand holds a card of
      the action's kind, the first such card moves to the discard pile and
      the result is `true`; otherwise execution dumps the last history lines
      and aborts with the not-in-hand error, and nothing moves. The dump is
      the corrected one (FatalCorrected); FatalAsWritten is the dump as the
      source writes it, which fails first on a short history. */
  method Execute(a: DiscardCard, state: DominionGameState) returns (r: ExecResult)
    requires HandOf(a.player) in state.zones && DiscardOf(a.player) in state.zones
    modifies state
    ensures r.Returned? <==> CountType(old(state.zones)[HandOf(a.player)], a.cardType) > 0
    ensures r.Returned? ==> r.value && Discarded(old(state.zones), state.zones, a.player, a.cardType)
    ensures r.Fatal? ==> r.error == FatalCorrected(state.history, a.cardType) == NotInHand(a.cardType)
    ensures r.Fatal? ==> state.zones == old(state.zones)
    ensures state.history == old(state.history)
  {
    var hand := state.zones[HandOf(a.player)];
    var found := FindFirstOfType(hand, a.cardType);
    if found.Some? {
      var card := hand[found.value];
      assert IndexOf(hand, card) == found.value by {
        var i := IndexOf(hand, card);
        forall j | 0 <= j < i ensures hand[j] != card {
          assert hand[j] == hand[..i][j];
        }
      }
      state.MoveCard(card, HandOf(a.player), DiscardOf(a.player));
      return Returned(true);
    } else {
      return Fatal(FatalCorrected(state.history, a.cardType));
    }
  }

  /** One card of kind t leaves the hand and one enters the discard pile;
      the counts of every other kind are unchanged in both. */
  lemma DiscardCounts(z: Zones, z': Zones, p: int, t: CardType)
    requires Discarded(z, z', p, t)
    ensures CountType(z'[HandOf(p)], t) == CountType(z[HandOf(p)], t) - 1
    ensures CountType(z'[DiscardOf(p)], t) == CountType(z[DiscardOf(p)], t) + 1
    ensures forall u :: u != t ==> CountType(z'[HandOf(p)], u) == CountType(z[HandOf(p)], u)
    ensures forall u :: u != t ==> CountType(z'[DiscardOf(p)], u) == CountType(z[DiscardOf(p)], u)
  {
    var hand := z[HandOf(p)];
    var k := FirstOfType(hand, t).value;
    forall u ensures CountType(z'[HandOf(p)], u) + (if t == u then 1 else 0) == CountType(hand, u) {
      RemoveAtCount(hand, k, u);
    }
    InsertedCounts(z'[DiscardOf(p)], z[DiscardOf(p)], hand[k]);
  }

  /** Conservation: the cards of hand and discard pile together are the same
      before and after. */
  lemma DiscardConserves(z: Zones, z': Zones, p: int, t: CardType)
    requires Discarded(z, z', p, t)
    ensures multiset(z'[HandOf(p)]) + multiset(z'[DiscardOf(p)])
         == multiset(z[HandOf(p)]) + multiset(z[DiscardOf(p)])
  {
    var hand := z[HandOf(p)];
    InsertedCounts(z'[DiscardOf(p)], z[DiscardOf(p)], hand[FirstOfType(hand, t).value]);
  }

  /** The card that moves is the first of kind t: every card before it in
      hand is of another kind, every later card (same kind or not) stays in
      hand in its order, and the moved card is now in the discard pile. */
  lemma DiscardTakesFirst(z: Zones, z': Zones, p: int, t: CardType)
    requires Discarded(z, z', p, t)
    ensures var hand, k := z[HandOf(p)], FirstOfType(z[HandOf(p)], t).value;
      && hand[k].cardType == t
      && hand[k] in z'[DiscardOf(p)]
      && (forall j :: 0 <= j < k ==> hand[j].cardType != t && z'[HandOf(p)][j] == hand[j])
      && (forall j :: k < j < |hand| ==> z'[HandOf(p)][j - 1] == hand[j])
  {
    var hand := z[HandOf(p)];
    var k := FirstOfType(hand, t).value;
    InsertedCounts(z'[DiscardOf(p)], z[DiscardOf(p)], hand[k]);
    assert hand[k] in multiset(z'[DiscardOf(p)]);
  }

  /** Conservation across the game: for a list of distinct zones holding
      both the player's hand and discard pile (every zone of the game, say),
      each card has as many copies there after a discard as before. */
  lemma DiscardConservesAllZones(z: Zones, z': Zones, p: int, t: CardType, ks: seq<Zone>)
    requires Discarded(z, z', p, t)
    requires Distinct(ks) && HandOf(p) in ks && DiscardOf(p) in ks
    ensures forall x :: Copies(z', ks, x) == Copies(z, ks, x)
  {
    var c := z[HandOf(p)][FirstOfType(z[HandOf(p)], t).value];
    InsertedCounts(z'[DiscardOf(p)], z[DiscardOf(p)], c);
    forall x ensures Copies(z', ks, x) == Copies(z, ks, x) {
      MovePreservesCopies(z, z', HandOf(p), DiscardOf(p), c, ks, x);
    }
  }

  /** A hand of one Copper and one Estate and an empty discard pile:
      discarding a Copper leaves exactly the Estate in hand and exactly the
      Copper in the discard pile. */
  lemma DiscardExample(z: Zones, z': Zones, copper: Card, estate: Card)
    requires copper.cardType == Copper && estate.cardType == Estate
    requires HandOf(0) in z && z[HandOf(0)] == [copper, estate]
    requires DiscardOf(0) in z && z[DiscardOf(0)] == []
    requires Discarded(z, z', 0, Copper)
    ensures z'[HandOf(0)] == [estate] && z'[DiscardOf(0)] == [copper]
  {
    assert FirstOfType([copper, estate], Copper) == Some(0);
    var k :| 0 <= k <= 0 && z'[DiscardOf(0)] == InsertAt([], k, copper);
  }

  // ---------------------------------------------------------------------
  // Value-object behaviour

  /** What `equals` may be handed: null, a discard action, or an object of
      some other class. */
  datatype JavaObject = Null | Action(action: DiscardCard) | Other(className: string)

  /** `equals`: true exactly for a discard action with the same player and
      the same card kind. */
  function Equals(a: DiscardCard, other: JavaObject): (r: bool)
    ensures r <==> other == Action(a)
  {
    match other
    case Action(dc) => dc.player == a.player && dc.cardType == a.cardType
    case _ => false
  }

  /** The value of x as a Java `int` (two's-complement wrap-around). */
  function Wrap32(x: int): (r: Int32)
    ensures (x - r) % Modulus == 0
  {
    var m := x % Modulus;
    if m >= 0x8000_0000 then m - Modulus else m
  }

  lemma Wrap32Congruent(x: int, y: int)
    requires (x - y) % Modulus == 0
    ensures Wrap32(x) == Wrap32(y)
  {
    var q := (x - y) / Modulus;
    assert x == y + q * Modulus;
    assert x % Modulus == y % Modulus;
  }

  /** Two integers wrap to the same Java int exactly when they agree modulo 2^32. */
  lemma Wrap32Agrees(x: int, y: int)
    ensures Wrap32(x) == Wrap32(y) <==> x % Modulus == y % Modulus
  {
  }

  /** `hashCode` is `Objects.hash(player, type)`: Arrays.hashCode of the two
      fields, i.e. 31 * (31 * 1 + player) + hash(type) in Java int
      arithmetic. The enum constant's own hash is given by typeHash. */
  function HashCode(a: DiscardCard, typeHash: CardType -> Int32): (h: Int32)
    ensures h == Wrap32(31 * 31 + 31 * a.player + typeHash(a.cardType))
  {
    var h1 := Wrap32(31 * 1 + a.player);
    var h2 := Wrap32(31 * h1 + typeHash(a.cardType));
    Wrap32Congruent(31 * h1 + typeHash(a.cardType), 31 * 31 + 31 * a.player + typeHash(a.cardType));
    h2
  }

  /** Hashing agrees with equality. */
  lemma HashAgreesWithEquals(a: DiscardCard, b: DiscardCard, typeHash: CardType -> Int32)
    requires Equals(a, Action(b))
    ensures HashCode(a, typeHash) == HashCode(b, typeHash)
  {
  }

  /** Two discards of the same card kind by different players (of the first
      2^27 player indices) never share a hash. */
  lemma HashSeparatesPlayers(a: DiscardCard, b: DiscardCard, typeHash: CardType -> Int32)
    requires a.cardType == b.cardType && a.player != b.player
    requires 0 <= a.player < 0x800_0000 && 0 <= b.player < 0x800_0000
    ensures HashCode(a, typeHash) != HashCode(b, typeHash)
  {
    var th := typeHash(a.cardType);
    var x, y := 31 * 31 + 31 * a.player + th, 31 * 31 + 31 * b.player + th;
    Wrap32Agrees(x, y);
    assert x - y == 31 * (a.player - b.player);
    ModDiffers(x, y);
  }

  /** Integers closer than 2^32 but distinct differ modulo 2^32. */
  lemma ModDiffers(x: int, y: int)
    requires x != y && -Modulus < x - y < Modulus
    ensures x % Modulus != y % Modulus
  {
  }

  /** `copy` hands back the action itself: the copy is equal to the
      original, keeps both fields and hashes alike. */
  function Copy(a: DiscardCard): (r: DiscardCard)
    ensures Equals(a, Action(r)) && r.player == a.player && r.cardType == a.cardType
    ensures forall typeHash :: HashCode(r, typeHash) == HashCode(a, typeHash)
  {
    a
  }

  // ---------------------------------------------------------------------
  // The description

  /** The name of an enum constant, which is what `%s` prints for it. */
  function CardName(t: CardType): string
  {
    match t
    case Copper => "COPPER"  case Silver => "SILVER"  case Gold => "GOLD"
    case Estate => "ESTATE"  case Duchy => "DUCHY"  case Province => "PROVINCE"
    case Curse => "CURSE"  case Cellar => "CELLAR"  case Chapel => "CHAPEL"
    case Moat => "MOAT"  case Village => "VILLAGE"  case Smithy => "SMITHY"
    case Militia => "MILITIA"  case Market => "MARKET"
  }

  /** The constant a name belongs to, as Enum.valueOf finds it. */
  function CardNamed(name: string): (r: Option<CardType>)
    ensures r.Some? ==> CardName(r.value) == name
  {
    if name == "COPPER" then Some(Copper) else if name == "SILVER" then Some(Silver)
    else if name == "GOLD" then Some(Gold) else if name == "ESTATE" then Some(Estate)
    else if name == "DUCHY" then Some(Duchy) else if name == "PROVINCE" then Some(Province)
    else if name == "CURSE" then Some(Curse) else if name == "CELLAR" then Some(Cellar)
    else if name == "CHAPEL" then Some(Chapel) else if name == "MOAT" then Some(Moat)
    else if name == "VILLAGE" then Some(Village) else if name == "SMITHY" then Some(Smithy)
    else if name == "MILITIA" then Some(Militia) else if name == "MARKET" then Some(Market)
    else None
  }

  lemma CardNameRoundTrip(t: CardType)
    ensures CardNamed(CardName(t)) == Some(t)
  {
    match t
    case Copper => case Silver => case Gold => case Estate => case Duchy =>
    case Province => case Curse => case Cellar => case Chapel => case Moat =>
    case Village => case Smithy => case Militia => case Market =>
  }

  function DigitChar(d: nat): (c: char)
    requires d < 10
    ensures '0' <= c <= '9'
  {
    "0123456789"[d]
  }

  /** The decimal digits of n, without leading zeros. */
  function Digits(n: nat): (s: string)
    ensures |s| > 0 && forall i :: 0 <= i < |s| ==> '0' <= s[i] <= '9'
  {
    if n < 10 then [DigitChar(n)] else Digits(n / 10) + [DigitChar(n % 10)]
  }

  /** What `%d` prints for a Java int. */
  function Decimal(x: int): (s: string)
    ensures |s| > 0 && forall i :: 0 <= i < |s| ==> s[i] != ' '
  {
    if x < 0 then "-" + Digits(-x) else Digits(x)
  }

  /** Reading a string of digits back as a number. */
  function ParseDigits(s: string): int
  {
    if s == [] then 0 else 10 * ParseDigits(s[..|s| - 1]) + (s[|s| - 1] as int - '0' as int)
  }

  function ParseDecimal(s: string): int
  {
    if s != [] && s[0] == '-' then -ParseDigits(s[1..]) else ParseDigits(s)
  }

  lemma {:induction false} DigitsRoundTrip(n: nat)
    ensures ParseDigits(Digits(n)) == n
    decreases n
  {
    if n >= 10 {
      DigitsRoundTrip(n / 10);
      var s := Digits(n);
      assert s[..|s| - 1] == Digits(n / 10);
      assert "0123456789"[n % 10] as int - '0' as int == n % 10;
    } else {
      assert "0123456789"[n] as int - '0' as int == n;
    }
  }

  /** Decimal rendering loses nothing: parsing it gives the number back. */
  lemma DecimalRoundTrip(x: int)
    ensures ParseDecimal(Decimal(x)) == x
  {
    var s := Decimal(x);
    if x < 0 {
      var d := Digits(-x);
      DigitsRoundTrip(-x);
      assert s == "-" + d && s[0] == '-' && s[1..] == d;
    } else {
      var d := Digits(x);
      DigitsRoundTrip(x);
      assert s == d && '0' <= s[0] <= '9';
    }
  }

  /** The position of the first space in s, or |s| when there is none. */
  function SpaceIndex(s: string): (k: nat)
    ensures k <= |s|
  {
    if s == [] || s[0] == ' ' then 0 else 1 + SpaceIndex(s[1..])
  }

  lemma {:induction false} SpaceIndexAfter(d: string, rest: string)
    requires forall i :: 0 <= i < |d| ==> d[i] != ' '
    requires rest != [] && rest[0] == ' '
    ensures SpaceIndex(d + rest) == |d|
  {
    if d != [] {
      assert (d + rest)[1..] == d[1..] + rest;
      SpaceIndexAfter(d[1..], rest);
    }
  }

  /** `getString`: "Player <p> discards <kind>". */
  function GetString(a: DiscardCard): (s: string)
    ensures "Player " <= s
  {
    "Player " + Decimal(a.player) + " discards " + CardName(a.cardType)
  }

  /** A number and a name joined by " discards " split back apart. */
  lemma SplitDescription(d1: string, n1: string, d2: string, n2: string)
    requires forall i :: 0 <= i < |d1| ==> d1[i] != ' '
    requires forall i :: 0 <= i < |d2| ==> d2[i] != ' '
    requires d1 + (" discards " + n1) == d2 + (" discards " + n2)
    ensures d1 == d2 && n1 == n2
  {
    SpaceIndexAfter(d1, " discards " + n1);
    SpaceIndexAfter(d2, " discards " + n2);
    var s := d1 + (" discards " + n1);
    assert d1 == s[..|d1|] && d2 == s[..|d2|];
    assert n1 == s[|d1| + 10..] && n2 == s[|d2| + 10..];
  }

  /** An action is determined by the rendering of its player and the name
      of its card kind. */
  lemma ActionOfParts(a: DiscardCard, b: DiscardCard)
    requires Decimal(a.player) == Decimal(b.player)
    requires CardName(a.cardType) == CardName(b.cardType)
    ensures a == b
  {
    DecimalRoundTrip(a.player);
    DecimalRoundTrip(b.player);
    CardNameRoundTrip(a.cardType);
    CardNameRoundTrip(b.cardType);
  }

  /** What follows "Player " in a description. */
  lemma DescriptionTail(a: DiscardCard)
    ensures |GetString(a)| >= 7
    ensures GetString(a)[7..] == Decimal(a.player) + (" discards " + CardName(a.cardType))
  {
    var rest := Decimal(a.player) + (" discards " + CardName(a.cardType));
    assert GetString(a) == "Player " + rest;
  }

  /** Though equality does not use it, the description tells actions apart:
      two actions are described alike exactly when they are equal. */
  lemma GetStringInjective(a: DiscardCard, b: DiscardCard)
    ensures GetString(a) == GetString(b) <==> a == b
  {
    if GetString(a) == GetString(b) {
      DescriptionTail(a);
      DescriptionTail(b);
      SplitDescription(Decimal(a.player), CardName(a.cardType), Decimal(b.player), CardName(b.cardType));
      ActionOfParts(a, b);
    }
  }

  // ---------------------------------------------------------------------
  // The diagnostic dump on the fatal path

  /** Java's List.subList(from, to): the slice, or an
      IndexOutOfBoundsException when the bounds are not 0 <= from <= to <= size. */
  function SubList(lines: seq<string>, from: int, to: int): (r: Option<seq<string>>)
    ensures r.Some? <==> 0 <= from <= to <= |lines|
    ensures r.Some? ==> |r.value| == to - from
    ensures r.Some? ==> forall i :: 0 <= i < |r.value| ==> r.value[i] == lines[from + i]
  {
    if 0 <= from <= to <= |lines| then Some(lines[from..to]) else None
  }

  /** The exception the not-in-hand path raises as written: the dump of the
      last ten history lines is taken before the AssertionError is thrown. */
  function FatalAsWritten(history: seq<string>, t: CardType): (e: FatalError)
    ensures e == NotInHand(t) <==> |history| >= 10
  {
    match SubList(history, |history| - 10, |history|)
    case None => SubListOutOfRange
    case Some(_) => NotInHand(t)
  }

  /** With fewer than ten history lines the dump itself throws, so the
      intended AssertionError is never raised. */
  lemma {:induction false} ShortHistoryHidesAssertion(history: seq<string>, t: CardType)
    requires |history| < 10
    ensures FatalAsWritten(history, t) == SubListOutOfRange
  {
    assert SubList(history, |history| - 10, |history|).None?;
  }

  /** The evidently intended dump: the last (at most) ten history lines. */
  function LastLines(history: seq<string>, n: nat): (r: seq<string>)
    ensures |r| == if |history| < n then |history| else n
    ensures forall i :: 0 <= i < |r| ==> r[i] == history[|history| - |r| + i]
  {
    if |history| < n then history else history[|history| - n..]
  }

  /** Where the corrected dump starts: ten lines from the end, or at the
      first line of a shorter history. */
  function DumpStart(history: seq<string>): (from: nat)
    ensures from <= |history| && |history| - from == if |history| < 10 then |history| else 10
  {
    if |history| < 10 then 0 else |history| - 10
  }

  /** The corrected dump is always in bounds and shows exactly the last (at
      most) ten history lines. */
  lemma CorrectedDump(history: seq<string>)
    ensures SubList(history, DumpStart(history), |history|) == Some(LastLines(history, 10))
  {
    var r := LastLines(history, 10);
    if |history| < 10 {
      assert history[0..|history|] == history == r;
    } else {
      assert history[|history| - 10..|history|] == history[|history| - 10..] == r;
    }
  }

  /** The not-in-hand path with the dump's start index clamped at zero, as
      evidently intended: it always ends in the AssertionError, which is the
      outcome Execute models. */
  function FatalCorrected(history: seq<string>, t: CardType): (e: FatalError)
    ensures e == NotInHand(t)
  {
    match SubList(history, DumpStart(history), |history|)
    case None => SubListOutOfRange
    case Some(_) => NotInHand(t)
  }
}
