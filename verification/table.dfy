/**
 * The board of the Set game (Table.java): which card lies in each slot, which slot each card
 * lies in, the players holding a token on each slot, and the queue of claim notifications.
 * Every operation is one atomic step; the per-slot locks of the source are not modelled.
 */
module Board {
  import opened Options
  import opened Lists

  /**
   * slotToCard has tableSize entries and cardToSlot has deckSize entries (None for Java's null).
   * tokens[s] lists the players holding a token on slot s, in placement order.
   * notifications holds the ids of the players that announced a claim, oldest first.
   */
  datatype Table = Table(
    slotToCard: seq<Option<nat>>,
    cardToSlot: seq<Option<nat>>,
    tokens: seq<seq<nat>>,
    notifications: seq<nat>)

  // ---------------------------------------------------------------------------------------
  // Invariants
  // ---------------------------------------------------------------------------------------

  /** There is one token list per slot. */
  ghost predicate Shaped(t: Table)
  {
    |t.tokens| == |t.slotToCard|
  }

  /** The class invariant of the board: slotToCard[x] == y iff cardToSlot[y] == x. */
  ghost predicate Bijection(t: Table)
  {
    && (forall s :: 0 <= s < |t.slotToCard| && t.slotToCard[s].Some? ==>
          t.slotToCard[s].value < |t.cardToSlot| && t.cardToSlot[t.slotToCard[s].value] == Some(s))
    && (forall c :: 0 <= c < |t.cardToSlot| && t.cardToSlot[c].Some? ==>
          t.cardToSlot[c].value < |t.slotToCard| && t.slotToCard[t.cardToSlot[c].value] == Some(c))
  }

  /** Tokens only lie on slots that hold a card. */
  ghost predicate TokensOnCards(t: Table)
  {
    forall s :: 0 <= s < |t.tokens| && t.tokens[s] != [] ==> s < |t.slotToCard| && t.slotToCard[s].Some?
  }

  /** A player holds at most one token on a slot. */
  ghost predicate DistinctTokens(t: Table)
  {
    forall s :: 0 <= s < |t.tokens| ==> NoDuplicates(t.tokens[s])
  }

  ghost predicate Valid(t: Table)
  {
    Shaped(t) && Bijection(t) && TokensOnCards(t) && DistinctTokens(t)
  }

  /** Card c lies in some slot of the board. */
  predicate OnTable(t: Table, c: nat)
  {
    c < |t.cardToSlot| && t.cardToSlot[c].Some? && t.cardToSlot[c].value < |t.slotToCard|
  }

  /** Every one of the given cards lies in some slot of the board. */
  ghost predicate AllOnTable(t: Table, cards: seq<nat>)
  {
    forall k :: 0 <= k < |cards| ==>
      cards[k] < |t.cardToSlot| && t.cardToSlot[cards[k]].Some? && t.cardToSlot[cards[k]].value < |t.slotToCard|
  }

  // ---------------------------------------------------------------------------------------
  // Views of the board used by the contracts
  // ---------------------------------------------------------------------------------------

  function Occupied(t: Table): nat -> bool
  {
    (s: nat) => s < |t.slotToCard| && t.slotToCard[s].Some?
  }

  function Vacant(t: Table): nat -> bool
  {
    (s: nat) => s < |t.slotToCard| && t.slotToCard[s].None?
  }

  /** The occupied slots, ascending. */
  function OccupiedSlots(t: Table): seq<nat>
  {
    Filter(0, |t.slotToCard|, Occupied(t))
  }

  function Holds(tokens: seq<seq<nat>>, p: nat): nat -> bool
  {
    (s: nat) => s < |tokens| && p in tokens[s]
  }

  /** The slots on which player p holds a token, ascending. */
  function SlotsOf(tokens: seq<seq<nat>>, p: nat): seq<nat>
  {
    Filter(0, |tokens|, Holds(tokens, p))
  }

  /** The number of tokens player p has on the board. */
  function TokenCount(tokens: seq<seq<nat>>, p: nat): nat
  {
    |SlotsOf(tokens, p)|
  }

  /** The cards on the board, in ascending slot order. */
  function Dealt(slots: seq<Option<nat>>): (r: seq<nat>)
    ensures forall c :: c in r ==> exists s :: 0 <= s < |slots| && slots[s] == Some(c)
    ensures forall s :: 0 <= s < |slots| && slots[s].Some? ==> slots[s].value in r
  {
    if |slots| == 0 then []
    else
      var rest := Dealt(slots[1..]);
      assert forall s :: 1 <= s < |slots| ==> slots[s] == slots[1..][s - 1];
      (if slots[0].Some? then [slots[0].value] else []) + rest
  }

  /** The cards lying in the given slots; -1 stands for a slot without a card. */
  function CardsAt(t: Table, slots: seq<nat>): (r: seq<int>)
    ensures |r| == |slots|
    ensures forall k :: 0 <= k < |slots| && slots[k] < |t.slotToCard| && t.slotToCard[slots[k]].Some? ==>
      r[k] == t.slotToCard[slots[k]].value
  {
    seq(|slots|, k requires 0 <= k < |slots| =>
      if slots[k] < |t.slotToCard| && t.slotToCard[slots[k]].Some? then t.slotToCard[slots[k]].value as int else -1)
  }

  /** The slots in which the given cards lie. */
  function CardSlots(t: Table, cards: seq<nat>): (r: seq<nat>)
    requires AllOnTable(t, cards)
    ensures |r| == |cards|
    ensures forall k :: 0 <= k < |cards| ==> t.cardToSlot[cards[k]] == Some(r[k])
    ensures forall k :: 0 <= k < |cards| ==> r[k] < |t.slotToCard|
  {
    seq(|cards|, k requires 0 <= k < |cards| => t.cardToSlot[cards[k]].value)
  }

  /** xs cut or padded with -1 to exactly n entries. */
  function Padded(xs: seq<int>, n: nat): (r: seq<int>)
    ensures |r| == n
    ensures forall k :: 0 <= k < n ==> r[k] == if k < |xs| then xs[k] else -1
  {
    if |xs| >= n then xs[..n] else xs + seq(n - |xs|, _ => -1)
  }

  // ---------------------------------------------------------------------------------------
  // Operations of Table.java
  // ---------------------------------------------------------------------------------------

  /** countCards: the number of cards on the board. */
  method CountCards(t: Table) returns (n: nat)
    ensures n == |OccupiedSlots(t)|
    ensures n <= |t.slotToCard|
  {
    n := 0;
    var i := 0;
    while i < |t.slotToCard|
      invariant i <= |t.slotToCard|
      invariant n + |Filter(i, |t.slotToCard|, Occupied(t))| == |OccupiedSlots(t)|
    {
      if t.slotToCard[i].Some? {
        n := n + 1;
      }
      i := i + 1;
    }
  }

  /** isSlotEmpty: on a consistent board a slot is empty iff no card points at it. */
  function IsSlotEmpty(t: Table, slot: nat): (r: bool)
    requires slot < |t.slotToCard|
    ensures Bijection(t) ==> (r <==> forall c :: 0 <= c < |t.cardToSlot| ==> t.cardToSlot[c] != Some(slot))
  {
    assert Bijection(t) && t.slotToCard[slot].Some? ==> t.cardToSlot[t.slotToCard[slot].value] == Some(slot);
    t.slotToCard[slot].None?
  }

  /** placeCard: puts card in slot, setting both directions of the map. */
  function PlaceCard(t: Table, card: nat, slot: nat): (r: Table)
    requires slot < |t.slotToCard| && card < |t.cardToSlot|
    ensures |r.slotToCard| == |t.slotToCard| && |r.cardToSlot| == |t.cardToSlot|
    ensures r.slotToCard[slot] == Some(card) && r.cardToSlot[card] == Some(slot)
    ensures forall s :: 0 <= s < |t.slotToCard| && s != slot ==> r.slotToCard[s] == t.slotToCard[s]
    ensures forall c :: 0 <= c < |t.cardToSlot| && c != card ==> r.cardToSlot[c] == t.cardToSlot[c]
    ensures r.tokens == t.tokens && r.notifications == t.notifications
    ensures Valid(t) && t.slotToCard[slot] == None && t.cardToSlot[card] == None ==> Valid(r)
  {
    t.(cardToSlot := t.cardToSlot[card := Some(slot)], slotToCard := t.slotToCard[slot := Some(card)])
  }

  /**
   * removeCard: takes card (a card id, not a slot) off the board. The source first removes the
   * tokens on its slot one by one until none is left, then clears both directions of the map.
   */
  function RemoveCard(t: Table, card: nat): (r: Table)
    requires Shaped(t) && OnTable(t, card)
    ensures var slot := t.cardToSlot[card].value;
      && |r.slotToCard| == |t.slotToCard| && |r.cardToSlot| == |t.cardToSlot| && |r.tokens| == |t.tokens|
      && r.slotToCard[slot] == None && r.cardToSlot[card] == None && r.tokens[slot] == []
      && (forall s :: 0 <= s < |t.slotToCard| && s != slot ==>
            r.slotToCard[s] == t.slotToCard[s] && r.tokens[s] == t.tokens[s])
      && (forall c :: 0 <= c < |t.cardToSlot| && c != card ==> r.cardToSlot[c] == t.cardToSlot[c])
    ensures r.notifications == t.notifications
    ensures Valid(t) ==> Valid(r)
  {
    var slot := t.cardToSlot[card].value;
    Table(t.slotToCard[slot := None], t.cardToSlot[card := None], t.tokens[slot := []], t.notifications)
  }

  /** Slot s holds one of the given cards. */
  ghost predicate HoldsOneOf(t: Table, s: nat, cards: seq<nat>)
  {
    s < |t.slotToCard| && t.slotToCard[s].Some? && t.slotToCard[s].value in cards
  }

  /** removeCards: removes each of the given cards in turn. */
  function RemoveCards(t: Table, cards: seq<nat>): (r: Table)
    requires Valid(t)
    requires NoDuplicates(cards)
    requires AllOnTable(t, cards)
    ensures Valid(r)
    ensures |r.slotToCard| == |t.slotToCard| && |r.cardToSlot| == |t.cardToSlot| && |r.tokens| == |t.tokens|
    ensures forall s :: 0 <= s < |t.slotToCard| ==>
      if HoldsOneOf(t, s, cards) then r.slotToCard[s] == None && r.tokens[s] == []
      else r.slotToCard[s] == t.slotToCard[s] && r.tokens[s] == t.tokens[s]
    ensures forall c :: 0 <= c < |t.cardToSlot| ==> r.cardToSlot[c] == if c in cards then None else t.cardToSlot[c]
    ensures r.notifications == t.notifications
    decreases |cards|
  {
    if |cards| == 0 then t
    else
      var t1 := RemoveCard(t, cards[0]);
      RemoveCardNarrows(t, cards);
      RemoveCards(t1, cards[1..])
  }

  /** After removing the first card, the remaining cards are exactly what is left to remove. */
  lemma RemoveCardNarrows(t: Table, cards: seq<nat>)
    requires Valid(t) && NoDuplicates(cards) && AllOnTable(t, cards) && |cards| > 0
    ensures var t1 := RemoveCard(t, cards[0]);
      && NoDuplicates(cards[1..]) && AllOnTable(t1, cards[1..])
      && forall s :: 0 <= s < |t.slotToCard| ==>
           (HoldsOneOf(t, s, cards) <==> s == t.cardToSlot[cards[0]].value || HoldsOneOf(t1, s, cards[1..]))
  {
    var t1 := RemoveCard(t, cards[0]);
    var slot0 := t.cardToSlot[cards[0]].value;
    assert forall k :: 1 <= k < |cards| ==> cards[k] != cards[0];
    forall s | 0 <= s < |t.slotToCard|
      ensures HoldsOneOf(t, s, cards) <==> s == slot0 || HoldsOneOf(t1, s, cards[1..])
    {
      if s == slot0 {
        assert t.slotToCard[s] == Some(cards[0]);
      } else if t.slotToCard[s].Some? {
        var c := t.slotToCard[s].value;
        assert t.cardToSlot[c] == Some(s);
        assert c != cards[0];
        assert c in cards <==> c in cards[1..] by {
          if c in cards {
            var k :| 0 <= k < |cards| && cards[k] == c;
            assert cards[1..][k - 1] == c;
          }
        }
      }
    }
  }

  /** placeToken: appends player to the token list of slot. */
  function PlaceToken(t: Table, player: nat, slot: nat): (r: Table)
    requires slot < |t.tokens|
    ensures |r.tokens| == |t.tokens| && r.tokens[slot] == t.tokens[slot] + [player]
    ensures forall s :: 0 <= s < |t.tokens| && s != slot ==> r.tokens[s] == t.tokens[s]
    ensures r.slotToCard == t.slotToCard && r.cardToSlot == t.cardToSlot && r.notifications == t.notifications
    ensures Valid(t) && slot < |t.slotToCard| && t.slotToCard[slot].Some? && player !in t.tokens[slot] ==> Valid(r)
  {
    t.(tokens := t.tokens[slot := t.tokens[slot] + [player]])
  }

  /** removeToken: removes player's token from slot; true iff there was one. */
  function RemoveToken(t: Table, player: nat, slot: nat): (r: (bool, Table))
    requires slot < |t.tokens|
    ensures r.0 <==> player in t.tokens[slot]
    ensures !r.0 ==> r.1 == t
    ensures |r.1.tokens| == |t.tokens|
    ensures forall s :: 0 <= s < |t.tokens| && s != slot ==> r.1.tokens[s] == t.tokens[s]
    ensures forall q :: q != player ==> (q in r.1.tokens[slot] <==> q in t.tokens[slot])
    ensures NoDuplicates(t.tokens[slot]) ==> player !in r.1.tokens[slot]
    ensures r.1.slotToCard == t.slotToCard && r.1.cardToSlot == t.cardToSlot
    ensures r.1.notifications == t.notifications
    ensures Valid(t) ==> Valid(r.1)
  {
    if player in t.tokens[slot] then
      (true, t.(tokens := t.tokens[slot := RemoveFirst(t.tokens[slot], player)]))
    else
      (false, t)
  }

  /** The loop of getTokens from slot i on, with the cards found so far in acc. */
  function CollectTokens(t: Table, player: nat, featureSize: nat, i: nat, acc: seq<int>): (r: seq<int>)
    requires Shaped(t) && TokensOnCards(t)
    requires i <= |t.tokens| && |acc| <= featureSize
    ensures |r| == featureSize
    decreases |t.tokens| - i
  {
    if i < |t.tokens| && |acc| < featureSize then
      if player in t.tokens[i] then
        CollectTokens(t, player, featureSize, i + 1, acc + [t.slotToCard[i].value])
      else
        CollectTokens(t, player, featureSize, i + 1, acc)
    else if |acc| < featureSize then
      acc + seq(featureSize - |acc|, _ => -1)
    else
      acc
  }

  /** Prepending a slot to a list of slots prepends its card. */
  lemma CardsAtCons(t: Table, s: nat, slots: seq<nat>)
    requires s < |t.slotToCard| && t.slotToCard[s].Some?
    ensures CardsAt(t, [s] + slots) == [t.slotToCard[s].value] + CardsAt(t, slots)
  {
    var l, r := CardsAt(t, [s] + slots), [t.slotToCard[s].value] + CardsAt(t, slots);
    forall k | 0 <= k < |l|
      ensures l[k] == r[k]
    {
      if k > 0 {
        assert ([s] + slots)[k] == slots[k - 1];
      }
    }
  }

  /** Appending to a list already featureSize long does not change its padded form. */
  lemma PaddedFull(acc: seq<int>, rest: seq<int>, n: nat)
    requires |acc| == n
    ensures Padded(acc + rest, n) == acc
  {
    assert (acc + rest)[..n] == acc;
  }

  /** Whatever the loop has collected, it ends with the padded cards under the player's tokens. */
  lemma {:induction false} CollectTokensFinds(t: Table, player: nat, featureSize: nat, i: nat, acc: seq<int>)
    requires Shaped(t) && TokensOnCards(t)
    requires i <= |t.tokens| && |acc| <= featureSize
    ensures CollectTokens(t, player, featureSize, i, acc)
      == Padded(acc + CardsAt(t, Filter(i, |t.tokens|, Holds(t.tokens, player))), featureSize)
    decreases |t.tokens| - i
  {
    var held := Filter(i, |t.tokens|, Holds(t.tokens, player));
    if |acc| == featureSize {
      PaddedFull(acc, CardsAt(t, held), featureSize);
    } else if i == |t.tokens| {
      assert held == [];
      assert acc + CardsAt(t, held) == acc;
    } else {
      var rest := Filter(i + 1, |t.tokens|, Holds(t.tokens, player));
      CollectTokensFinds(t, player, featureSize, i + 1, acc + (if player in t.tokens[i] then [t.slotToCard[i].value] else []));
      if player in t.tokens[i] {
        assert held == [i] + rest;
        CardsAtCons(t, i, rest);
        AppendAssoc(acc, [t.slotToCard[i].value], CardsAt(t, rest));
      } else {
        assert held == rest;
        assert acc + [] == acc;
      }
    }
  }

  /** The slots a player holds a token on carry cards. */
  lemma MarkedSlotsOccupied(t: Table, p: nat)
    requires Shaped(t) && TokensOnCards(t)
    ensures var m := SlotsOf(t.tokens, p);
      forall k :: 0 <= k < |m| ==> m[k] < |t.slotToCard| && t.slotToCard[m[k]].Some?
  {
    var m := SlotsOf(t.tokens, p);
    forall k | 0 <= k < |m|
      ensures m[k] < |t.slotToCard| && t.slotToCard[m[k]].Some?
    {
      assert Holds(t.tokens, p)(m[k]);
      assert t.tokens[m[k]] != [];
    }
  }

  /** The cards under player p's tokens, in ascending slot order. */
  function MarkedCards(t: Table, p: nat): (r: seq<int>)
    requires Shaped(t) && TokensOnCards(t)
    ensures |r| == TokenCount(t.tokens, p)
    ensures forall k :: 0 <= k < |r| ==> r[k] >= 0
  {
    MarkedSlotsOccupied(t, p);
    CardsAt(t, SlotsOf(t.tokens, p))
  }

  /**
   * getTokens: exactly featureSize entries, the cards under the player's tokens in ascending
   * slot order, padded with -1. The last entry is -1 iff the player has fewer than featureSize
   * tokens, which is how the dealer recognises a stale claim.
   */
  function GetTokens(t: Table, player: nat, featureSize: nat): (r: seq<int>)
    requires Shaped(t) && TokensOnCards(t)
    ensures |r| == featureSize
    ensures forall k :: 0 <= k < featureSize ==>
      r[k] == if k < TokenCount(t.tokens, player) then MarkedCards(t, player)[k] else -1
    ensures featureSize > 0 ==> (r[featureSize - 1] == -1 <==> TokenCount(t.tokens, player) < featureSize)
  {
    var marked := MarkedCards(t, player);
    var r := CollectTokens(t, player, featureSize, 0, []);
    CollectTokensFinds(t, player, featureSize, 0, []);
    assert [] + marked == marked;
    r
  }

  /** removeAllTokens: empties every token list; the cards stay. */
  function RemoveAllTokens(t: Table): (r: Table)
    ensures |r.tokens| == |t.tokens| && forall s :: 0 <= s < |r.tokens| ==> r.tokens[s] == []
    ensures r.slotToCard == t.slotToCard && r.cardToSlot == t.cardToSlot && r.notifications == t.notifications
    ensures Valid(t) ==> Valid(r)
  {
    t.(tokens := seq(|t.tokens|, _ => []))
  }

  /** removeTokens: empties the token lists of the slots holding the given cards. */
  function RemoveTokens(t: Table, cards: seq<nat>): (r: Table)
    requires Shaped(t)
    requires AllOnTable(t, cards)
    ensures |r.tokens| == |t.tokens|
    ensures forall s :: 0 <= s < |t.tokens| ==>
      r.tokens[s] == if s in CardSlots(t, cards) then [] else t.tokens[s]
    ensures r.slotToCard == t.slotToCard && r.cardToSlot == t.cardToSlot && r.notifications == t.notifications
    ensures Valid(t) ==> Valid(r)
    decreases |cards|
  {
    if |cards| == 0 then t
    else
      var slot := t.cardToSlot[cards[0]].value;
      var t1 := t.(tokens := t.tokens[slot := []]);
      var r := RemoveTokens(t1, cards[1..]);
      assert forall k :: 0 <= k < |cards| - 1 ==> CardSlots(t1, cards[1..])[k] == CardSlots(t, cards)[k + 1];
      assert forall s :: s in CardSlots(t, cards) <==> s == slot || s in CardSlots(t1, cards[1..]);
      r
  }

  /** The loop of removeAllCards from slot i on. */
  function RemoveCardsFrom(t: Table, i: nat): (r: Table)
    requires Valid(t) && i <= |t.slotToCard|
    ensures Valid(r)
    ensures |r.slotToCard| == |t.slotToCard| && |r.cardToSlot| == |t.cardToSlot| && |r.tokens| == |t.tokens|
    ensures forall s :: i <= s < |t.slotToCard| ==> r.slotToCard[s] == None && r.tokens[s] == []
    ensures forall s :: 0 <= s < i ==> r.slotToCard[s] == t.slotToCard[s] && r.tokens[s] == t.tokens[s]
    ensures r.notifications == t.notifications
    decreases |t.slotToCard| - i
  {
    if i >= |t.slotToCard| then t
    else if t.slotToCard[i].Some? then RemoveCardsFrom(RemoveCard(t, t.slotToCard[i].value), i + 1)
    else RemoveCardsFrom(t, i + 1)
  }

  /** removeAllCards: removes the card of every occupied slot, lowest slot first. */
  function RemoveAllCards(t: Table): (r: Table)
    requires Valid(t)
    ensures Valid(r)
    ensures |r.slotToCard| == |t.slotToCard| && |r.cardToSlot| == |t.cardToSlot| && |r.tokens| == |t.tokens|
    ensures forall s :: 0 <= s < |r.slotToCard| ==> r.slotToCard[s] == None && r.tokens[s] == []
    ensures forall c :: 0 <= c < |r.cardToSlot| ==> r.cardToSlot[c] == None
    ensures r.notifications == t.notifications
  {
    RemoveCardsFrom(t, 0)
  }

  /** cleanNotifications: drops every pending claim. */
  function CleanNotifications(t: Table): Table
  {
    t.(notifications := [])
  }
}

/** Counting facts about the board: how token counts and dealt cards change under updates. */
module BoardFacts {
  import opened Options
  import opened Lists
  import opened Board

  /** Replacing the token list of one slot changes a player's count only through that slot. */
  lemma TokenCountUpdate(tokens: seq<seq<nat>>, s: nat, l: seq<nat>, p: nat)
    requires s < |tokens|
    ensures TokenCount(tokens[s := l], p) + (if p in tokens[s] then 1 else 0)
         == TokenCount(tokens, p) + (if p in l then 1 else 0)
  {
    FilterOneChange(0, |tokens|, Holds(tokens, p), Holds(tokens[s := l], p), s);
  }

  /** A player's token slots depend only on where that player has tokens. */
  lemma TokenCountFrame(tokens: seq<seq<nat>>, tokens': seq<seq<nat>>, p: nat)
    requires |tokens'| == |tokens|
    requires forall s :: 0 <= s < |tokens| ==> (p in tokens'[s] <==> p in tokens[s])
    ensures SlotsOf(tokens', p) == SlotsOf(tokens, p)
  {
    FilterSame(0, |tokens|, Holds(tokens', p), Holds(tokens, p));
  }

  /** With every token list empty, nobody holds a token. */
  lemma NoTokensNoCount(tokens: seq<seq<nat>>, p: nat)
    requires forall s :: 0 <= s < |tokens| ==> tokens[s] == []
    ensures TokenCount(tokens, p) == 0
  {
    FilterNone(0, |tokens|, Holds(tokens, p));
  }

  /** The number of tokens q has among the given slots, counted once per listed slot. */
  function Held(tokens: seq<seq<nat>>, slots: seq<nat>, q: nat): nat
    requires forall k :: 0 <= k < |slots| ==> slots[k] < |tokens|
    decreases |slots|
  {
    if |slots| == 0 then 0 else multiset(tokens[slots[0]])[q] + Held(tokens, slots[1..], q)
  }

  lemma {:induction false} HeldFrame(tokens: seq<seq<nat>>, tokens': seq<seq<nat>>, slots: seq<nat>, q: nat)
    requires forall k :: 0 <= k < |slots| ==> slots[k] < |tokens| && slots[k] < |tokens'|
    requires forall k :: 0 <= k < |slots| ==> tokens'[slots[k]] == tokens[slots[k]]
    ensures Held(tokens', slots, q) == Held(tokens, slots, q)
    decreases |slots|
  {
    if |slots| > 0 {
      HeldFrame(tokens, tokens', slots[1..], q);
    }
  }

  /** A player holding a token on each of the given distinct slots holds exactly that many there. */
  lemma {:induction false} HeldOwnSlots(tokens: seq<seq<nat>>, slots: seq<nat>, p: nat)
    requires forall k :: 0 <= k < |slots| ==> slots[k] < |tokens| && p in tokens[slots[k]]
    requires forall s :: 0 <= s < |tokens| ==> NoDuplicates(tokens[s])
    ensures Held(tokens, slots, p) == |slots|
    decreases |slots|
  {
    if |slots| > 0 {
      NoDuplicatesCount(tokens[slots[0]], p);
      HeldOwnSlots(tokens, slots[1..], p);
    }
  }

  /**
   * Emptying the token lists of distinct slots lowers each player's count by the number of
   * tokens that player had there.
   */
  lemma {:induction false} ClearSlotsCount(tokens: seq<seq<nat>>, cleared: seq<seq<nat>>, slots: seq<nat>, q: nat)
    requires |cleared| == |tokens|
    requires NoDuplicates(slots)
    requires forall k :: 0 <= k < |slots| ==> slots[k] < |tokens|
    requires forall s :: 0 <= s < |tokens| ==> NoDuplicates(tokens[s])
    requires forall s :: 0 <= s < |tokens| ==> cleared[s] == if s in slots then [] else tokens[s]
    ensures TokenCount(cleared, q) + Held(tokens, slots, q) == TokenCount(tokens, q)
    decreases |slots|
  {
    if |slots| == 0 {
      assert cleared == tokens;
    } else {
      var s0 := slots[0];
      var rest := slots[1..];
      var mid := tokens[s0 := []];
      assert forall k :: 0 <= k < |rest| ==> rest[k] != s0;
      forall s | 0 <= s < |mid|
        ensures cleared[s] == if s in rest then [] else mid[s]
      {
        assert s in slots <==> s == s0 || s in rest;
      }
      ClearSlotsCount(mid, cleared, rest, q);
      HeldFrame(tokens, mid, rest, q);
      TokenCountUpdate(tokens, s0, [], q);
      NoDuplicatesCount(tokens[s0], q);
    }
  }

  /** Putting a card into an empty slot adds exactly that card to the dealt cards. */
  lemma {:induction false} DealtPlace(slots: seq<Option<nat>>, i: nat, c: nat)
    requires i < |slots| && slots[i] == None
    ensures multiset(Dealt(slots[i := Some(c)])) == multiset(Dealt(slots)) + multiset{c}
  {
    if i == 0 {
      assert slots[i := Some(c)][1..] == slots[1..];
    } else {
      assert slots[i := Some(c)][1..] == slots[1..][i - 1 := Some(c)];
      DealtPlace(slots[1..], i - 1, c);
    }
  }

  /** No card lies in two slots. */
  ghost predicate InjectiveSlots(slots: seq<Option<nat>>)
  {
    forall a, b :: 0 <= a < b < |slots| && slots[a].Some? ==> slots[a] != slots[b]
  }

  lemma BijectionInjective(t: Table)
    requires Bijection(t)
    ensures InjectiveSlots(t.slotToCard)
  {
    forall a, b | 0 <= a < b < |t.slotToCard| && t.slotToCard[a].Some?
      ensures t.slotToCard[a] != t.slotToCard[b]
    {
      assert t.cardToSlot[t.slotToCard[a].value] == Some(a);
    }
  }

  /** When no card lies in two slots, the dealt cards are distinct. */
  lemma {:induction false} DealtDistinct(slots: seq<Option<nat>>)
    requires InjectiveSlots(slots)
    ensures NoDuplicates(Dealt(slots))
  {
    if |slots| > 0 {
      var rest := slots[1..];
      assert InjectiveSlots(rest) by {
        forall a, b | 0 <= a < b < |rest| && rest[a].Some?
          ensures rest[a] != rest[b]
        {
          assert rest[a] == slots[a + 1] && rest[b] == slots[b + 1];
        }
      }
      DealtDistinct(rest);
      if slots[0].Some? {
        var c := slots[0].value;
        assert c !in Dealt(rest) by {
          forall s | 0 <= s < |rest|
            ensures rest[s] != Some(c)
          {
            assert rest[s] == slots[s + 1];
          }
        }
        NoDuplicatesAppend([c], Dealt(rest));
      }
    }
  }

  /**
   * A claim that is not stale: the featureSize cards getTokens reports are exactly the cards
   * of the claimant's marked slots, each on the board, and no card is reported twice.
   */
  lemma ClaimCardsOnTable(t: Table, p: nat, featureSize: nat)
    requires Valid(t) && featureSize > 0 && TokenCount(t.tokens, p) >= featureSize
    ensures var claim := GetTokens(t, p, featureSize); var marked := SlotsOf(t.tokens, p);
      && (forall k :: 0 <= k < featureSize ==>
            0 <= claim[k] < |t.cardToSlot| && t.cardToSlot[claim[k]] == Some(marked[k]))
      && (forall k, m :: 0 <= k < m < featureSize ==> claim[k] != claim[m])
  {
    var claim := GetTokens(t, p, featureSize);
    var marked := SlotsOf(t.tokens, p);
    MarkedSlotsOccupied(t, p);
    forall k | 0 <= k < featureSize
      ensures 0 <= claim[k] < |t.cardToSlot| && t.cardToSlot[claim[k]] == Some(marked[k])
    {
      assert claim[k] == MarkedCards(t, p)[k] == t.slotToCard[marked[k]].value;
    }
  }
}
