/**
 * The dealer's round logic (Dealer.java): refilling the board from the deck, validating one
 * claim, returning every card to the deck at the end of a round, and announcing the winners.
 * The shuffle, the set-validity test and the set finder are parameters; the timer is an
 * integer parameter.
 *
 * A lemma here whose proof is written out in full carries {:induction false}, recursive or
 * not: Dafny's automatic induction would only add solver work to it.
 */
module Dealing {
  import opened Options
  import opened Lists
  import opened Board
  import opened BoardFacts
  import opened Players

  /**
   * The game state the dealer works on. tableSize is |table.slotToCard| and deckSize is
   * |table.cardToSlot|; player i is players[i]. checkSet is raised while the dealer is busy
   * with a claim or with clearing the board, and lowered by every refill.
   */
  datatype Game = Game(
    featureSize: nat,
    table: Table,
    players: seq<Player>,
    deck: seq<nat>,
    checkSet: bool)

  /** The outcome of validating one claim. */
  datatype Verdict = Stale | Scored | Penalised

  /** The deck holds distinct cards of the game, none of them on the board. */
  ghost predicate DeckOff(t: Table, deck: seq<nat>)
  {
    && NoDuplicates(deck)
    && forall k :: 0 <= k < |deck| ==> deck[k] < |t.cardToSlot| && t.cardToSlot[deck[k]] == None
  }

  /** Every token on the board belongs to one of the n players. */
  ghost predicate OwnersBelow(tokens: seq<seq<nat>>, n: nat)
  {
    forall s, k :: 0 <= s < |tokens| && 0 <= k < |tokens[s]| ==> tokens[s][k] < n
  }

  // ---------------------------------------------------------------------------------------
  // placeCardsOnTable
  // ---------------------------------------------------------------------------------------

  /**
   * The loop of placeCardsOnTable from slot i on: each empty slot takes the head of the deck;
   * the loop stops at the first empty slot it finds with the deck exhausted.
   */
  function Fill(t: Table, deck: seq<nat>, i: nat): (r: (Table, seq<nat>))
    requires i <= |t.slotToCard|
    requires forall k :: 0 <= k < |deck| ==> deck[k] < |t.cardToSlot|
    ensures |r.0.slotToCard| == |t.slotToCard| && |r.0.cardToSlot| == |t.cardToSlot|
    ensures r.0.tokens == t.tokens && r.0.notifications == t.notifications
    ensures forall s :: 0 <= s < |t.slotToCard| && (s < i || t.slotToCard[s].Some?) ==>
      r.0.slotToCard[s] == t.slotToCard[s]
    ensures r.1 == [] || forall s :: i <= s < |t.slotToCard| ==> r.0.slotToCard[s].Some?
    ensures Valid(t) && DeckOff(t, deck) ==> Valid(r.0) && DeckOff(r.0, r.1)
    decreases |t.slotToCard| - i
  {
    if i >= |t.slotToCard| then (t, deck)
    else if IsSlotEmpty(t, i) then
      if |deck| > 0 then
        var t1 := PlaceCard(t, deck[0], i);
        assert DeckOff(t, deck) ==> DeckOff(t1, deck[1..]) by {
          if DeckOff(t, deck) {
            forall k | 0 <= k < |deck| - 1
              ensures deck[1..][k] != deck[0]
            {
              assert deck[1..][k] == deck[k + 1];
            }
          }
        }
        Fill(t1, deck[1..], i + 1)
      else
        (t, deck)
    else
      Fill(t, deck, i + 1)
  }

  /** The number of cards Fill places from slot i on: one per empty slot, while the deck lasts. */
  function Placed(t: Table, deck: seq<nat>, i: nat): nat
  {
    Min(|Filter(i, |t.slotToCard|, Vacant(t))|, |deck|)
  }

  /** Fill takes exactly its placed cards from the front of the deck. */
  lemma {:induction false} FillTakesFront(t: Table, deck: seq<nat>, i: nat)
    requires i <= |t.slotToCard|
    requires forall k :: 0 <= k < |deck| ==> deck[k] < |t.cardToSlot|
    ensures Fill(t, deck, i).1 == deck[Placed(t, deck, i)..]
    decreases |t.slotToCard| - i
  {
    var N := |t.slotToCard|;
    if i < N && t.slotToCard[i].None? && |deck| > 0 {
      var t1 := PlaceCard(t, deck[0], i);
      FillTakesFront(t1, deck[1..], i + 1);
      FilterSame(i + 1, N, Vacant(t), Vacant(t1));
      assert Placed(t, deck, i) == Placed(t1, deck[1..], i + 1) + 1;
      TailDrop(deck, Placed(t, deck, i));
    } else if i < N && t.slotToCard[i].Some? {
      FillTakesFront(t, deck, i + 1);
    }
  }

  /** The k-th empty slot from i on receives the k-th card of the deck. */
  lemma {:induction false} FillPlacesInOrder(t: Table, deck: seq<nat>, i: nat)
    requires i <= |t.slotToCard|
    requires forall k :: 0 <= k < |deck| ==> deck[k] < |t.cardToSlot|
    ensures var e := Filter(i, |t.slotToCard|, Vacant(t));
      forall k :: 0 <= k < Placed(t, deck, i) ==> Fill(t, deck, i).0.slotToCard[e[k]] == Some(deck[k])
    decreases |t.slotToCard| - i
  {
    var N := |t.slotToCard|;
    var e := Filter(i, N, Vacant(t));
    var n := Placed(t, deck, i);
    if i < N && t.slotToCard[i].None? && |deck| > 0 {
      var t1 := PlaceCard(t, deck[0], i);
      var rest := Filter(i + 1, N, Vacant(t));
      var r := Fill(t1, deck[1..], i + 1);
      assert Fill(t, deck, i) == r;
      FillPlacesInOrder(t1, deck[1..], i + 1);
      FilterSame(i + 1, N, Vacant(t), Vacant(t1));
      assert e == [i] + rest;
      assert Placed(t1, deck[1..], i + 1) == n - 1;
      forall k | 0 <= k < n
        ensures r.0.slotToCard[e[k]] == Some(deck[k])
      {
        if k == 0 {
          assert r.0.slotToCard[i] == t1.slotToCard[i];
        } else {
          ConsAt(i, rest, k);
          assert r.0.slotToCard[rest[k - 1]] == Some(deck[1..][k - 1]);
        }
      }
    } else if i < N && t.slotToCard[i].Some? {
      FillPlacesInOrder(t, deck, i + 1);
    }
  }

  /** Every slot outside the first Placed empty slots from i on keeps its content. */
  lemma {:induction false} FillKeepsOthers(t: Table, deck: seq<nat>, i: nat)
    requires i <= |t.slotToCard|
    requires forall k :: 0 <= k < |deck| ==> deck[k] < |t.cardToSlot|
    ensures var e := Filter(i, |t.slotToCard|, Vacant(t));
      forall s :: 0 <= s < |t.slotToCard| && s !in e[..Placed(t, deck, i)] ==>
        Fill(t, deck, i).0.slotToCard[s] == t.slotToCard[s]
    decreases |t.slotToCard| - i
  {
    var N := |t.slotToCard|;
    var e := Filter(i, N, Vacant(t));
    var n := Placed(t, deck, i);
    if i < N && t.slotToCard[i].None? && |deck| > 0 {
      var t1 := PlaceCard(t, deck[0], i);
      var rest := Filter(i + 1, N, Vacant(t));
      var r := Fill(t1, deck[1..], i + 1);
      assert Fill(t, deck, i) == r;
      FillKeepsOthers(t1, deck[1..], i + 1);
      FilterSame(i + 1, N, Vacant(t), Vacant(t1));
      assert e == [i] + rest;
      assert Placed(t1, deck[1..], i + 1) == n - 1;
      forall s | 0 <= s < N && s !in e[..n]
        ensures r.0.slotToCard[s] == t.slotToCard[s]
      {
        PrefixConsMissing(i, rest, n, s);
      }
    } else if i < N && t.slotToCard[i].Some? {
      FillKeepsOthers(t, deck, i + 1);
    }
  }

  /** Fill neither loses nor invents cards: deck and board together hold the same cards. */
  lemma {:induction false} FillConserves(t: Table, deck: seq<nat>, i: nat)
    requires i <= |t.slotToCard|
    requires forall k :: 0 <= k < |deck| ==> deck[k] < |t.cardToSlot|
    ensures var r := Fill(t, deck, i);
      multiset(Dealt(r.0.slotToCard)) + multiset(r.1) == multiset(Dealt(t.slotToCard)) + multiset(deck)
    decreases |t.slotToCard| - i
  {
    var r := Fill(t, deck, i);
    if i < |t.slotToCard| && t.slotToCard[i].None? && |deck| > 0 {
      var t1 := PlaceCard(t, deck[0], i);
      assert r == Fill(t1, deck[1..], i + 1);
      FillConserves(t1, deck[1..], i + 1);
      assert multiset(Dealt(t1.slotToCard)) == multiset(Dealt(t.slotToCard)) + multiset{deck[0]} by {
        assert t1.slotToCard == t.slotToCard[i := Some(deck[0])];
        DealtPlace(t.slotToCard, i, deck[0]);
      }
      MultisetHead(deck);
    } else if i < |t.slotToCard| && t.slotToCard[i].Some? {
      assert r == Fill(t, deck, i + 1);
      FillConserves(t, deck, i + 1);
    } else {
      assert r == (t, deck);
    }
  }

  /**
   * placeCardsOnTable: the deck is shuffled (order is the shuffled deck), the empty slots are
   * refilled, and checkSet is lowered.
   */
  function PlaceCardsOnTable(g: Game, order: seq<nat>): (r: Game)
    requires multiset(order) == multiset(g.deck)
    requires forall k :: 0 <= k < |g.deck| ==> g.deck[k] < |g.table.cardToSlot|
    ensures !r.checkSet
    ensures r.players == g.players && r.featureSize == g.featureSize
    ensures r.table.tokens == g.table.tokens && r.table.notifications == g.table.notifications
    ensures |r.table.slotToCard| == |g.table.slotToCard| && |r.table.cardToSlot| == |g.table.cardToSlot|
    ensures r.deck == [] || forall s :: 0 <= s < |g.table.slotToCard| ==> r.table.slotToCard[s].Some?
    ensures forall s :: 0 <= s < |g.table.slotToCard| && g.table.slotToCard[s].Some? ==>
      r.table.slotToCard[s] == g.table.slotToCard[s]
    ensures multiset(Dealt(r.table.slotToCard)) + multiset(r.deck) == multiset(Dealt(g.table.slotToCard)) + multiset(g.deck)
    ensures Valid(g.table) && DeckOff(g.table, g.deck) ==> Valid(r.table) && DeckOff(r.table, r.deck)
  {
    assert forall k :: 0 <= k < |order| ==> order[k] < |g.table.cardToSlot| by {
      forall k | 0 <= k < |order|
        ensures order[k] < |g.table.cardToSlot|
      {
        assert order[k] in multiset(g.deck);
      }
    }
    assert DeckOff(g.table, g.deck) ==> DeckOff(g.table, order) by {
      if DeckOff(g.table, g.deck) {
        PermutationDistinct(g.deck, order);
        forall k | 0 <= k < |order|
          ensures g.table.cardToSlot[order[k]] == None
        {
          assert order[k] in multiset(g.deck);
        }
      }
    }
    var (t, deck) := Fill(g.table, order, 0);
    FillConserves(g.table, order, 0);
    g.(table := t, deck := deck, checkSet := false)
  }

  /**
   * placeCardsOnTable deals in shuffled order: the k-th empty slot, in ascending slot order,
   * receives the k-th card of the shuffled deck, as many as both allow, and the deck keeps the
   * remaining cards in shuffled order.
   */
  lemma PlaceCardsInOrder(g: Game, order: seq<nat>)
    requires multiset(order) == multiset(g.deck)
    requires forall k :: 0 <= k < |g.deck| ==> g.deck[k] < |g.table.cardToSlot|
    ensures var r := PlaceCardsOnTable(g, order);
      var e := Filter(0, |g.table.slotToCard|, Vacant(g.table)); var n := Min(|e|, |order|);
      && r.deck == order[n..]
      && (forall k :: 0 <= k < n ==> r.table.slotToCard[e[k]] == Some(order[k]))
  {
    forall k | 0 <= k < |order|
      ensures order[k] < |g.table.cardToSlot|
    {
      assert order[k] in multiset(g.deck);
    }
    FillTakesFront(g.table, order, 0);
    FillPlacesInOrder(g.table, order, 0);
  }

  // ---------------------------------------------------------------------------------------
  // checkPlayerSet
  // ---------------------------------------------------------------------------------------

  /** reduceTokens once for every listed owner, in list order. */
  function ReduceAt(players: seq<Player>, owners: seq<nat>): (r: seq<Player>)
    requires forall k :: 0 <= k < |owners| ==> owners[k] < |players|
    ensures |r| == |players|
    ensures forall q :: 0 <= q < |players| ==>
      r[q] == players[q].(numOfTokens := players[q].numOfTokens - multiset(owners)[q])
    decreases |owners|
  {
    if |owners| == 0 then players
    else
      assert owners == [owners[0]] + owners[1..];
      ReduceAt(players[owners[0] := ReduceTokens(players[owners[0]])], owners[1..])
  }

  /**
   * The nested loop of checkPlayerSet: for each claimed slot, every player holding a token
   * there loses one from its counter.
   */
  function ReduceForSlots(players: seq<Player>, tokens: seq<seq<nat>>, slots: seq<nat>): (r: seq<Player>)
    requires forall k :: 0 <= k < |slots| ==> slots[k] < |tokens|
    requires OwnersBelow(tokens, |players|)
    ensures |r| == |players|
    ensures forall q :: 0 <= q < |players| ==>
      r[q] == players[q].(numOfTokens := players[q].numOfTokens - Held(tokens, slots, q))
    decreases |slots|
  {
    if |slots| == 0 then players
    else ReduceForSlots(ReduceAt(players, tokens[slots[0]]), tokens, slots[1..])
  }

  /** The claimed cards as card ids; a claim that is not stale holds no -1. */
  function ClaimCards(claim: seq<int>): (r: seq<nat>)
    requires forall k :: 0 <= k < |claim| ==> claim[k] >= 0
    ensures |r| == |claim| && forall k :: 0 <= k < |claim| ==> r[k] == claim[k]
  {
    seq(|claim|, k requires 0 <= k < |claim| => claim[k] as nat)
  }

  /** The slots of a player's first featureSize tokens, which a claim reports. */
  function ClaimSlots(t: Table, id: nat, featureSize: nat): (r: seq<nat>)
    requires featureSize <= TokenCount(t.tokens, id)
    ensures |r| == featureSize
    ensures forall k :: 0 <= k < featureSize ==> r[k] < |t.tokens| && id in t.tokens[r[k]]
    ensures forall k, m :: 0 <= k < m < featureSize ==> r[k] < r[m]
  {
    SlotsOf(t.tokens, id)[..featureSize]
  }

  /** Distinct non-negative claim entries give distinct card ids. */
  lemma {:induction false} DistinctClaimCards(claim: seq<int>)
    requires forall k :: 0 <= k < |claim| ==> claim[k] >= 0
    requires forall k, m :: 0 <= k < m < |claim| ==> claim[k] != claim[m]
    ensures NoDuplicates(ClaimCards(claim))
  {
  }

  /** Claim entries that are cards lying in the given slots are on the board, in those slots. */
  lemma {:induction false} ClaimCardsPlaced(t: Table, claim: seq<int>, marked: seq<nat>)
    requires |claim| <= |marked|
    requires forall k :: 0 <= k < |claim| ==>
      0 <= claim[k] < |t.cardToSlot| && t.cardToSlot[claim[k]] == Some(marked[k]) && marked[k] < |t.slotToCard|
    ensures AllOnTable(t, ClaimCards(claim))
    ensures CardSlots(t, ClaimCards(claim)) == marked[..|claim|]
  {
  }

  /**
   * A claim that is not stale names distinct cards that are all on the board, lying exactly
   * in the claimant's first featureSize marked slots.
   */
  lemma {:induction false} ClaimFacts(t: Table, id: nat, featureSize: nat)
    requires Valid(t) && featureSize > 0 && TokenCount(t.tokens, id) >= featureSize
    ensures var claim := GetTokens(t, id, featureSize);
      && (forall k :: 0 <= k < |claim| ==> claim[k] >= 0)
      && NoDuplicates(ClaimCards(claim)) && AllOnTable(t, ClaimCards(claim))
      && CardSlots(t, ClaimCards(claim)) == ClaimSlots(t, id, featureSize)
      && forall k :: 0 <= k < featureSize ==> t.slotToCard[ClaimSlots(t, id, featureSize)[k]] == Some(ClaimCards(claim)[k])
  {
    ClaimCardsOnTable(t, id, featureSize);
    var claim := GetTokens(t, id, featureSize);
    DistinctClaimCards(claim);
    ClaimCardsPlaced(t, claim, SlotsOf(t.tokens, id));
    var slots := ClaimSlots(t, id, featureSize);
    var cards := ClaimCards(claim);
    forall k | 0 <= k < featureSize
      ensures t.slotToCard[slots[k]] == Some(cards[k])
    {
      assert t.cardToSlot[cards[k]] == Some(slots[k]);
    }
  }

  /** A slot holds one of the given on-board cards iff it is one of those cards' slots. */
  lemma {:induction false} HoldsOneOfSlots(t: Table, cards: seq<nat>)
    requires Valid(t) && AllOnTable(t, cards)
    ensures forall s :: 0 <= s < |t.slotToCard| ==> (HoldsOneOf(t, s, cards) <==> s in CardSlots(t, cards))
  {
    var slots := CardSlots(t, cards);
    forall s | 0 <= s < |t.slotToCard|
      ensures HoldsOneOf(t, s, cards) <==> s in slots
    {
      if HoldsOneOf(t, s, cards) {
        var k :| 0 <= k < |cards| && cards[k] == t.slotToCard[s].value;
        assert slots[k] == s;
      }
      if s in slots {
        var k :| 0 <= k < |slots| && slots[k] == s;
        assert t.slotToCard[s] == Some(cards[k]);
      }
    }
  }

  /**
   * The valid-set branch of checkPlayerSet for the given (distinct, on-board) cards: the
   * claimant's point flag is raised, every player loses one from its counter per token it holds
   * on those cards' slots, and the cards are removed together with the tokens on them.
   */
  function Award(g: Game, id: nat, cards: seq<nat>): (r: Game)
    requires Valid(g.table) && id < |g.players| && NoDuplicates(cards) && AllOnTable(g.table, cards)
    requires OwnersBelow(g.table.tokens, |g.players|)
    ensures r.featureSize == g.featureSize && r.deck == g.deck && r.checkSet == g.checkSet
    ensures Valid(r.table) && r.table.notifications == g.table.notifications
    ensures |r.table.slotToCard| == |g.table.slotToCard| && |r.table.cardToSlot| == |g.table.cardToSlot|
    ensures |r.table.tokens| == |g.table.tokens|
    ensures forall s :: 0 <= s < |g.table.slotToCard| ==>
      if s in CardSlots(g.table, cards) then r.table.slotToCard[s] == None && r.table.tokens[s] == []
      else r.table.slotToCard[s] == g.table.slotToCard[s] && r.table.tokens[s] == g.table.tokens[s]
    ensures forall c :: 0 <= c < |g.table.cardToSlot| ==>
      r.table.cardToSlot[c] == if c in cards then None else g.table.cardToSlot[c]
    ensures |r.players| == |g.players|
    ensures forall q :: 0 <= q < |g.players| ==>
      r.players[q] == g.players[q].(numOfTokens := g.players[q].numOfTokens - Held(g.table.tokens, CardSlots(g.table, cards), q),
                                    inPoint := g.players[q].inPoint || q == id)
  {
    var slots := CardSlots(g.table, cards);
    HoldsOneOfSlots(g.table, cards);
    var players := ReduceForSlots(g.players[id := GivePoint(g.players[id])], g.table.tokens, slots);
    g.(players := players, table := RemoveCards(g.table, cards))
  }

  /** Distinct cards on the board lie in distinct slots. */
  lemma {:induction false} CardSlotsDistinct(t: Table, cards: seq<nat>)
    requires Bijection(t) && NoDuplicates(cards) && AllOnTable(t, cards)
    ensures NoDuplicates(CardSlots(t, cards))
  {
    var slots := CardSlots(t, cards);
    forall k, m | 0 <= k < m < |slots|
      ensures slots[k] != slots[m]
    {
      assert t.slotToCard[slots[k]] == Some(cards[k]);
      assert t.slotToCard[slots[m]] == Some(cards[m]);
    }
  }

  /**
   * Award lowers each player's counter by exactly the tokens the board loses: a counter that
   * matched the player's tokens on the board before still matches after, and never grows.
   */
  lemma {:induction false} AwardKeepsCounts(g: Game, id: nat, cards: seq<nat>, q: nat)
    requires Valid(g.table) && id < |g.players| && NoDuplicates(cards) && AllOnTable(g.table, cards)
    requires OwnersBelow(g.table.tokens, |g.players|)
    requires q < |g.players| && g.players[q].numOfTokens == TokenCount(g.table.tokens, q)
    ensures var r := Award(g, id, cards);
      r.players[q].numOfTokens == TokenCount(r.table.tokens, q) <= TokenCount(g.table.tokens, q)
  {
    var t := g.table;
    var r := Award(g, id, cards);
    CardSlotsDistinct(t, cards);
    ClearSlotsCount(t.tokens, r.table.tokens, CardSlots(t, cards), q);
  }

  /** After Award every token left on the board still belongs to a player of the game. */
  lemma {:induction false} AwardKeepsOwners(g: Game, id: nat, cards: seq<nat>)
    requires Valid(g.table) && id < |g.players| && NoDuplicates(cards) && AllOnTable(g.table, cards)
    requires OwnersBelow(g.table.tokens, |g.players|)
    ensures OwnersBelow(Award(g, id, cards).table.tokens, |g.players|)
  {
    var r := Award(g, id, cards);
    forall s, k | 0 <= s < |r.table.tokens| && 0 <= k < |r.table.tokens[s]|
      ensures r.table.tokens[s][k] < |g.players|
    {
      assert r.table.tokens[s] == g.table.tokens[s];
    }
  }

  /** After Award the deck still holds distinct cards none of which is on the board. */
  lemma {:induction false} AwardKeepsDeck(g: Game, id: nat, cards: seq<nat>)
    requires Valid(g.table) && id < |g.players| && NoDuplicates(cards) && AllOnTable(g.table, cards)
    requires OwnersBelow(g.table.tokens, |g.players|) && DeckOff(g.table, g.deck)
    ensures DeckOff(Award(g, id, cards).table, Award(g, id, cards).deck)
  {
    var r := Award(g, id, cards);
    forall k | 0 <= k < |g.deck|
      ensures r.table.cardToSlot[g.deck[k]] == None
    {
    }
  }

  /** When the cards are exactly those under the claimant's tokens, the claimant keeps none. */
  lemma {:induction false} AwardClearsClaimant(g: Game, id: nat, cards: seq<nat>)
    requires Valid(g.table) && id < |g.players| && NoDuplicates(cards) && AllOnTable(g.table, cards)
    requires OwnersBelow(g.table.tokens, |g.players|)
    requires CardSlots(g.table, cards) == SlotsOf(g.table.tokens, id)
    requires g.players[id].numOfTokens == TokenCount(g.table.tokens, id)
    ensures Award(g, id, cards).players[id].numOfTokens == 0
  {
    HeldOwnSlots(g.table.tokens, SlotsOf(g.table.tokens, id), id);
  }

  /**
   * checkPlayerSet: the claim is the claimant's getTokens. It is stale when its last entry is
   * -1, and then nothing happens. Otherwise a valid set is awarded, and an invalid set only
   * penalises the claimant.
   */
  function CheckPlayerSet(g: Game, id: nat, testSet: seq<int> -> bool): (r: (Game, Verdict))
    requires Valid(g.table) && g.featureSize > 0 && id < |g.players|
    requires OwnersBelow(g.table.tokens, |g.players|)
    ensures r.1 == Stale <==> TokenCount(g.table.tokens, id) < g.featureSize
    ensures r.1 == Stale ==> r.0 == g
    ensures r.1 == Penalised <==>
      TokenCount(g.table.tokens, id) >= g.featureSize && !testSet(GetTokens(g.table, id, g.featureSize))
    ensures r.1 == Penalised ==> r.0 == g.(players := g.players[id := g.players[id].(inPenalty := true)])
    ensures r.1 == Scored ==>
      && r.0.featureSize == g.featureSize && r.0.deck == g.deck && r.0.checkSet == g.checkSet
      && |r.0.players| == |g.players| && r.0.players[id].inPoint && Valid(r.0.table)
      && r.0.table.notifications == g.table.notifications
  {
    var claim := GetTokens(g.table, id, g.featureSize);
    if claim[g.featureSize - 1] == -1 then
      (g, Stale)
    else if testSet(claim) then
      ClaimFacts(g.table, id, g.featureSize);
      (Award(g, id, ClaimCards(claim)), Scored)
    else
      (g.(players := g.players[id := GivePenalty(g.players[id])]), Penalised)
  }

  /**
   * A claim of featureSize tokens that passes the set test is awarded for exactly the cards
   * under the claimant's first featureSize tokens, which are distinct and on the board.
   */
  lemma {:induction false} ScoredIsAward(g: Game, id: nat, testSet: seq<int> -> bool)
    requires Valid(g.table) && g.featureSize > 0 && id < |g.players|
    requires OwnersBelow(g.table.tokens, |g.players|)
    requires TokenCount(g.table.tokens, id) >= g.featureSize && testSet(GetTokens(g.table, id, g.featureSize))
    ensures forall k :: 0 <= k < g.featureSize ==> GetTokens(g.table, id, g.featureSize)[k] >= 0
    ensures var cards := ClaimCards(GetTokens(g.table, id, g.featureSize));
      && NoDuplicates(cards) && AllOnTable(g.table, cards)
      && CardSlots(g.table, cards) == ClaimSlots(g.table, id, g.featureSize)
      && CheckPlayerSet(g, id, testSet) == (Award(g, id, cards), Scored)
  {
    ClaimFacts(g.table, id, g.featureSize);
  }

  // ---------------------------------------------------------------------------------------
  // The claim queue
  // ---------------------------------------------------------------------------------------

  /**
   * One wake of the dealer in sleepUntilWokenOrTimeout: when a claim is queued and the dealer
   * is not already busy (checkSet), it raises checkSet, takes the oldest claim and validates it.
   */
  function Wake(g: Game, testSet: seq<int> -> bool): (r: (Game, Option<Verdict>))
    requires Valid(g.table) && g.featureSize > 0
    requires OwnersBelow(g.table.tokens, |g.players|)
    requires forall k :: 0 <= k < |g.table.notifications| ==> g.table.notifications[k] < |g.players|
    ensures r.1.Some? <==> |g.table.notifications| > 0 && !g.checkSet
    ensures r.1.None? ==> r.0 == g
    ensures |r.0.players| == |g.players| && r.0.featureSize == g.featureSize && r.0.deck == g.deck
    ensures r.1.Some? ==> r.0.checkSet && r.0.table.notifications == g.table.notifications[1..]
    ensures r.1 == Some(Stale) ==>
      r.0 == g.(checkSet := true, table := g.table.(notifications := g.table.notifications[1..]))
    ensures r.1.Some? ==> var id := g.table.notifications[0];
      && (r.1 == Some(Stale) <==> TokenCount(g.table.tokens, id) < g.featureSize)
      && (r.1 == Some(Penalised) ==> r.0.players == g.players[id := g.players[id].(inPenalty := true)])
      && (r.1 == Some(Scored) ==> r.0.players[id].inPoint)
    ensures r.1.Some? ==>
      var g1 := g.(checkSet := true, table := g.table.(notifications := g.table.notifications[1..]));
      (r.0, r.1.value) == CheckPlayerSet(g1, g.table.notifications[0], testSet)
  {
    if |g.table.notifications| > 0 && !g.checkSet then
      var id := g.table.notifications[0];
      var g1 := g.(checkSet := true, table := g.table.(notifications := g.table.notifications[1..]));
      var (g2, v) := CheckPlayerSet(g1, id, testSet);
      (g2, Some(v))
    else
      (g, None)
  }

  // ---------------------------------------------------------------------------------------
  // removeAllCardsFromTable
  // ---------------------------------------------------------------------------------------

  /** A board with no card deals nothing. */
  lemma {:induction false} DealtNone(slots: seq<Option<nat>>)
    requires forall s :: 0 <= s < |slots| ==> slots[s] == None
    ensures Dealt(slots) == []
  {
    if |slots| > 0 {
      DealtNone(slots[1..]);
    }
  }

  /**
   * removeAllCardsFromTable: raises checkSet, drops every pending claim, clears every token and
   * every counter and input queue, and returns the cards to the end of the deck in ascending
   * slot order.
   */
  function RemoveAllCardsFromTable(g: Game): (r: Game)
    requires Valid(g.table)
    ensures r.checkSet && r.featureSize == g.featureSize
    ensures r.deck == g.deck + Dealt(g.table.slotToCard)
    ensures Valid(r.table) && r.table.notifications == []
    ensures |r.table.slotToCard| == |g.table.slotToCard| && |r.table.cardToSlot| == |g.table.cardToSlot|
    ensures forall s :: 0 <= s < |r.table.slotToCard| ==> r.table.slotToCard[s] == None && r.table.tokens[s] == []
    ensures forall c :: 0 <= c < |r.table.cardToSlot| ==> r.table.cardToSlot[c] == None
    ensures |r.players| == |g.players|
    ensures forall q :: 0 <= q < |g.players| ==>
      r.players[q] == g.players[q].(numOfTokens := 0, keyPresses := [])
    ensures multiset(Dealt(r.table.slotToCard)) + multiset(r.deck) == multiset(Dealt(g.table.slotToCard)) + multiset(g.deck)
  {
    var t := RemoveAllCards(RemoveAllTokens(CleanNotifications(g.table)));
    var players := seq(|g.players|, q requires 0 <= q < |g.players| => ResetTokens(g.players[q]));
    DealtNone(t.slotToCard);
    g.(checkSet := true, table := t, players := players, deck := g.deck + Dealt(g.table.slotToCard))
  }

  /** Returning the cards keeps the deck distinct and off the (now empty) board. */
  lemma {:induction false} RemoveAllKeepsDeck(g: Game)
    requires Valid(g.table) && DeckOff(g.table, g.deck)
    ensures DeckOff(RemoveAllCardsFromTable(g).table, RemoveAllCardsFromTable(g).deck)
  {
    var t := g.table;
    var dealt := Dealt(t.slotToCard);
    BijectionInjective(t);
    DealtDistinct(t.slotToCard);
    forall c | c in g.deck
      ensures c !in dealt
    {
      var k :| 0 <= k < |g.deck| && g.deck[k] == c;
      assert t.cardToSlot[c] == None;
    }
    NoDuplicatesAppend(g.deck, dealt);
    forall k | 0 <= k < |dealt|
      ensures dealt[k] < |t.cardToSlot|
    {
      assert dealt[k] in dealt;
    }
  }

  // ---------------------------------------------------------------------------------------
  // Ending the game
  // ---------------------------------------------------------------------------------------

  /**
   * shouldFinish: the game ends on request or once the set finder finds no set among the
   * deck's cards. hasSet stands for findSets(deck, 1) being non-empty.
   */
  function ShouldFinish(terminate: bool, deck: seq<nat>, hasSet: seq<nat> -> bool): (r: bool)
    ensures terminate ==> r
    ensures !terminate ==> (r <==> !hasSet(deck))
  {
    terminate || !hasSet(deck)
  }

  /**
   * The dealer asks shouldFinish only with an empty board (before the first round and after
   * removeAllCardsFromTable), so the deck it consults then holds every card still in play.
   */
  lemma {:induction false} FinishSeesEveryCard(g: Game)
    requires Valid(g.table)
    ensures var r := RemoveAllCardsFromTable(g);
      && Dealt(r.table.slotToCard) == []
      && multiset(r.deck) == multiset(g.deck) + multiset(Dealt(g.table.slotToCard))
  {
    var r := RemoveAllCardsFromTable(g);
    DealtNone(r.table.slotToCard);
  }

  /** The highest score, starting from 0 as the dealer's first loop does. */
  function TopScore(scores: seq<nat>): (r: nat)
    ensures forall k :: 0 <= k < |scores| ==> scores[k] <= r
    ensures |scores| > 0 ==> r in scores
    decreases |scores|
  {
    if |scores| == 0 then 0
    else
      var m := TopScore(scores[..|scores| - 1]);
      assert forall k :: 0 <= k < |scores| - 1 ==> scores[k] == scores[..|scores| - 1][k];
      if scores[|scores| - 1] > m then scores[|scores| - 1] else m
  }

  /** The players below i holding score max, the last of them first. */
  function TopBelow(scores: seq<nat>, max: nat, i: nat): seq<nat>
    requires i <= |scores|
  {
    if i == 0 then []
    else (if scores[i - 1] == max then [i - 1] else []) + TopBelow(scores, max, i - 1)
  }

  /**
   * TopBelow lists exactly the players below i with score max, each once, in strictly
   * decreasing order.
   */
  lemma {:induction false} TopBelowExact(scores: seq<nat>, max: nat, i: nat)
    requires i <= |scores|
    ensures var w := TopBelow(scores, max, i);
      && (forall k :: 0 <= k < |w| ==> w[k] < i && scores[w[k]] == max)
      && (forall j :: 0 <= j < i && scores[j] == max ==> j in w)
      && (forall k, m :: 0 <= k < m < |w| ==> w[k] > w[m])
  {
    if i > 0 {
      TopBelowExact(scores, max, i - 1);
      var rest := TopBelow(scores, max, i - 1);
      var w := TopBelow(scores, max, i);
      if scores[i - 1] == max {
        assert w == [i - 1] + rest;
        forall k | 0 < k < |w|
          ensures w[k] == rest[k - 1]
        {
        }
      } else {
        assert w == rest;
      }
    }
  }

  /** The number of players below j with score max never exceeds the number below a larger i. */
  lemma {:induction false} TopBelowGrows(scores: seq<nat>, max: nat, j: nat, i: nat)
    requires j <= i <= |scores|
    ensures |TopBelow(scores, max, j)| <= |TopBelow(scores, max, i)|
    decreases i - j
  {
    if j < i {
      TopBelowGrows(scores, max, j, i - 1);
    }
  }

  /** The players holding the top score, highest index first: the list announceWinners builds. */
  function Winners(scores: seq<nat>): seq<nat>
  {
    TopBelow(scores, TopScore(scores), |scores|)
  }

  /**
   * The winners are every player with the top score and no one else, each once, highest index
   * first, and there is at least one whenever there are players.
   */
  lemma WinnersAreTop(scores: seq<nat>)
    ensures var w := Winners(scores);
      && (forall k :: 0 <= k < |w| ==> w[k] < |scores| && scores[w[k]] == TopScore(scores))
      && (forall i :: 0 <= i < |scores| && scores[i] == TopScore(scores) ==> i in w)
      && (forall k, m :: 0 <= k < m < |w| ==> w[k] > w[m])
      && (|scores| > 0 ==> |w| > 0)
  {
    TopBelowExact(scores, TopScore(scores), |scores|);
    if |scores| > 0 {
      var i :| 0 <= i < |scores| && scores[i] == TopScore(scores);
      assert i in Winners(scores);
    }
  }

  /** The first loop of announceWinners: the running maximum of the scores, from 0. */
  method MaxScore(scores: seq<nat>) returns (max: nat)
    ensures forall k :: 0 <= k < |scores| ==> scores[k] <= max
    ensures |scores| > 0 ==> max in scores
    ensures max == TopScore(scores)
  {
    max := 0;
    var i := 0;
    while i < |scores|
      invariant i <= |scores|
      invariant max == TopScore(scores[..i])
    {
      assert scores[..i + 1][..i] == scores[..i];
      if scores[i] > max {
        max := scores[i];
      }
      i := i + 1;
    }
    assert scores[..i] == scores;
  }

  /** The second loop of announceWinners: how many players hold score max. */
  method CountTop(scores: seq<nat>, max: nat) returns (count: nat)
    ensures count == |TopBelow(scores, max, |scores|)|
  {
    count := 0;
    var i := 0;
    while i < |scores|
      invariant i <= |scores|
      invariant count == |TopBelow(scores, max, i)|
    {
      if scores[i] == max {
        count := count + 1;
      }
      i := i + 1;
    }
  }

  /**
   * The third loop of announceWinners: walking the players in order, each holder of score max
   * goes to position count - 1 of the result and count goes down; count, the number of them
   * still to come, never runs out.
   */
  method FillWinners(scores: seq<nat>, max: nat, count0: nat) returns (winners: seq<nat>)
    requires count0 == |TopBelow(scores, max, |scores|)|
    ensures winners == TopBelow(scores, max, |scores|)
  {
    var count := count0;
    winners := [];
    var i := 0;
    while i < |scores|
      invariant i <= |scores|
      invariant winners == TopBelow(scores, max, i)
      invariant count + |winners| == count0
    {
      if scores[i] == max {
        TopBelowGrows(scores, max, i + 1, |scores|);
        winners := [i] + winners;
        count := count - 1;
      }
      i := i + 1;
    }
  }

  /** announceWinners: the top score, the number of players holding it, then the winners. */
  method AnnounceWinners(scores: seq<nat>) returns (winners: seq<nat>)
    ensures winners == Winners(scores)
  {
    var max := MaxScore(scores);
    var count := CountTop(scores, max);
    winners := FillWinners(scores, max, count);
  }

  // ---------------------------------------------------------------------------------------
  // The countdown
  // ---------------------------------------------------------------------------------------

  /**
   * updateTimerDisplay: the time left of the turn and whether it is shown as urgent, given the
   * milliseconds elapsed since the countdown was last reset.
   */
  function Countdown(turnTimeout: int, warning: int, elapsed: int): (r: (int, bool))
    ensures r.0 + elapsed == turnTimeout
    ensures r.1 <==> turnTimeout - elapsed <= warning
  {
    var remaining := turnTimeout - elapsed;
    (remaining, !(remaining > warning))
  }

  /** Once the countdown is urgent it stays urgent until it is reset: urgency only grows with time. */
  lemma UrgentStays(turnTimeout: int, warning: int, elapsed: int, later: int)
    requires elapsed <= later && Countdown(turnTimeout, warning, elapsed).1
    ensures Countdown(turnTimeout, warning, later).1
    ensures Countdown(turnTimeout, warning, later).0 <= Countdown(turnTimeout, warning, elapsed).0
  {
  }

  /** The wait of sleepUntilWokenOrTimeout: 100 ms normally, 1 ms once the countdown is urgent. */
  function PollMillis(turnTimeout: int, warning: int, elapsed: int): (r: nat)
    ensures r == 1 || r == 100
    ensures r == 1 <==> Countdown(turnTimeout, warning, elapsed).1
  {
    if turnTimeout - elapsed > warning then 100 else 1
  }
}
