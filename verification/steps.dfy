/**
 * The game as a whole: the atomic steps of the players and of the dealer on one shared state,
 * the invariant that ties every player's counter to the tokens on the board, and its
 * preservation by every step and so along every run.
 *
 * A lemma here whose proof is written out in full carries {:induction false}, recursive or
 * not: Dafny's automatic induction would only add solver work to it.
 */
module Steps {
  import opened Options
  import opened Lists
  import opened Board
  import opened BoardFacts
  import opened Players
  import opened Dealing

  // ---------------------------------------------------------------------------------------
  // The invariant
  // ---------------------------------------------------------------------------------------

  /**
   * Player i agrees with the board: its counter is the number of its tokens on the board and
   * at most featureSize, it holds none while a point is pending, and its input queue is within
   * capacity and names slots of the board.
   */
  ghost predicate PlayerOk(g: Game, i: nat)
    requires i < |g.players|
  {
    var p := g.players[i];
    && p.id == i
    && p.numOfTokens == TokenCount(g.table.tokens, i)
    && p.numOfTokens <= g.featureSize
    && (p.inPoint ==> p.numOfTokens == 0)
    && |p.keyPresses| <= g.featureSize
    && forall k :: 0 <= k < |p.keyPresses| ==> p.keyPresses[k] < |g.table.slotToCard|
  }

  /**
   * The whole-game invariant: a valid board whose tokens and claims name players of the game,
   * a deck of distinct cards that are not on the board, and every player in step with the board.
   */
  ghost predicate Inv(g: Game)
  {
    && g.featureSize > 0
    && Valid(g.table)
    && OwnersBelow(g.table.tokens, |g.players|)
    && (forall k :: 0 <= k < |g.table.notifications| ==> g.table.notifications[k] < |g.players|)
    && DeckOff(g.table, g.deck)
    && forall i :: 0 <= i < |g.players| ==> PlayerOk(g, i)
  }

  // ---------------------------------------------------------------------------------------
  // The start of the game
  // ---------------------------------------------------------------------------------------

  /**
   * The state the constructors leave: an empty board of tableSize slots for deckSize cards,
   * the deck 0, 1, ..., deckSize - 1, fresh players with ids 0, 1, ..., and checkSet raised.
   */
  function Start(featureSize: nat, tableSize: nat, deckSize: nat, humans: seq<bool>): (g: Game)
    ensures |g.table.slotToCard| == tableSize && |g.table.cardToSlot| == deckSize
    ensures |g.players| == |humans| && g.checkSet && g.featureSize == featureSize
    ensures |g.deck| == deckSize && forall c :: 0 <= c < deckSize ==> g.deck[c] == c
    ensures |g.table.tokens| == tableSize && forall s :: 0 <= s < tableSize ==> g.table.slotToCard[s] == None && g.table.tokens[s] == []
    ensures forall c :: 0 <= c < deckSize ==> g.table.cardToSlot[c] == None
    ensures g.table.notifications == []
    ensures forall i :: 0 <= i < |humans| ==> g.players[i] == NewPlayer(i, humans[i])
  {
    var table := Table(seq(tableSize, _ => None), seq(deckSize, _ => None), seq(tableSize, _ => []), []);
    var players := seq(|humans|, i requires 0 <= i < |humans| => NewPlayer(i, humans[i]));
    Game(featureSize, table, players, seq(deckSize, c requires 0 <= c => c as nat), true)
  }

  /** The game starts in the invariant. */
  lemma StartInv(featureSize: nat, tableSize: nat, deckSize: nat, humans: seq<bool>)
    requires featureSize > 0
    ensures Inv(Start(featureSize, tableSize, deckSize, humans))
  {
    var g := Start(featureSize, tableSize, deckSize, humans);
    forall i | 0 <= i < |g.players|
      ensures PlayerOk(g, i)
    {
      NoTokensNoCount(g.table.tokens, i);
    }
  }

  // ---------------------------------------------------------------------------------------
  // The steps
  // ---------------------------------------------------------------------------------------

  /**
   * One atomic step of a thread: a key of player i (from the keyboard or from its AI), one
   * iteration of player i's loop (taking a queued key, or serving a pending freeze), or one
   * action of the dealer (a wake on the claim queue, a refill in the given shuffled order, or
   * the end-of-round clear).
   */
  datatype Step =
    | HumanKey(player: nat, slot: nat)
    | AiKey(player: nat, slot: nat)
    | PlayerTurn(player: nat)
    | PlayerThaw(player: nat)
    | DealerWake(testSet: seq<int> -> bool)
    | DealerRefill(order: seq<nat>)
    | DealerClear

  /**
   * When a step can happen: keys and player loops belong to existing players, keys name slots
   * of the board, and a refill order is a shuffle of the deck.
   */
  predicate Enabled(g: Game, s: Step)
  {
    match s
    case HumanKey(i, slot) => i < |g.players| && slot < |g.table.slotToCard|
    case AiKey(i, slot) => i < |g.players| && slot < |g.table.slotToCard|
    case PlayerTurn(i) => i < |g.players|
    case PlayerThaw(i) => i < |g.players|
    case DealerWake(_) => true
    case DealerRefill(order) => multiset(order) == multiset(g.deck)
    case DealerClear => true
  }

  /** keyPressed (human) or keyPressedAi (computer) of player i on slot. */
  function Key(g: Game, i: nat, slot: nat, human: bool): Game
    requires i < |g.players|
  {
    var p := g.players[i];
    var p' := if human then KeyPressed(p, slot, g.featureSize) else KeyPressedAi(p, slot, g.featureSize, g.checkSet);
    g.(players := g.players[i := p'])
  }

  /** One iteration of player i's loop that takes a queued key. */
  function Turn(g: Game, i: nat): Game
    requires Inv(g) && i < |g.players|
  {
    assert PlayerOk(g, i);
    var (t, p) := ProcessKey(g.table, g.players[i], g.featureSize);
    g.(table := t, players := g.players[i := p])
  }

  /** One iteration of player i's loop that serves a pending point or penalty. */
  function Thaw(g: Game, i: nat): Game
    requires i < |g.players|
  {
    g.(players := g.players[i := Unfreeze(g.players[i])])
  }

  /** The state after step s. */
  function Next(g: Game, s: Step): (r: Game)
    requires Inv(g) && Enabled(g, s)
    ensures |r.players| == |g.players| && r.featureSize == g.featureSize
  {
    match s
    case HumanKey(i, slot) => Key(g, i, slot, true)
    case AiKey(i, slot) => Key(g, i, slot, false)
    case PlayerTurn(i) => Turn(g, i)
    case PlayerThaw(i) => Thaw(g, i)
    case DealerWake(testSet) => Wake(g, testSet).0
    case DealerRefill(order) => PlaceCardsOnTable(g, order)
    case DealerClear => RemoveAllCardsFromTable(g)
  }

  // ---------------------------------------------------------------------------------------
  // Preservation, step by step
  // ---------------------------------------------------------------------------------------

  /** Queueing a key changes only that player's queue, and keeps it within capacity. */
  lemma {:induction false} KeyKeepsInv(g: Game, i: nat, slot: nat, human: bool)
    requires Inv(g) && i < |g.players| && slot < |g.table.slotToCard|
    ensures Inv(Key(g, i, slot, human))
  {
    var r := Key(g, i, slot, human);
    forall j | 0 <= j < |r.players|
      ensures PlayerOk(r, j)
    {
      assert PlayerOk(g, j);
    }
  }

  /** A sequence that differs from another at one index only is that other one updated there. */
  lemma OneSlotChanged(tokens: seq<seq<nat>>, tokens': seq<seq<nat>>, slot: nat)
    requires slot < |tokens| == |tokens'|
    requires forall s :: 0 <= s < |tokens| && s != slot ==> tokens'[s] == tokens[s]
    ensures tokens' == tokens[slot := tokens'[slot]]
  {
  }

  /**
   * A key press keeps the presser's counter equal to its tokens on the board, and leaves every
   * other player's tokens where they were.
   */
  lemma {:induction false} PressKeepsCount(t: Table, p: Player, slot: nat, featureSize: nat)
    requires Valid(t) && slot < |t.slotToCard|
    requires p.numOfTokens == TokenCount(t.tokens, p.id)
    ensures var (t', p') := DoKeyPress(t, p, slot, featureSize);
      && p'.numOfTokens == TokenCount(t'.tokens, p'.id)
      && forall q :: q != p.id ==> SlotsOf(t'.tokens, q) == SlotsOf(t.tokens, q)
  {
    var (t', p') := DoKeyPress(t, p, slot, featureSize);
    OneSlotChanged(t.tokens, t'.tokens, slot);
    TokenCountUpdate(t.tokens, slot, t'.tokens[slot], p.id);
    forall q | q != p.id
      ensures SlotsOf(t'.tokens, q) == SlotsOf(t.tokens, q)
    {
      TokenCountFrame(t.tokens, t'.tokens, q);
    }
  }

  /** The tokens after a key press still belong to players of the game. */
  lemma {:induction false} PressKeepsOwners(t: Table, p: Player, slot: nat, featureSize: nat, n: nat)
    requires Valid(t) && slot < |t.slotToCard|
    requires OwnersBelow(t.tokens, n) && p.id < n
    ensures OwnersBelow(DoKeyPress(t, p, slot, featureSize).0.tokens, n)
  {
    var t' := DoKeyPress(t, p, slot, featureSize).0;
    forall s, k | 0 <= s < |t'.tokens| && 0 <= k < |t'.tokens[s]|
      ensures t'.tokens[s][k] < n
    {
      var q := t'.tokens[s][k];
      if s == slot && q != p.id {
        assert q in t'.tokens[s];
        var m :| 0 <= m < |t.tokens[s]| && t.tokens[s][m] == q;
      }
    }
  }

  /** A player whose record and tokens did not change stays in step with the board. */
  lemma PlayerOkFrame(g: Game, g': Game, j: nat)
    requires j < |g.players| && j < |g'.players| && PlayerOk(g, j)
    requires g'.players[j] == g.players[j] && g'.featureSize == g.featureSize
    requires SlotsOf(g'.table.tokens, j) == SlotsOf(g.table.tokens, j)
    requires |g'.table.slotToCard| == |g.table.slotToCard|
    ensures PlayerOk(g', j)
  {
  }

  /** The player taking a queued key stays in step with the board. */
  lemma {:induction false} PresserOk(g: Game, i: nat)
    requires Valid(g.table) && i < |g.players| && PlayerOk(g, i)
    requires |g.players[i].keyPresses| > 0 && !Frozen(g.players[i])
    ensures var p := g.players[i];
      var (t', p') := DoKeyPress(g.table, p.(keyPresses := p.keyPresses[1..]), p.keyPresses[0], g.featureSize);
      PlayerOk(g.(table := t', players := g.players[i := p']), i)
  {
    var p := g.players[i];
    PressKeepsCount(g.table, p.(keyPresses := p.keyPresses[1..]), p.keyPresses[0], g.featureSize);
  }

  /** After a key press every player, the presser included, stays in step with the board. */
  lemma {:induction false} PressPlayersOk(g: Game, i: nat)
    requires Inv(g) && i < |g.players| && PlayerOk(g, i)
    requires |g.players[i].keyPresses| > 0 && !Frozen(g.players[i])
    ensures forall j :: 0 <= j < |g.players| ==> PlayerOk(Turn(g, i), j)
  {
    var p := g.players[i];
    var p0 := p.(keyPresses := p.keyPresses[1..]);
    var (t', p') := DoKeyPress(g.table, p0, p.keyPresses[0], g.featureSize);
    var r := g.(table := t', players := g.players[i := p']);
    assert Turn(g, i) == r;
    PressKeepsCount(g.table, p0, p.keyPresses[0], g.featureSize);
    forall j | 0 <= j < |r.players|
      ensures PlayerOk(r, j)
    {
      if j == i {
        PresserOk(g, i);
      } else {
        PlayerOkFrame(g, r, j);
      }
    }
  }

  /** One iteration of a player's loop keeps the invariant. */
  lemma {:induction false} TurnKeepsInv(g: Game, i: nat)
    requires Inv(g) && i < |g.players|
    ensures Inv(Turn(g, i))
  {
    var p := g.players[i];
    assert PlayerOk(g, i);
    if |p.keyPresses| > 0 && !Frozen(p) {
      var slot := p.keyPresses[0];
      var p0 := p.(keyPresses := p.keyPresses[1..]);
      var (t', p') := DoKeyPress(g.table, p0, slot, g.featureSize);
      assert Turn(g, i) == g.(table := t', players := g.players[i := p']);
      PressKeepsOwners(g.table, p0, slot, g.featureSize, |g.players|);
      PressPlayersOk(g, i);
    } else {
      assert g.players[i := p] == g.players;
    }
  }

  /** Serving a pending point or penalty keeps the invariant. */
  lemma {:induction false} ThawKeepsInv(g: Game, i: nat)
    requires Inv(g) && i < |g.players|
    ensures Inv(Thaw(g, i))
  {
    var r := Thaw(g, i);
    forall j | 0 <= j < |r.players|
      ensures PlayerOk(r, j)
    {
      assert PlayerOk(g, j);
    }
  }

  /**
   * Awarding a valid claim keeps the invariant: every counter still matches the board, and the
   * claimant, whose tokens were exactly the claimed cards, holds none while its point is pending.
   */
  lemma {:induction false} ScoredKeepsInv(g: Game, id: nat, testSet: seq<int> -> bool)
    requires Inv(g) && id < |g.players|
    requires TokenCount(g.table.tokens, id) >= g.featureSize
    requires testSet(GetTokens(g.table, id, g.featureSize))
    ensures Inv(CheckPlayerSet(g, id, testSet).0)
  {
    ScoredIsAward(g, id, testSet);
    var t := g.table;
    var cards := ClaimCards(GetTokens(t, id, g.featureSize));
    var r := Award(g, id, cards);
    assert PlayerOk(g, id);
    PrefixWhole(SlotsOf(t.tokens, id), g.featureSize);
    AwardClearsClaimant(g, id, cards);
    AwardKeepsOwners(g, id, cards);
    AwardKeepsDeck(g, id, cards);
    forall q | 0 <= q < |r.players|
      ensures PlayerOk(r, q)
    {
      assert PlayerOk(g, q);
      AwardKeepsCounts(g, id, cards, q);
    }
  }

  /** One wake of the dealer keeps the invariant, whatever the verdict on the claim. */
  lemma {:induction false} WakeKeepsInv(g: Game, testSet: seq<int> -> bool)
    requires Inv(g)
    ensures Inv(Wake(g, testSet).0)
  {
    if |g.table.notifications| > 0 && !g.checkSet {
      var id := g.table.notifications[0];
      var g1 := g.(checkSet := true, table := g.table.(notifications := g.table.notifications[1..]));
      TakeClaimKeepsInv(g);
      CheckKeepsInv(g1, id, testSet);
    }
  }

  /** Taking the oldest claim off the queue (and raising checkSet) keeps the invariant. */
  lemma {:induction false} TakeClaimKeepsInv(g: Game)
    requires Inv(g) && |g.table.notifications| > 0
    ensures Inv(g.(checkSet := true, table := g.table.(notifications := g.table.notifications[1..])))
  {
    var g1 := g.(checkSet := true, table := g.table.(notifications := g.table.notifications[1..]));
    forall j | 0 <= j < |g1.players|
      ensures PlayerOk(g1, j)
    {
      assert PlayerOk(g, j);
    }
  }

  /** Validating a claim keeps the invariant, whatever the verdict. */
  lemma {:induction false} CheckKeepsInv(g: Game, id: nat, testSet: seq<int> -> bool)
    requires Inv(g) && id < |g.players|
    ensures Inv(CheckPlayerSet(g, id, testSet).0)
  {
    var v := CheckPlayerSet(g, id, testSet).1;
    if v == Scored {
      ScoredKeepsInv(g, id, testSet);
    } else if v == Penalised {
      PenaltyKeepsInv(g, id);
    }
  }

  /** Raising a player's penalty flag keeps the invariant. */
  lemma {:induction false} PenaltyKeepsInv(g: Game, id: nat)
    requires Inv(g) && id < |g.players|
    ensures Inv(g.(players := g.players[id := g.players[id].(inPenalty := true)]))
  {
    var r := g.(players := g.players[id := g.players[id].(inPenalty := true)]);
    forall j | 0 <= j < |r.players|
      ensures PlayerOk(r, j)
    {
      assert PlayerOk(g, j);
    }
  }

  /** A refill keeps the invariant: only cards move, from the deck to empty slots. */
  lemma {:induction false} RefillKeepsInv(g: Game, order: seq<nat>)
    requires Inv(g) && multiset(order) == multiset(g.deck)
    ensures Inv(PlaceCardsOnTable(g, order))
  {
    var r := PlaceCardsOnTable(g, order);
    forall j | 0 <= j < |r.players|
      ensures PlayerOk(r, j)
    {
      assert PlayerOk(g, j);
    }
  }

  /** The end-of-round clear keeps the invariant: no tokens, and every counter is zero. */
  lemma {:induction false} ClearKeepsInv(g: Game)
    requires Inv(g)
    ensures Inv(RemoveAllCardsFromTable(g))
  {
    var r := RemoveAllCardsFromTable(g);
    RemoveAllKeepsDeck(g);
    forall j | 0 <= j < |r.players|
      ensures PlayerOk(r, j)
    {
      assert PlayerOk(g, j);
      NoTokensNoCount(r.table.tokens, j);
    }
  }

  /** Every enabled step keeps the invariant. */
  lemma {:induction false} NextKeepsInv(g: Game, s: Step)
    requires Inv(g) && Enabled(g, s)
    ensures Inv(Next(g, s))
  {
    match s
    case HumanKey(i, slot) => KeyKeepsInv(g, i, slot, true);
    case AiKey(i, slot) => KeyKeepsInv(g, i, slot, false);
    case PlayerTurn(i) => TurnKeepsInv(g, i);
    case PlayerThaw(i) => ThawKeepsInv(g, i);
    case DealerWake(testSet) => WakeKeepsInv(g, testSet);
    case DealerRefill(order) => RefillKeepsInv(g, order);
    case DealerClear => ClearKeepsInv(g);
  }

  // ---------------------------------------------------------------------------------------
  // Runs
  // ---------------------------------------------------------------------------------------

  /**
   * The state after an interleaving of steps; a step that is not enabled is skipped. From a
   * state in the invariant, in particular from the start, every run ends in the invariant.
   */
  function Run(g: Game, steps: seq<Step>): (r: Game)
    requires Inv(g)
    ensures Inv(r)
    ensures |r.players| == |g.players| && r.featureSize == g.featureSize
    decreases |steps|
  {
    if |steps| == 0 then g
    else if Enabled(g, steps[0]) then
      NextKeepsInv(g, steps[0]);
      Run(Next(g, steps[0]), steps[1..])
    else
      Run(g, steps[1..])
  }

  /**
   * Along every run from a state in the invariant (in particular from the start), each
   * player's counter equals the number of its tokens on the board and stays within featureSize.
   */
  lemma {:induction false} RunKeepsCounters(g: Game, steps: seq<Step>)
    requires Inv(g)
    ensures var r := Run(g, steps);
      forall i :: 0 <= i < |r.players| ==>
        0 <= r.players[i].numOfTokens == TokenCount(r.table.tokens, i) <= g.featureSize
  {
    var r := Run(g, steps);
    forall i | 0 <= i < |r.players|
      ensures 0 <= r.players[i].numOfTokens == TokenCount(r.table.tokens, i) <= g.featureSize
    {
      assert PlayerOk(r, i);
    }
  }
}
