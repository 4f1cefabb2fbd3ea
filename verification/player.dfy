/**
 * A player of the Set game (Player.java): its score, its token counter, the two freeze flags
 * the dealer raises, and its bounded queue of pending key presses. The player thread, the AI
 * thread and the freeze timing are not modelled; each method is one atomic step.
 */
module Players {
  import opened Lists
  import opened Board

  /**
   * numOfTokens is a Java int: the dealer may decrement it (reduceTokens), so it is an int here
   * and its staying in [0, featureSize] is proved, not assumed.
   */
  datatype Player = Player(
    id: nat,
    human: bool,
    score: nat,
    numOfTokens: int,
    inPenalty: bool,
    inPoint: bool,
    keyPresses: seq<nat>)

  /** A fresh player, as the constructor leaves it. */
  function NewPlayer(id: nat, human: bool): Player
  {
    Player(id, human, 0, 0, false, false, [])
  }

  /** Frozen players neither accept nor process input. */
  predicate Frozen(p: Player)
  {
    p.inPenalty || p.inPoint
  }

  /**
   * keyPressed: a human player's key press is queued only while not frozen and only while the
   * queue (of capacity featureSize) has room; otherwise it is dropped.
   */
  function KeyPressed(p: Player, slot: nat, featureSize: nat): (r: Player)
    ensures r.(keyPresses := p.keyPresses) == p
    ensures r.keyPresses == p.keyPresses + [slot] || r.keyPresses == p.keyPresses
    ensures r.keyPresses == p.keyPresses + [slot] <==> !Frozen(p) && p.human && |p.keyPresses| < featureSize
    ensures |p.keyPresses| <= featureSize ==> |r.keyPresses| <= featureSize
  {
    if !p.inPenalty && !p.inPoint && p.human && |p.keyPresses| < featureSize then
      p.(keyPresses := p.keyPresses + [slot])
    else
      p
  }

  /**
   * keyPressedAi: the AI's key press is queued only while not frozen, while the dealer is not
   * checking a claim (checkSet), and while the queue has room.
   */
  function KeyPressedAi(p: Player, slot: nat, featureSize: nat, checkSet: bool): (r: Player)
    ensures r.(keyPresses := p.keyPresses) == p
    ensures r.keyPresses == p.keyPresses + [slot] || r.keyPresses == p.keyPresses
    ensures r.keyPresses == p.keyPresses + [slot] <==> !Frozen(p) && !checkSet && |p.keyPresses| < featureSize
    ensures |p.keyPresses| <= featureSize ==> |r.keyPresses| <= featureSize
  {
    if !p.inPenalty && !p.inPoint && !checkSet && |p.keyPresses| < featureSize then
      p.(keyPresses := p.keyPresses + [slot])
    else
      p
  }

  /**
   * doKeyPress: toggles the player's token on slot.
   * - empty slot: nothing on the board changes and the pending key presses are dropped;
   * - own token there: it is removed and the counter goes down by one (always allowed);
   * - no own token and counter below featureSize: a token is placed, the counter goes up, and
   *   when it reaches featureSize the player's id is appended to the claim queue;
   * - no own token at the cap: nothing changes.
   */
  function DoKeyPress(t: Table, p: Player, slot: nat, featureSize: nat): (r: (Table, Player))
    requires Shaped(t) && slot < |t.slotToCard|
    ensures r.0.slotToCard == t.slotToCard && r.0.cardToSlot == t.cardToSlot
    ensures |r.0.tokens| == |t.tokens|
    ensures forall s :: 0 <= s < |t.tokens| && s != slot ==> r.0.tokens[s] == t.tokens[s]
    ensures forall q :: q != p.id ==> (q in r.0.tokens[slot] <==> q in t.tokens[slot])
    ensures r.1.(numOfTokens := p.numOfTokens, keyPresses := p.keyPresses) == p
    ensures t.slotToCard[slot].None? ==> r.0 == t && r.1 == p.(keyPresses := [])
    ensures t.slotToCard[slot].Some? && p.id in t.tokens[slot] ==>
      && r.1 == p.(numOfTokens := p.numOfTokens - 1)
      && r.0.notifications == t.notifications
      && (NoDuplicates(t.tokens[slot]) ==> p.id !in r.0.tokens[slot])
    ensures t.slotToCard[slot].Some? && p.id !in t.tokens[slot] && p.numOfTokens < featureSize ==>
      && r.1 == p.(numOfTokens := p.numOfTokens + 1)
      && r.0.tokens[slot] == t.tokens[slot] + [p.id]
      && r.0.notifications == t.notifications + (if p.numOfTokens + 1 == featureSize then [p.id] else [])
    ensures t.slotToCard[slot].Some? && p.id !in t.tokens[slot] && p.numOfTokens >= featureSize ==> r == (t, p)
    ensures p.numOfTokens <= featureSize ==> r.1.numOfTokens <= featureSize
    ensures Valid(t) ==> Valid(r.0)
  {
    if t.slotToCard[slot].Some? then
      var (removed, t1) := RemoveToken(t, p.id, slot);
      if !removed && p.numOfTokens < featureSize then
        var t2 := PlaceToken(t1, p.id, slot);
        var p2 := p.(numOfTokens := p.numOfTokens + 1);
        if p2.numOfTokens == featureSize then
          (t2.(notifications := t2.notifications + [p.id]), p2)
        else
          (t2, p2)
      else if removed then
        (t1, p.(numOfTokens := p.numOfTokens - 1))
      else
        (t, p)
    else
      (t, p.(keyPresses := []))
  }

  /** Pressing an occupied slot twice, where the player had no token, restores tokens and counter. */
  lemma PressTwiceRestores(t: Table, p: Player, slot: nat, featureSize: nat)
    requires Shaped(t) && slot < |t.slotToCard| && t.slotToCard[slot].Some? && p.id !in t.tokens[slot]
    ensures var (t1, p1) := DoKeyPress(t, p, slot, featureSize);
      var (t2, p2) := DoKeyPress(t1, p1, slot, featureSize);
      t2.tokens == t.tokens && t2.slotToCard == t.slotToCard && t2.cardToSlot == t.cardToSlot && p2 == p
  {
    if p.numOfTokens < featureSize {
      RemoveFirstAppended(t.tokens[slot], p.id);
    }
  }

  /**
   * One iteration of the player's main loop after a wake-up: the head of the queue is taken and
   * pressed, unless the player is frozen or has nothing queued.
   */
  function ProcessKey(t: Table, p: Player, featureSize: nat): (r: (Table, Player))
    requires Shaped(t)
    requires forall k :: 0 <= k < |p.keyPresses| ==> p.keyPresses[k] < |t.slotToCard|
    ensures Frozen(p) || |p.keyPresses| == 0 ==> r == (t, p)
    ensures !Frozen(p) && |p.keyPresses| > 0 ==> r.1.keyPresses == p.keyPresses[1..] || r.1.keyPresses == []
    ensures |r.1.keyPresses| <= |p.keyPresses|
    ensures r.1.score == p.score && r.1.inPoint == p.inPoint && r.1.inPenalty == p.inPenalty
    ensures !Frozen(p) && |p.keyPresses| > 0 ==>
      r == DoKeyPress(t, p.(keyPresses := p.keyPresses[1..]), p.keyPresses[0], featureSize)
    ensures p.numOfTokens <= featureSize ==> r.1.numOfTokens <= featureSize
  {
    if |p.keyPresses| > 0 && !p.inPenalty && !p.inPoint then
      DoKeyPress(t, p.(keyPresses := p.keyPresses[1..]), p.keyPresses[0], featureSize)
    else
      (t, p)
  }

  /** point: the player's score goes up by one; counter and pending key presses are reset. */
  function Point(p: Player): Player
  {
    p.(score := p.score + 1, numOfTokens := 0, keyPresses := [])
  }

  /** penalty: the player only waits out the freeze; nothing else changes. */
  function Penalty(p: Player): Player
  {
    p
  }

  /**
   * The start of the player's main loop: a pending point is served first (point, then the flag
   * is cleared), otherwise a pending penalty.
   */
  function Unfreeze(p: Player): (r: Player)
    ensures p.inPoint ==>
      && r.score == p.score + 1 && r.numOfTokens == 0 && r.keyPresses == []
      && !r.inPoint && r.inPenalty == p.inPenalty && r.id == p.id && r.human == p.human
    ensures !p.inPoint && p.inPenalty ==> r == p.(inPenalty := false)
    ensures !Frozen(p) ==> r == p
    ensures !Frozen(r) || (p.inPoint && p.inPenalty)
  {
    if p.inPoint then Point(p).(inPoint := false)
    else if p.inPenalty then Penalty(p).(inPenalty := false)
    else p
  }

  /** givePoint: the dealer raises the point flag. */
  function GivePoint(p: Player): Player
  {
    p.(inPoint := true)
  }

  /** givePenalty: the dealer raises the penalty flag. */
  function GivePenalty(p: Player): Player
  {
    p.(inPenalty := true)
  }

  /** resetTokens: the counter goes to zero and pending key presses are dropped. */
  function ResetTokens(p: Player): Player
  {
    p.(numOfTokens := 0, keyPresses := [])
  }

  /** reduceTokens: the dealer took away one of the player's tokens. */
  function ReduceTokens(p: Player): Player
  {
    p.(numOfTokens := p.numOfTokens - 1)
  }
}
