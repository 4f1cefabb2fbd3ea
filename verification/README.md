# The Set game: board, players and dealer as a sequential state machine

This project models the game-state core of a multi-threaded implementation of the card game Set.
The model covers three parts.

- **The board (`Table`).** It holds a two-way map between the slots of the board and the cards lying in them. Each slot has a list of the players holding a token there. There is a queue of claim notifications.
- **The players (`Player`).** Each player keeps a score, a token counter `numOfTokens`, and two freeze flags (`inPoint`, `inPenalty`). Each also has a bounded queue of pending key presses.
- **The dealer (`Dealer`).**
  - It refills the empty slots from a shuffled deck.
  - It validates one claim per wake. A claim is stale, a valid set or an invalid set.
  - It returns every card to the deck at the end of a round.
  - It decides when the game ends and announces the winners.

Every Java method is one atomic step on an immutable state record. Threads, locks and timing are not modelled.

The files are:

- `lists.dfy` (modules `Options` and `Lists`): the optional value used for Java's nullable `Integer`, and sequence helpers. These include `Filter`, the ascending list of indices that pass a test, and `RemoveFirst`, which is `Vector.remove(Object)`.
- `table.dfy` (modules `Board` and `BoardFacts`): the board, its class invariant and the operations of `Table.java`. `BoardFacts` holds the counting lemmas about token lists.
- `player.dfy` (module `Players`): the token state machine of `Player.java`.
- `dealer.dfy` (module `Dealing`): the round logic of `Dealer.java`.
- `steps.dfy` (module `Steps`): the whole game. It defines the initial state, the atomic steps of every thread, and the invariant `Inv`. `Inv` holds when all of the following are true:
  - the board is a bijection;
  - tokens lie only on cards, with at most one token per player per slot;
  - tokens and claims name existing players;
  - the deck holds distinct cards that are not on the board;
  - every player's `numOfTokens` equals the number of slots whose token list contains that player, and is at most `featureSize`.

  `Inv` holds at the start and is preserved by every step (`Steps.NextKeepsInv`), and so along every run (`Steps.Run`).

The model makes these choices:

- **Set test and set finder.** `env.util.testSet` and `env.util.findSets` become function parameters.
- **Shuffle.** `Collections.shuffle` becomes an `order` parameter that is a permutation of the deck.
- **AI key choice.** The key the AI picks with `Math.random` is the `slot` of an `AiKey` step.
- **Timer.** The elapsed time of the countdown is an integer parameter.
- **Error conditions.** Index errors and null unboxing are programming errors in the source. Their absence becomes a `requires`, or is proved from the invariant. For example, `getTokens` reads `slotToCard[i]` only on slots that hold a card.
- **Player ids.** A player's id is its index in the players array. `Steps.Inv` states this.

## Model

| member | source | states |
|---|---|---|
| Board.CountCards | src/main/java/bguspl/set/ex/Table.java:93-99 | the count is the number of occupied slots, hence at most tableSize (loop invariant over the slots still to scan) |
| Board.IsSlotEmpty | src/main/java/bguspl/set/ex/Table.java:209-211 | on a board satisfying the class invariant, a slot is empty iff no card maps to it |
| Board.PlaceCard | src/main/java/bguspl/set/ex/Table.java:108-117 | both directions of the map point at each other afterwards, every other slot and card is unchanged, and the bijection is kept when the slot was empty and the card off the board |
| Board.RemoveCard | src/main/java/bguspl/set/ex/Table.java:123-142 | the card (a card id) and its slot are cleared in both directions, the slot's token list is empty, every other slot and card is untouched, and validity is kept |
| Board.RemoveCards | src/main/java/bguspl/set/ex/Table.java:144-147 | exactly the slots holding one of the given cards become empty with no tokens, exactly those cards map to nothing, and the rest is unchanged |
| Board.PlaceToken | src/main/java/bguspl/set/ex/Table.java:155-162 | the player is appended to that slot's token list only; the card maps, the other slots and the queue are untouched |
| Board.RemoveToken | src/main/java/bguspl/set/ex/Table.java:236-250 | the result is true iff the player had a token on the slot; false changes nothing; true takes the player off that slot only and leaves the other players there |
| Board.CollectTokensFinds | src/main/java/bguspl/set/ex/Table.java:177-191 | from any slot i and any partial result, the loop ends with the partial result followed by the cards under the player's tokens from slot i on, cut or padded with -1 to featureSize |
| Board.GetTokens | src/main/java/bguspl/set/ex/Table.java:173-193 | exactly featureSize entries: the cards under the player's tokens in ascending slot order, then -1; the last entry is -1 iff the player holds fewer than featureSize tokens |
| Board.RemoveAllTokens | src/main/java/bguspl/set/ex/Table.java:195-207 | every token list is empty and the cards are unchanged |
| Board.RemoveTokens | src/main/java/bguspl/set/ex/Table.java:213-226 | the token list of a slot is emptied iff the slot holds one of the given cards; cards are unchanged |
| Board.RemoveCardsFrom | src/main/java/bguspl/set/ex/Table.java:253-259 | the loop of removeAllCards empties every slot from i on, of cards and tokens, and leaves the slots before i alone |
| Board.RemoveAllCards | src/main/java/bguspl/set/ex/Table.java:252-260 | afterwards no slot holds a card or a token and no card maps to a slot; the board stays valid |
| BoardFacts.ClearSlotsCount | src/main/java/bguspl/set/ex/Table.java:213-226 | emptying the token lists of distinct slots lowers a player's token count by exactly the tokens it had on those slots |
| BoardFacts.ClaimCardsOnTable | src/main/java/bguspl/set/ex/Table.java:177-183 | a claim with featureSize tokens reports distinct cards, each lying in the corresponding marked slot |
| Players.KeyPressed | src/main/java/bguspl/set/ex/Player.java:174-188 | a human's key is queued iff the player is not frozen and the queue has room; nothing else changes and the queue never exceeds featureSize |
| Players.KeyPressedAi | src/main/java/bguspl/set/ex/Player.java:195-209 | the AI's key is queued iff the player is not frozen, the dealer is not busy with a claim and the queue has room |
| Players.DoKeyPress | src/main/java/bguspl/set/ex/Player.java:211-251 | an empty slot only drops the queue. An own token is removed and the counter decrements. Otherwise, below the cap, a token is placed and the counter increments, with a notification iff the counter reaches featureSize. At the cap nothing changes. The counter never exceeds featureSize, and the board stays valid |
| Players.PressTwiceRestores | src/main/java/bguspl/set/ex/Player.java:216-245 | two presses on an occupied slot where the player had no token give back the original tokens, cards and player |
| Players.ProcessKey | src/main/java/bguspl/set/ex/Player.java:115-124 | a frozen player or an empty queue changes nothing; otherwise the head of the queue is taken off and that slot is pressed with doKeyPress; score and freeze flags are kept and the counter stays within featureSize |
| Players.Unfreeze | src/main/java/bguspl/set/ex/Player.java:96-106 | a pending point raises the score by exactly one and resets counter and queue, then clears the point flag; a pending penalty changes nothing but its flag; an unfrozen player is unchanged |
| Dealing.Fill | src/main/java/bguspl/set/ex/Dealer.java:123-137 | the refill loop only fills empty slots from slot i on and keeps tokens and claims; it stops with the deck exhausted or with every slot from i on occupied, and keeps the board valid and the deck off the board |
| Dealing.FillTakesFront | src/main/java/bguspl/set/ex/Dealer.java:123-137 | the refill loop takes from the front of the deck exactly one card per empty slot, while the deck lasts |
| Dealing.FillPlacesInOrder | src/main/java/bguspl/set/ex/Dealer.java:123-137 | the k-th empty slot in ascending order receives the k-th card of the deck |
| Dealing.FillKeepsOthers | src/main/java/bguspl/set/ex/Dealer.java:123-137 | every slot that is not one of the filled empty slots keeps its content |
| Dealing.FillConserves | src/main/java/bguspl/set/ex/Dealer.java:123-137 | the multiset of cards on the board plus the deck is the same before and after the loop |
| Dealing.PlaceCardsOnTable | src/main/java/bguspl/set/ex/Dealer.java:121-139 | checkSet is lowered. Afterwards either every slot holds a card or the deck is empty. Occupied slots keep their cards, board-plus-deck cards are conserved, and the board stays valid with the deck off the board |
| Dealing.PlaceCardsInOrder | src/main/java/bguspl/set/ex/Dealer.java:122-131 | the empty slots, in ascending order, receive the head of the shuffled deck, and the deck keeps the rest in shuffled order |
| Dealing.CheckPlayerSet | src/main/java/bguspl/set/ex/Dealer.java:168-187 | a claim is stale (nothing changes) iff the claimant holds fewer than featureSize tokens; an invalid set only raises the claimant's penalty flag; a valid set raises its point flag and keeps the board valid |
| Dealing.ReduceAt | src/main/java/bguspl/set/ex/Dealer.java:177-180 | the inner loop over one slot's token list lowers each player's counter by the number of times it is listed there, once per token, and changes nothing else |
| Dealing.ReduceForSlots | src/main/java/bguspl/set/ex/Dealer.java:174-181 | the nested reduceTokens loop lowers each player's counter by exactly the number of its tokens on the listed slots, and changes nothing else |
| Dealing.ClaimFacts | src/main/java/bguspl/set/ex/Dealer.java:169-176 | a claim of featureSize tokens names distinct cards, all on the board, lying exactly in the claimant's first featureSize marked slots, so cardToSlot[set[i]] is defined |
| Dealing.ScoredIsAward | src/main/java/bguspl/set/ex/Dealer.java:172-183 | a valid claim is awarded for exactly the distinct on-board cards under the claimant's first featureSize tokens |
| Dealing.Award | src/main/java/bguspl/set/ex/Dealer.java:173-182 | the claimant's point flag is raised, each player's counter drops by the number of its tokens on the claimed cards' slots, and exactly those cards and their tokens leave the board |
| Dealing.AwardKeepsCounts | src/main/java/bguspl/set/ex/Dealer.java:174-182 | a counter that matched the player's tokens on the board before the award still matches after it |
| Dealing.AwardClearsClaimant | src/main/java/bguspl/set/ex/Dealer.java:174-182 | when the claimed cards are exactly those under the claimant's tokens, the claimant's counter drops to zero |
| Dealing.Wake | src/main/java/bguspl/set/ex/Dealer.java:154-162 | a wake validates a claim iff the queue is non-empty and checkSet is low; it then takes only the oldest claim and raises checkSet, and the new state and verdict are exactly those of checkPlayerSet for that oldest claimant (so its board, counter and score outcomes carry over): stale iff it holds fewer than featureSize tokens, penalised with only its penalty flag raised, or scored with its point flag raised; otherwise nothing changes |
| Dealing.RemoveAllCardsFromTable | src/main/java/bguspl/set/ex/Dealer.java:213-229 | the board's cards are appended to the deck in ascending slot order, the board and every token list end empty, every counter and queue is reset, claims are dropped, checkSet is raised, and cards are conserved |
| Dealing.RemoveAllKeepsDeck | src/main/java/bguspl/set/ex/Dealer.java:221-227 | after the clear, the deck still holds distinct cards, none of them on the board |
| Dealing.FinishSeesEveryCard | src/main/java/bguspl/set/ex/Dealer.java:67-71 | when shouldFinish is asked after a round, the board is empty and the deck holds every card that was in play |
| Dealing.TopScore | src/main/java/bguspl/set/ex/Dealer.java:235-241 | the maximum is at least every score and is one of them when there are players |
| Dealing.TopBelowExact | src/main/java/bguspl/set/ex/Dealer.java:249-255 | the players below i recorded by the third loop are exactly those with score max, each once, in decreasing order |
| Dealing.WinnersAreTop | src/main/java/bguspl/set/ex/Dealer.java:242-255 | the winners are every player holding the top score and nobody else, each once, highest index first, and there is one whenever there are players |
| Dealing.MaxScore | src/main/java/bguspl/set/ex/Dealer.java:235-241 | the first loop computes the top score: at least every score and one of them |
| Dealing.CountTop | src/main/java/bguspl/set/ex/Dealer.java:242-248 | the second loop counts exactly the players holding score max |
| Dealing.FillWinners | src/main/java/bguspl/set/ex/Dealer.java:248-255 | the third loop writes each holder of max at position count - 1 and never runs count below zero, producing the holders highest index first |
| Dealing.AnnounceWinners | src/main/java/bguspl/set/ex/Dealer.java:234-256 | the array announced is the list of winners characterised by WinnersAreTop |
| Dealing.UrgentStays | src/main/java/bguspl/set/ex/Dealer.java:198-203 | once the countdown display is urgent it stays urgent as time passes, and the time shown never goes up, until the countdown is reset |
| Dealing.PollMillis | src/main/java/bguspl/set/ex/Dealer.java:149-153 | the dealer waits 100 ms, or 1 ms exactly when the countdown is urgent |
| Steps.Start | src/main/java/bguspl/set/ex/Dealer.java:46-54 | the initial state has tableSize empty slots without tokens, no card on the board, no pending claim, the deck 0, 1, ..., deckSize - 1 in order, a fresh player with id i for each entry i, and checkSet raised |
| Steps.StartInv | src/main/java/bguspl/set/ex/Table.java:57-73 | the state the constructors leave (empty board, deck 0 to deckSize - 1, fresh players) satisfies the game invariant |
| Steps.KeyKeepsInv | src/main/java/bguspl/set/ex/Player.java:174-209 | queueing a key keeps the game invariant; in particular the queue stays within featureSize |
| Steps.TurnKeepsInv | src/main/java/bguspl/set/ex/Player.java:211-251 | a key press keeps every counter equal to its player's tokens on the board and at most featureSize |
| Steps.ThawKeepsInv | src/main/java/bguspl/set/ex/Player.java:258-274 | serving a point or a penalty keeps the game invariant |
| Steps.CheckKeepsInv | src/main/java/bguspl/set/ex/Dealer.java:168-187 | validating a claim, with any outcome, keeps the game invariant |
| Steps.ScoredKeepsInv | src/main/java/bguspl/set/ex/Dealer.java:172-183 | the award of a valid set keeps every counter in step with the board, because each reduceTokens pairs with a removed token |
| Steps.WakeKeepsInv | src/main/java/bguspl/set/ex/Dealer.java:154-162 | a wake of the dealer keeps the game invariant |
| Steps.RefillKeepsInv | src/main/java/bguspl/set/ex/Dealer.java:121-139 | a refill keeps the game invariant |
| Steps.ClearKeepsInv | src/main/java/bguspl/set/ex/Dealer.java:213-229 | the end-of-round clear keeps the game invariant, because removeAllTokens pairs with resetTokens |
| Steps.NextKeepsInv | src/main/java/bguspl/set/ex/Dealer.java:60-88 | every enabled atomic step of any thread keeps the game invariant |
| Steps.Next | src/main/java/bguspl/set/ex/Dealer.java:80-88 | no step of any thread adds or removes players or changes featureSize |
| Steps.Run | src/main/java/bguspl/set/ex/Dealer.java:60-75 | any sequence of steps from a state satisfying the game invariant ends in a state satisfying it |
| Steps.RunKeepsCounters | src/main/java/bguspl/set/ex/Player.java:218-227 | after any sequence of steps from an invariant state, every player's numOfTokens lies in [0, featureSize] and equals the number of slots holding its token |

## Left out

- Threads and their signalling are not modelled: `synchronized`, wait/notify, `interrupt`, the volatile flags, thread start and join, the AI thread's loop (Player.java:134-151), and `terminate` with its reverse-order shutdown (Dealer.java:93-99). Each method is one atomic step, and any interleaving of steps is a `Steps.Run`.
- Wall-clock time is not modelled: `System.currentTimeMillis`, `Thread.sleep`, the `tableDelayMillis` delays and the freeze loop `waitFor`. The countdown is kept only as the integer functions `Countdown`, `PollMillis` and the lemma `UrgentStays`. The loop guard of `timerLoop` is not modelled.
- The countdown reset after every valid claim (`updateTimerDisplay(true)`, Dealer.java:183) is not modelled. It restarts the round whenever a player scores, so a round lasts turnTimeoutMillis from the last valid claim; with no clock in the model, round length is not stated.
- Dealing.Countdown: has no row of its own. It is the bare subtraction and comparison of updateTimerDisplay (Dealer.java:198-203); what it means for the game is stated by `UrgentStays` and `PollMillis`.
- `Collections.shuffle` and `Math.random` (`randomKeyPress`) are inputs: the refill's `order` and the AI key's `slot`.
- The set test and the set finder are parameters. All `env.ui` display calls, logging and `hints()` only display, so they are left out.
- The re-check of `slotToCard[slot] != null` inside `doKeyPress` is not modelled (Player.java:220 and its else-branch at 236-239). Within one atomic step the slot cannot change between the first check at line 213 and this one.
- `removeCardsFromTable` (Dealer.java:113-115) has an empty body. It is the identity and has no member of its own.
- Java `int` overflow of the score and the counters is not modelled. Scores are unbounded naturals. The counter is an `int` whose range is proved.
- Players.Point: has no contract of its own. `point()` is served only through `Unfreeze`, whose contract states its effect (score + 1, counter and queue reset).
- Players.Penalty: has no contract of its own. `penalty()` only waits, and `Unfreeze` states that a pending penalty changes nothing but its flag.
- Players.GivePoint, Players.GivePenalty, Players.ResetTokens, Players.ReduceTokens: each is one field update, and it is stated through `Award`, `CheckPlayerSet` and `RemoveAllCardsFromTable`.
- Board.CleanNotifications: stated through `RemoveAllCardsFromTable` (`notifications == []`).
- Dealing.AnnounceWinners: `winners` is built by prepending to a sequence rather than by writing into a pre-sized array. `FillWinners` proves that the array index `count - 1` is in range whenever a write happens.
- Dealing.ShouldFinish: has no row of its own. It is the bare test `terminate || findSets(deck, 1) is empty` of Dealer.java:106-108, which consults only the deck; `FinishSeesEveryCard` states what that means: whenever it is asked, the board is empty and the deck holds every card in play.
- Index errors and null unboxing are not modelled as outcomes. They cannot happen on a state satisfying the invariant, so they are `requires` clauses.

## Notes on the source

- On a valid set, `checkPlayerSet` calls `reduceTokens` once for every token on the claimed cards' slots. That includes the claimant's own tokens (Dealer.java:176-180), not only the other players' tokens. The model follows the code, and `Dealing.AwardClearsClaimant` shows that this drops the claimant's counter to zero before `point()` resets it again.
- `removeCard` takes a card id, although its documentation speaks of a slot. The model takes a card id, as the code does.
- `getTokens` reports only the first featureSize marked slots in ascending slot order. A player never holds more than featureSize tokens (`Steps.RunKeepsCounters`), so nothing is dropped.
