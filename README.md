# Set card game: board, players and dealer

This project models the core of a multi-threaded implementation of the card
game *Set* (package `bguspl.set.ex`). The core has three parts:

- **The table.** It holds the shared state: the card in each slot, the slot
  of each card, the players' tokens on each slot, and a busy flag.
- **The players.** Each one queues key presses, toggles tokens, and submits
  a full hand as a candidate set. It also applies the dealer's verdict as a
  point or a penalty.
- **The dealer.** It owns the deck. It deals cards onto empty slots, sweeps
  the board back into the deck at the end of a round, keeps the round
  countdown, and announces the winners.

The model has six modules:

- `Options`: an `Option` datatype. The source's `null` slots and cards
  become `None`.
- `Board`: the table's invariants and queries, as functions over the
  contents of its arrays, with the lemmas about them.
  - The invariants are the slot/card bijection, tokens only on occupied
    slots, and at most `featureSize` tokens per player.
  - The functions are the card count, the empty-slot scan, the token count
    and token slots of a player, and the token operations.
- `Tables`: class `Table`. It has three arrays, `slotToCard`, `cardToSlot`
  and `tokens`, plus the `busy` field. Each method is proved against the
  `Board` functions and keeps `Valid()`.
- `Players`: class `Player`.
  - Fields: `score`, `freezeState` and the bounded `actions` queue.
  - `ShouldAllowOffer` holds when the player is not frozen and the table is
    not busy. It gates `KeyPressed`.
  - `ShouldExecuteAction` holds when the queue is non-empty. It is the
    precondition of `ExecuteAction`.
- `Deck`: the initial deck, and the partition invariant: every card id is
  either in the deck, once, or on the board, never both. It also proves
  that cards are conserved.
- `Scoring`: reference definitions for the ranking at the end of the game:
  the maximum score, the number of top scorers, and the ids of the top
  scorers in player order and reversed.
- `Dealers`: class `Dealer`.
  - Its invariant is `Table.Valid()` together with the deck partition.
  - It also holds the countdown and sleep-step functions of the round
    timer.

How the source's effects and non-determinism are modelled:

- The random choices of the dealer (which empty slot, which deck card,
  which slot to sweep) are arbitrary choices (`:|`). Every property is
  proved for every possible choice.
- The current time is a parameter `now`.
- The display, the logger and the artificial delays are not modelled.

Where the intended design of the game and the code differ, the model follows
the code:

- `Table.removeToken` reports success whenever the slot holds a card, even
  if the player had no token there (`Table.RemoveToken`).
- `Table.isLegalSet` checks that every slot has some token, not a token of
  the submitting player (`Table.IsLegalSet`).
- The dealer marks its own `isTableBusy` field but never calls
  `Table.lockTable`. The players read the table's flag (`ShouldAllowOffer`),
  so dealing and sweeping never close their gate. The model keeps the two
  flags apart, as the code does.
- The winners are announced in reverse player order, the order in which the
  array is filled from its end.

## Model

| member | source | states |
|---|---|---|
| Tables.Table.constructor | src/main/java/bguspl/set/ex/Table.java:51-70 | a new table has every slot empty and tokenless and no card placed; the bijection and token invariants hold |
| Tables.Table.CountCards | src/main/java/bguspl/set/ex/Table.java:90-96 | the loop returns the number of occupied slots (`CardCount`) |
| Tables.Table.PlaceCard | src/main/java/bguspl/set/ex/Table.java:105-113 | the card is recorded in its slot and the slot under the card, nothing else changes, and the slot/card bijection is kept |
| Tables.Table.RemoveCard | src/main/java/bguspl/set/ex/Table.java:119-133 | the slot's tokens are cleared, the slot and its card are both forgotten, nothing else changes, and all invariants are kept |
| Tables.Table.PlaceOrRemoveToken | src/main/java/bguspl/set/ex/Table.java:135-141 | the new tokens and the success flag are those of `ToggleToken`: remove if the player's token is there, otherwise place; invariants kept |
| Tables.Table.PlaceToken | src/main/java/bguspl/set/ex/Table.java:148-162 | refused without change on an empty slot or when the player is at the limit; otherwise adds the player to the slot |
| Tables.Table.RemoveToken | src/main/java/bguspl/set/ex/Table.java:170-180 | refused without change on an empty slot; otherwise takes the player off the slot and succeeds |
| Tables.Table.GetCard | src/main/java/bguspl/set/ex/Table.java:186-191 | -1 exactly for an empty slot; otherwise a valid card id whose recorded slot is this one |
| Tables.Table.GetEmptySlots | src/main/java/bguspl/set/ex/Table.java:193-201 | the loop returns the empty-slot scan `EmptySlots` of the board |
| Tables.Table.PlayerHasMaxTokens | src/main/java/bguspl/set/ex/Table.java:210-218 | true iff the player's token count equals `featureSize` |
| Tables.Table.GetPlayerSlots | src/main/java/bguspl/set/ex/Table.java:220-229 | an array of length `featureSize` holding the player's token slots in ascending order, padded with zeros |
| Tables.Table.SlotsToCards | src/main/java/bguspl/set/ex/Table.java:231-237 | one card per given slot, position by position, each a valid card whose recorded slot is that slot |
| Tables.Table.IsLegalSet | src/main/java/bguspl/set/ex/Table.java:240-249 | true iff every given slot carries at least one token, of any player; a legal set's slots all hold cards |
| Tables.Table.LockTable | src/main/java/bguspl/set/ex/Table.java:251-253 | sets the busy flag and nothing else |
| Tables.Table.UnlockTable | src/main/java/bguspl/set/ex/Table.java:255-257 | clears the busy flag and nothing else |
| Board.PlaceTokenSpec | src/main/java/bguspl/set/ex/Table.java:148-162 | placing succeeds iff the slot holds a card and the player is below the limit; success adds exactly that token, failure changes nothing, and the token invariants hold after |
| Board.RemoveTokenSpec | src/main/java/bguspl/set/ex/Table.java:170-180 | removing succeeds iff the slot holds a card; success takes off exactly that token, failure changes nothing, and the invariants hold after |
| Board.ToggleTokenKeepsInvariants | src/main/java/bguspl/set/ex/Table.java:135-141 | a toggle keeps tokens on occupied slots and every player at or below `featureSize` tokens |
| Board.ToggleTwice | src/main/java/bguspl/set/ex/Table.java:135-141 | toggling the same player's token twice on an occupied slot restores the token sets |
| Board.EmptySlotsSpec | src/main/java/bguspl/set/ex/Table.java:193-201 | the empty-slot scan is ascending, lists exactly the empty slots, and together with the card count accounts for every slot |
| Board.PlayerSlotsSpec | src/main/java/bguspl/set/ex/Table.java:220-229 | the token-slot scan is ascending, lists exactly the slots holding the player's token, and has one entry per token |
| Board.PlaceCardKeepsBijection | src/main/java/bguspl/set/ex/Table.java:105-113 | placing a card into an empty slot keeps "slotToCard[s] == c iff cardToSlot[c] == s" |
| Board.RemoveCardKeepsBijection | src/main/java/bguspl/set/ex/Table.java:119-133 | clearing an occupied slot and its card keeps the bijection |
| Board.ClearCardCount | src/main/java/bguspl/set/ex/Table.java:119-133 | removing a card lowers the number of cards on the table by exactly one |
| Board.FullHandSlots | src/main/java/bguspl/set/ex/Player.java:188-191 | a player at the limit gets exactly `featureSize` slots, with no padding, each holding a token |
| Players.Player.constructor | src/main/java/bguspl/set/ex/Player.java:83-91 | a new player is Free with score 0 and an empty queue of capacity `featureSize` |
| Players.Player.KeyPressed | src/main/java/bguspl/set/ex/Player.java:160-179 | a human player who is not frozen, at a table that is not busy, appends the slot to the queue; any other press leaves the queue unchanged |
| Players.Player.ExecuteAction | src/main/java/bguspl/set/ex/Player.java:184-195 | pops the oldest slot and toggles the token there; submits a candidate set (the player's token slots and its id) iff the player then holds `featureSize` tokens |
| Players.Player.Point | src/main/java/bguspl/set/ex/Player.java:203-215 | the score goes up by one and the player is Free again |
| Players.Player.Penalty | src/main/java/bguspl/set/ex/Player.java:220-231 | the player's tokens go through `RemovePlayerTokens`, whose only promise is the table invariant; the score is unchanged and the player is Free again |
| Tables.Table.RemovePlayerTokens | src/main/java/bguspl/set/ex/Player.java:228 | stand-in for the call `table.removePlayerTokens(id)`: only the token sets may change, and the table invariant is kept |
| Players.Player.AcceptDealerResult | src/main/java/bguspl/set/ex/Player.java:258-266 | Point adds one to the score, Penalty keeps it, no verdict does nothing; the player ends Free, the score never decreases, the table invariant is kept, and only a penalty may change the board's tokens |
| Players.Player.SetFreezeState | src/main/java/bguspl/set/ex/Player.java:237-239 | records the verdict |
| Players.Player.ShouldExecuteAction | src/main/java/bguspl/set/ex/Player.java:241-243 | true iff the action queue is non-empty |
| Players.Player.ShouldAllowOffer | src/main/java/bguspl/set/ex/Player.java:245-248 | true iff the player is Free and the table is not busy |
| Deck.InitialDeckPartition | src/main/java/bguspl/set/ex/Dealer.java:59 | the initial deck 0..deckSize-1 against an empty board puts every card in exactly one place |
| Deck.CardsConserved | src/main/java/bguspl/set/ex/Dealer.java:125-135 | under the partition, deck and board together hold every card id exactly once |
| Deck.ClearedBoard | src/main/java/bguspl/set/ex/Dealer.java:175-183 | once no card is on the board, every slot is empty and tokenless and the deck holds the full card set |
| Dealers.Dealer.constructor | src/main/java/bguspl/set/ex/Dealer.java:55-61 | the deck is 0..deckSize-1 in order, the reshuffle time is Long.MAX_VALUE, the table is not busy, and the partition holds |
| Dealers.Dealer.PlaceCardsOnTable | src/main/java/bguspl/set/ex/Dealer.java:125-135 | ends with a full board or an empty deck, never displaces a card already dealt, conserves deck + board cards, only takes cards from the deck, keeps the partition, clears the busy flag |
| Dealers.Dealer.RemoveAllCardsFromTable | src/main/java/bguspl/set/ex/Dealer.java:175-183 | corrected sweep: every slot ends empty and tokenless, and the deck holds exactly the old deck plus the old board, i.e. all card ids |
| Dealers.Dealer.RemoveAllCardsFromTableAsWritten | src/main/java/bguspl/set/ex/Dealer.java:175-183 | the loop as written: a full board returns no card and leaves deck, both maps, the tokens and the invariants unchanged; a board with an empty slot ends with -1 appended to the deck and the failing removal; the busy flag stays set in both cases |
| Dealers.Dealer.UpdateTimerDisplay | src/main/java/bguspl/set/ex/Dealer.java:158-170 | a reset sets the reshuffle time to now + turn timeout; the display receives `CountdownShown` |
| Dealers.CountdownShownSpec | src/main/java/bguspl/set/ex/Dealer.java:162-169 | the countdown is shown iff time remains; it shows exactly the time remaining and warns iff that is below the warning window |
| Dealers.ResetShowsFullTurn | src/main/java/bguspl/set/ex/Dealer.java:159-168 | with the clock read once (see Left out), right after a reset the display shows the whole turn, warning only if the turn is shorter than the warning window |
| Dealers.WarningMeansFineSleep | src/main/java/bguspl/set/ex/Dealer.java:143-148 | whenever the countdown warns, the dealer sleeps in the 9 ms step |
| Dealers.SleepStep | src/main/java/bguspl/set/ex/Dealer.java:143-148 | the sleep is 950 ms while more than the warning window remains before the reshuffle time, and 9 ms otherwise |
| Dealers.FineSleepPersists | src/main/java/bguspl/set/ex/Dealer.java:143-148 | once the dealer has switched to the 9 ms step, it stays there as time advances |
| Dealers.Dealer.MaxScore | src/main/java/bguspl/set/ex/Dealer.java:210-218 | the loop returns `MaxOf` of the players' scores (0 when no one scored) |
| Scoring.MaxOfSpec | src/main/java/bguspl/set/ex/Dealer.java:210-218 | `MaxOf` is non-negative, bounds every score, and is 0 or the score of some player |
| Dealers.Dealer.NumOfWinners | src/main/java/bguspl/set/ex/Dealer.java:219-227 | the loop returns the number of players whose score equals the argument |
| Scoring.WinnerIdsSpec | src/main/java/bguspl/set/ex/Dealer.java:219-227 | the top-scorer list has exactly one entry per player with that score, and holds exactly their ids |
| Dealers.Dealer.AnnounceWinners | src/main/java/bguspl/set/ex/Dealer.java:188-200 | the announced array is the ids of the players holding the maximum score, in reverse player order |
| Scoring.AnnouncedIdsReversed | src/main/java/bguspl/set/ex/Dealer.java:192-198 | filling the array backwards yields the top-scorer list reversed |
| Scoring.AnnouncedWinnersSpec | src/main/java/bguspl/set/ex/Dealer.java:188-200 | the announced list has one entry per top scorer, each the id of a top scorer, and is non-empty when there is a player and no score is negative |
| Scoring.AtLeastOneWinner | src/main/java/bguspl/set/ex/Dealer.java:188-198 | with at least one player and no negative score, someone holds the maximum, so the winners array is never empty |

## Left out

- Threads, the `run` loops of the dealer and the players, the AI key-press
  generator, `terminate`, `timerLoop` and all wait/notify hand-offs. The
  model covers one call of each operation; it does not cover interleavings.
- The `Thread.sleep` calls. This includes the delay in `placeCard` and
  `removeCard` and the sleep in `sleepUntilWokenOrTimeout`. The sleep
  threshold is modelled by `Dealers.SleepStep` and the lemmas about it.
- `Players.Player.Point` and `Players.Player.Penalty` do not model the timed
  freeze loops or their display refresh. They keep only the effect that
  follows them: the score change and the return to Free.
- Players.Player.Penalty: the call to `table.removePlayerTokens`
  (Player.java:228) is kept as `Tables.Table.RemovePlayerTokens`. That
  method is not part of this model, so its only postcondition is the table
  invariant. It may change every token set, so the model promises nothing
  about the board's tokens after a penalty.
- Calls into code that is not part of this model:
  - `dealer.addSetToCheck` becomes the `Some(CardSet)` result of
    `Players.Player.ExecuteAction`.
  - The `findSets` oracle of `shouldFinish` and `hints` is left out.
  - `CardSet` is a datatype of slots and player id.
- `Table.hints` is left out. It prints hints through the `findSets`
  oracle.
- `Dealer.removeCardsFromTable` is left out because its body is empty.
- `Table.getTableSize`, `Table.isBusy` (Table.java:259-261) and
  `Player.score()` are left out. They are plain reads, and the model uses
  the fields `tableSize`, `busy` and `score` directly.
- The testing constructor `Table(env, slotToCard, cardToSlot)`
  (Table.java:51-60), which takes arrays supplied by the caller, is not
  modelled on its own. `Tables.Table.constructor` models `Table(env)`,
  which passes it fresh all-null arrays.
- The display (`env.ui`) and logger calls are left out.
- Java's `long` arithmetic is left out. The reshuffle time and `now` are
  unbounded integers; no overflow of `now + turnTimeoutMillis` is modelled.
- Dealers.Dealer.UpdateTimerDisplay: the up to three clock reads of
  `updateTimerDisplay` (Dealer.java lines 160, 162 and 168) become one `now`.
  The source shows the turn timeout minus the milliseconds that pass between
  the reads at lines 160 and 168; `Dealers.ResetShowsFullTurn` (exactly
  `turnTimeoutMillis` shown after a reset) holds only under this collapse.
- `Players.Player.KeyPressed` requires room in the queue when the press
  would be queued. The source's `BlockingQueue.put` blocks until there is
  room; the model does not capture that waiting.
- `Dealers.Dealer.constructor` receives the players as a sequence of
  existing objects. The source receives an array that the caller fills
  later.
- `Dealers.Dealer.RemoveAllCardsFromTable` draws only occupied slots. The
  evident intent of a random slot followed by a retry leaves the same final
  state; only the order of returned cards differs, and the contract does
  not fix that order.
- `Dealers.Dealer.MaxScore` states only that it computes `MaxOf`. The
  bounds (non-negative, at least every score, attained) are proved once in
  `Scoring.MaxOfSpec`.
- `Dealers.Dealer.RemoveAllCardsFromTableAsWritten` stops at the first
  empty slot drawn and reports `crashed`. It models the exception raised
  in `Table.removeCard` when it unboxes the missing card. What follows the
  exception is not modelled.
- The `synchronized` blocks and `volatile` fields are left out because
  they only matter under concurrency.

## Findings

| source | as written | input that shows it | evidently intended | confidence | as-written member | corrected member |
|---|---|---|---|---|---|---|
| src/main/java/bguspl/set/ex/Dealer.java:178 | the sweep loops while the board has an EMPTY slot, removing a randomly drawn slot each time | (1) a full board: the loop never runs, so no card returns to the deck; (2) a board with one empty slot: the empty slot stays empty, so eventually it is drawn, `getCard` gives -1, -1 is added to the deck, and `removeCard` throws when unboxing the missing card | loop while cards remain on the board, returning every card to the deck | not executed | Dealers.Dealer.RemoveAllCardsFromTableAsWritten | Dealers.Dealer.RemoveAllCardsFromTable |
