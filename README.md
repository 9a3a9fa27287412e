# Discard action and self-play bookkeeping, modelled in Dafny

This project models two small cores of the TabletopGames framework and
proves properties of them.

**The Dominion `DiscardCard` action.** A player discards a card of a given
kind from their hand. The game state is a map from a zone, meaning a deck
kind owned by a player, to an ordered sequence of cards. A class
`DominionGameState` owns that map and moves cards between zones in place.
`Execute` looks for the first card of the action's kind in the player's
hand. If one is there, it moves that card to the player's discard pile and
returns `true`. If none is there, execution aborts and nothing moves. The
action is also a value object, so the model covers `copy`, `equals`,
`hashCode` (with Java's 32-bit arithmetic written out) and `getString`.

**The helpers of the PPO self-play trainer** (`examples/ppo-selfplay.py`):
- `merge_actions` puts the learner's actions and the opponent's actions
  back into one vector, as the environment flags say.
- `insert_at_indices` scatters one value per flagged environment into a
  2-D rollout buffer, in place.
- The in-memory opponent pool of `SelfPlayAssistant` is two parallel
  deques bounded by `window`. `update_pool` appends to them and
  `sample_opponent` draws from them.

Python's exceptions become `Result`/`Outcome` values:
- `IndexError` when an input runs out or an index is out of range;
- `ValueError` from `randint` on an empty range.

Tensors are read as integer sequences, where a flag is truthy when it is
nonzero. The rollout buffer is a Dafny `array2`, because the source writes
into it in place.

Files:
- `dominion_state.dfy`: cards, zones, the state class with `MoveCard`, and
  the counting and conservation lemmas.
- `discard_card.dfy`: the action and its properties, plus the finding
  below.
- `selfplay.dfy`: the trainer helpers and the opponent pool.

`DiscardCard.java` only calls `moveCard`, and `moveCard` is not modelled,
so where the card lands in the discard pile is left open: it is inserted
somewhere. Every property below holds whatever that position is.

`execute` is meant to abort with an AssertionError when the card is missing
(`DiscardCard.java:43`). Before that, it dumps the last ten lines of the
game history (line 42). As written, that dump itself throws when the
history is shorter than ten lines; see "## Findings". The state class
therefore carries the history. `Execute` uses the corrected dump
(`FatalCorrected`), so its fatal outcome is always the AssertionError.
`FatalAsWritten` models the dump as written.

## Model

| member | source | states |
|---|---|---|
| DominionState.FirstOfType | src/main/java/games/dominion/actions/DiscardCard.java:31-32 | the position found holds a card of the kind, no earlier card has that kind, and there is no position exactly when no card of the hand has the kind |
| DominionState.FindFirstOfType | src/main/java/games/dominion/actions/DiscardCard.java:31-32 | the search over the hand returns exactly the first position of a card of the kind, or none |
| DominionState.CountType | src/main/java/games/dominion/actions/DiscardCard.java:34 | the count of cards of a kind is at most the pile's size, and it is zero exactly when no card has the kind (the `isPresent` test) |
| DominionState.DominionGameState.MoveCard | src/main/java/games/dominion/actions/DiscardCard.java:36 | the card's first occurrence leaves the source pile and the rest keep their order; the card is inserted into the destination pile; no zone is added or removed and every other zone is unchanged |
| DominionState.MovePreservesCopies | src/main/java/games/dominion/actions/DiscardCard.java:36 | a move changes the copies of a card held by any list of distinct zones only by the moved card leaving or arriving |
| DiscardCardAction.Execute | src/main/java/games/dominion/actions/DiscardCard.java:29-46 | returns exactly when the hand holds a card of the kind, and then returns `true` with the first such card moved from hand to discard pile; otherwise it aborts with the error of the corrected dump (`FatalCorrected` on the state's history), which is the not-in-hand AssertionError; the zones are then unchanged, and the history is unchanged on either path |
| DiscardCardAction.DiscardCounts | src/main/java/games/dominion/actions/DiscardCard.java:34-36 | after a discard the hand has one card of the kind fewer and the discard pile one more; counts of other kinds are unchanged in both |
| DiscardCardAction.DiscardConserves | src/main/java/games/dominion/actions/DiscardCard.java:36 | hand and discard pile together hold the same multiset of cards before and after |
| DiscardCardAction.DiscardTakesFirst | src/main/java/games/dominion/actions/DiscardCard.java:31-36 | the moved card has the kind, every earlier card has another kind and stays in place, every later card (including later cards of the same kind) stays in hand in order, and the moved card is in the discard pile |
| DiscardCardAction.DiscardConservesAllZones | src/main/java/games/dominion/actions/DiscardCard.java:36 | over any list of distinct zones that includes the hand and the discard pile, every card has as many copies after the discard as before |
| DiscardCardAction.DiscardExample | src/main/java/games/dominion/actions/DiscardCard.java:31-36 | a hand of one Copper and one Estate with an empty discard pile ends with exactly the Estate in hand and exactly the Copper in the discard pile |
| DiscardCardAction.Equals | src/main/java/games/dominion/actions/DiscardCard.java:67-73 | true exactly for a discard action with the same player and card kind; false for null and for objects of other classes |
| DiscardCardAction.Wrap32 | src/main/java/games/dominion/actions/DiscardCard.java:77 | the result is a Java int congruent to the argument modulo 2^32 |
| DiscardCardAction.HashCode | src/main/java/games/dominion/actions/DiscardCard.java:76-78 | the hash is 31·31 + 31·player + the enum constant's hash, wrapped to a Java int, whatever the intermediate overflows |
| DiscardCardAction.HashAgreesWithEquals | src/main/java/games/dominion/actions/DiscardCard.java:67-78 | equal actions have equal hashes |
| DiscardCardAction.HashSeparatesPlayers | src/main/java/games/dominion/actions/DiscardCard.java:76-78 | two actions of the same kind by different players with indices below 2^27 have different hashes |
| DiscardCardAction.Copy | src/main/java/games/dominion/actions/DiscardCard.java:55-59 | the copy equals the original, keeps both fields and has the same hash |
| DiscardCardAction.CardNamed | src/main/java/games/dominion/actions/DiscardCard.java:63 | a name that is found belongs to the constant returned |
| DiscardCardAction.DecimalRoundTrip | src/main/java/games/dominion/actions/DiscardCard.java:63 | `%d`'s rendering of an int parses back to the same int |
| DiscardCardAction.GetString | src/main/java/games/dominion/actions/DiscardCard.java:62-64 | the description starts with "Player " |
| DiscardCardAction.GetStringInjective | src/main/java/games/dominion/actions/DiscardCard.java:62-64 | two actions have the same description exactly when they are equal |
| DiscardCardAction.SubList | src/main/java/games/dominion/actions/DiscardCard.java:42 | `subList` succeeds exactly when 0 ≤ from ≤ to ≤ size, and then returns the lines from `from` up to `to` |
| DiscardCardAction.FatalAsWritten | src/main/java/games/dominion/actions/DiscardCard.java:41-43 | as written, the not-in-hand path ends in the AssertionError exactly when the history has at least 10 lines |
| DiscardCardAction.ShortHistoryHidesAssertion | src/main/java/games/dominion/actions/DiscardCard.java:41-43 | with fewer than 10 history lines, the dump throws the out-of-bounds exception and the AssertionError is never reached |
| DiscardCardAction.LastLines | src/main/java/games/dominion/actions/DiscardCard.java:42 | the corrected dump is the last min(size, n) history lines, in order |
| DiscardCardAction.FatalCorrected | src/main/java/games/dominion/actions/DiscardCard.java:41-43 | with the start clamped at 0, the not-in-hand path always ends in the AssertionError |
| DiscardCardAction.DumpStart | src/main/java/games/dominion/actions/DiscardCard.java:41-42 | the corrected start lies within the history and leaves min(size, 10) lines after it |
| DiscardCardAction.CorrectedDump | src/main/java/games/dominion/actions/DiscardCard.java:41-42 | the corrected dump is in bounds and is exactly the last (at most) ten history lines |
| SelfPlay.Select | examples/ppo-selfplay.py:83-91 | a boolean mask selects as many entries as it has flags of that truthiness |
| SelfPlay.Interleave | examples/ppo-selfplay.py:93-104 | the interleaving is as long as the flags |
| SelfPlay.InterleaveAt | examples/ppo-selfplay.py:97-103 | a truthy position p holds the learner action numbered by the truthy flags before p; a falsy position holds the opponent action numbered by the falsy flags before p |
| SelfPlay.SelectInterleave | examples/ppo-selfplay.py:83-104 | splitting the merged vector with the same flags gives back both action vectors |
| SelfPlay.InterleaveSelect | examples/ppo-selfplay.py:83-104 | merging the two halves that a mask splits a vector into rebuilds the vector |
| SelfPlay.MergeActions | examples/ppo-selfplay.py:93-104 | raises IndexError exactly when there are more truthy flags than learner actions or more falsy flags than opponent actions; otherwise the result is the interleaving followed by zeros up to the combined length |
| SelfPlay.Resolve | examples/ppo-selfplay.py:115 | a row index in range resolves to the row Python indexes, counting negative indices from the end |
| SelfPlay.StopFrom | examples/ppo-selfplay.py:113-116 | the loop stops at the first flagged column whose write would raise; every flagged column before it can be written |
| SelfPlay.InsertAtIndices | examples/ppo-selfplay.py:107-116 | does nothing when there are no values; otherwise it completes exactly when no flagged column raises, and a raise is an IndexError; each cell ends holding the value of the flagged column that wrote it (the j-th flagged column writes values[j]) and every other cell keeps its old value |
| SelfPlay.BoundedAppend | examples/ppo-selfplay.py:32-33 | a deque bounded by maxlen grows by one until it is full, and then drops its oldest entry; the result is always the newest entries of the old contents plus the new one |
| SelfPlay.AppendAllKeepsNewest | examples/ppo-selfplay.py:52-56 | after any run of appends the pool holds the newest min(total, window) entries of everything appended, oldest first |
| SelfPlay.BoundedAppendPairs | examples/ppo-selfplay.py:55-56 | the two deques, appended in lockstep, stay paired entry by entry |
| SelfPlay.SelfPlayAssistant.constructor | examples/ppo-selfplay.py:27-33 | the defaults are 5000, 10, 1000 and 0.7, and both deques start empty |
| SelfPlay.SelfPlayAssistant.UpdatePool | examples/ppo-selfplay.py:46-56 | appends the agent and its step to the two bounded deques, which stay of equal length, within the window, and paired |
| SelfPlay.SelfPlayAssistant.SampleOpponent | examples/ppo-selfplay.py:58-69 | fails exactly when the pool is empty: IndexError on the newest branch, ValueError from `randint` on the other; otherwise the index is the newest one when the draw is below the self-play probability and the picked one otherwise, it indexes both deques, and the agent returned is the checkpoint at that index |
| SelfPlay.StartSelfPlay | examples/ppo-selfplay.py:322-327 | `add_checkpoint` pools a copy of the agent (a new network loaded with its weights), passed in as `agentCopy`; with a positive window the first opponent is that copy, the value pooled at step 0, at index 0 whatever the draw; with window 0 the first sample fails |

## Left out

- Console output: the text that the not-in-hand path and `sample_opponent` print is not modelled. What evaluating it can raise is modelled. On the not-in-hand path that is the `subList` bounds of the finding. In `sample_opponent` it is the print's `self.save_steps[checkpoint_id]` (`examples/ppo-selfplay.py:64`); that index is where an empty pool raises IndexError on the newest branch, and `SampleOpponent` returns that error.
- `moveCard`, `getDeck` and the history's internals are not part of this model. `MoveCard` states what the discard relies on: the card's first occurrence leaves the source, and the card is inserted somewhere in the destination.
- DominionState.DominionGameState.MoveCard: `moveCard` is not modelled, so the landing position in the destination pile is left open.
- The `CardType` enum file is not part of this model. `CardType` is a representative set of constants, the names that `CardName` gives them are those constants' names, and each constant's `hashCode` is a parameter of `HashCode`. That hash is an identity hash fixed per run.
- DiscardCardAction.Execute: requires that the player's hand and discard zones exist. What `getDeck` does for a player index out of range is not modelled.
- DiscardCardAction.Execute: its fatal branch uses the corrected dump (`FatalCorrected`). The `IndexOutOfBoundsException` that the code as written raises on a history of fewer than ten lines is modelled separately, by `FatalAsWritten` and `ShortHistoryHidesAssertion`.
- DiscardCardAction.Equals: a subclass of `DiscardCard` passed to `equals` is not modelled, because the model has no class hierarchy for actions.
- DiscardCardAction.GetString: the game-state argument is ignored, as in the source.
- The disk branch of the self-play pool is left out as file I/O: `torch.save`/`torch.load` and the checkpoint directory.
- `add_checkpoint` is left out: its agent copy builds a new network, so the pool receives a copy that the model treats as an opaque value of type `A`.
- The random generator and its seeding are parameters. `draw` is the first `random()` value and `pick` is the value `randint` returns.
- Tensor dtypes, tensor shapes beyond the flags, `reshape`/`repeat` in `split_obs` (only the mask selection is modelled, as `Select`), and trailing buffer dimensions are left out. A buffer cell holds one value.
- The training loop, evaluation, argument parsing, GAE, the optimiser and the environment wrappers are left out, because they are numerical training code outside the core.
- `pytag/utils/common.py` is not part of this model.

## Findings

| source | as written | input that shows it | evidently intended | confidence | as-written member | corrected member |
|---|---|---|---|---|---|---|
| src/main/java/games/dominion/actions/DiscardCard.java:41-43 | the debug dump calls `getHistoryAsText().subList(historyLength - 10, historyLength)` before throwing the AssertionError | a hand without a card of the kind, with fewer than 10 lines of history: `subList(-k, ...)` throws IndexOutOfBoundsException | print at most the last 10 lines, then raise "Cannot discard card that is not in hand" | high for the bounds check of `List.subList`; not executed | DiscardCardAction.ShortHistoryHidesAssertion | DiscardCardAction.FatalCorrected |
