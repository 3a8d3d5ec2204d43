/**
 * One participant (Player.java): its score, its freeze state, its bounded
 * queue of pressed slots, and the step that turns one queued slot into a
 * token toggle and, when the player's hand is full, a candidate set.
 */
module Players {
  import opened Options
  import opened Board
  import opened Tables

  /** The dealer's verdict on the last submitted set; Free when none is pending. */
  datatype FreezeState = Free | Point | Penalty

  /** A candidate set submitted to the dealer: the slots and the submitting player (CardSet.java). */
  datatype CardSet = CardSet(slots: seq<int>, playerId: int)

  class Player {
    const id: nat
    const human: bool
    const table: Table
    /** Capacity of the action queue: the number of cards in a set. */
    const capacity: nat

    var score: nat
    var freezeState: FreezeState
    /** Pressed slots waiting to be executed, oldest first. */
    var actions: seq<int>

    ghost predicate Valid()
      reads this
    {
      && capacity == table.featureSize
      && 1 <= capacity
      && |actions| <= capacity
      && forall i :: 0 <= i < |actions| ==> 0 <= actions[i] < table.tableSize
    }

    /** A new player: not frozen, no points, an empty queue holding up to `featureSize` slots. */
    constructor (table: Table, id: nat, human: bool)
      requires 1 <= table.featureSize
      ensures Valid()
      ensures this.table == table && this.id == id && this.human == human
      ensures freezeState == Free && score == 0 && actions == [] && capacity == table.featureSize
    {
      this.table := table;
      this.id := id;
      this.human := human;
      capacity := table.featureSize;
      score := 0;
      freezeState := Free;
      actions := [];
    }

    /** Whether a key press may be queued: the player is not frozen and the table is not busy. */
    predicate ShouldAllowOffer(): (allow: bool)
      reads this, table
      ensures allow ==> freezeState == Free && !table.busy
      ensures freezeState == Free && !table.busy ==> allow
    {
      freezeState == Free && !table.busy
    }

    /** Whether a queued action is waiting. */
    predicate ShouldExecuteAction(): (pending: bool)
      reads this
      ensures pending <==> |actions| > 0
    {
      actions != []
    }

    /**
     * A key press of a human player who may act is appended to the queue;
     * any other press is dropped.
     */
    method KeyPressed(slot: int)
      requires Valid() && 0 <= slot < table.tableSize
      requires human && ShouldAllowOffer() ==> |actions| < capacity
      modifies this`actions
      ensures Valid()
      ensures human && ShouldAllowOffer() ==> actions == old(actions) + [slot]
      ensures !(human && ShouldAllowOffer()) ==> actions == old(actions)
    {
      if human {
        if !ShouldAllowOffer() {
          return;
        }
        actions := actions + [slot];
      }
    }

    /**
     * Take the oldest queued slot, toggle the player's token there, and
     * return the candidate set when the player then holds a full hand.
     */
    method ExecuteAction() returns (submitted: Option<CardSet>)
      requires Valid() && table.Valid() && ShouldExecuteAction()
      modifies this`actions, table.tokens
      ensures Valid() && table.Valid()
      ensures actions == old(actions)[1..]
      ensures table.tokens[..]
           == ToggleToken(table.slotToCard[..], old(table.tokens[..]), table.featureSize, id, old(actions)[0]).tokens
      ensures submitted.Some? <==> TokenCount(table.tokens[..], id) == table.featureSize
      ensures submitted.Some? ==> submitted.value == CardSet(PlayerSlots(table.tokens[..], id), id)
    {
      var slot := actions[0];
      actions := actions[1..];
      var _ := table.PlaceOrRemoveToken(id, slot);
      var full := table.PlayerHasMaxTokens(id);
      if full {
        var slots := table.GetPlayerSlots(id);
        FullHandSlots(table.tokens[..], table.featureSize, id);
        submitted := Some(CardSet(slots, id));
      } else {
        submitted := None;
      }
    }

    /** Award a point: the score goes up by one and the player is free again. */
    method Point()
      modifies this`score, this`freezeState
      ensures score == old(score) + 1 && freezeState == Free
    {
      score := score + 1;
      freezeState := Free;
    }

    /**
     * Apply a penalty: the player's tokens go through Table.RemovePlayerTokens,
     * the score stays and the player is free again.
     */
    method Penalty()
      requires table.Valid()
      modifies this`freezeState, table.tokens
      ensures table.Valid()
      ensures score == old(score) && freezeState == Free
    {
      table.RemovePlayerTokens(id);
      freezeState := Free;
    }

    /** Act on the dealer's verdict: a point, a penalty, or nothing when none is pending. */
    method AcceptDealerResult()
      requires table.Valid()
      modifies this`score, this`freezeState, table.tokens
      ensures table.Valid()
      ensures old(freezeState).Point? ==> score == old(score) + 1 && freezeState == Free
      ensures old(freezeState).Penalty? ==> score == old(score) && freezeState == Free
      ensures old(freezeState) == Free ==> score == old(score) && freezeState == Free
      ensures score >= old(score)
      ensures !old(freezeState).Penalty? ==> table.tokens[..] == old(table.tokens[..])
    {
      if freezeState.Point? {
        Point();
      } else if freezeState.Penalty? {
        Penalty();
      }
    }

    /** Record the dealer's verdict. */
    method SetFreezeState(state: FreezeState)
      modifies this`freezeState
      ensures freezeState == state
    {
      freezeState := state;
    }
  }
}
