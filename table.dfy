/**
 * The shared board of the game (Table.java): the card in each slot, the slot
 * of each card, the players' tokens on each slot and the advisory busy flag.
 */
module Tables {
  import opened Options
  import opened Board

  class Table {
    /** Number of slots, number of card ids, and cards per set (also the token limit). */
    const tableSize: nat
    const deckSize: nat
    const featureSize: nat

    /** Card in each slot (None for null). */
    const slotToCard: array<Option<int>>
    /** Slot of each card (None for null). */
    const cardToSlot: array<Option<int>>
    /** Ids of the players holding a token on each slot. */
    const tokens: array<set<int>>

    var busy: bool

    /** The documented invariant plus the token invariants the operations keep. */
    ghost predicate Valid()
      reads slotToCard, cardToSlot, tokens
    {
      && slotToCard.Length == tableSize
      && cardToSlot.Length == deckSize
      && tokens.Length == tableSize
      && slotToCard != cardToSlot
      && Bijective(slotToCard[..], cardToSlot[..])
      && TokensOnCards(slotToCard[..], tokens[..])
      && TokensBounded(tokens[..], featureSize)
    }

    /** A table with every slot empty, no card placed and no token. */
    constructor (tableSize: nat, deckSize: nat, featureSize: nat)
      ensures Valid() && !busy
      ensures this.tableSize == tableSize && this.deckSize == deckSize && this.featureSize == featureSize
      ensures fresh(slotToCard) && fresh(cardToSlot) && fresh(tokens)
      ensures forall s :: 0 <= s < tableSize ==> slotToCard[s].None? && tokens[s] == {}
      ensures forall c :: 0 <= c < deckSize ==> cardToSlot[c].None?
    {
      this.tableSize, this.deckSize, this.featureSize := tableSize, deckSize, featureSize;
      slotToCard := new Option<int>[tableSize](_ => None);
      cardToSlot := new Option<int>[deckSize](_ => None);
      tokens := new set<int>[tableSize](_ => {});
      busy := false;
      new;
      forall p ensures TokenCount(tokens[..], p) <= featureSize {
        TokenCountAbsent(tokens[..], p);
      }
    }

    /** Number of cards on the table. */
    method CountCards() returns (cards: nat)
      requires Valid()
      ensures cards == CardCount(slotToCard[..])
    {
      cards := 0;
      for i := 0 to slotToCard.Length
        invariant cards == CardCount(slotToCard[..i])
      {
        assert slotToCard[..i + 1][..i] == slotToCard[..i];
        if slotToCard[i].Some? {
          cards := cards + 1;
        }
      }
      assert slotToCard[..slotToCard.Length] == slotToCard[..];
    }

    /** Place `card` in the empty `slot`; both maps record it. */
    method PlaceCard(card: int, slot: int)
      requires Valid()
      requires 0 <= card < deckSize && 0 <= slot < tableSize
      requires slotToCard[slot].None? && cardToSlot[card].None?
      modifies slotToCard, cardToSlot
      ensures Valid()
      ensures slotToCard[..] == old(slotToCard[..])[slot := Some(card)]
      ensures cardToSlot[..] == old(cardToSlot[..])[card := Some(slot)]
    {
      PlaceCardKeepsBijection(slotToCard[..], cardToSlot[..], card, slot);
      cardToSlot[card] := Some(slot);
      slotToCard[slot] := Some(card);
    }

    /** Remove the card in the occupied `slot`, clearing its tokens and both maps. */
    method RemoveCard(slot: int)
      requires Valid()
      requires 0 <= slot < tableSize && slotToCard[slot].Some?
      modifies slotToCard, cardToSlot, tokens
      ensures Valid()
      ensures tokens[..] == old(tokens[..])[slot := {}]
      ensures slotToCard[..] == old(slotToCard[..])[slot := None]
      ensures cardToSlot[..] == old(cardToSlot[..])[old(slotToCard[slot]).value := None]
    {
      ClearSlotKeepsTokenInvariants(slotToCard[..], tokens[..], featureSize, slot);
      RemoveCardKeepsBijection(slotToCard[..], cardToSlot[..], slot);
      tokens[slot] := {};
      var card := slotToCard[slot].value;
      slotToCard[slot] := None;
      cardToSlot[card] := None;
    }

    /** Toggle the token of `player` on `slot`; says whether the toggle took effect. */
    method PlaceOrRemoveToken(player: int, slot: int) returns (ok: bool)
      requires Valid() && 0 <= slot < tableSize
      modifies tokens
      ensures Valid()
      ensures Toggled(tokens[..], ok) == ToggleToken(slotToCard[..], old(tokens[..]), featureSize, player, slot)
    {
      if player in tokens[slot] {
        ok := RemoveToken(player, slot);
      } else {
        ok := PlaceToken(player, slot);
      }
    }

    /** Place a token of `player` on `slot`, unless the slot is empty or the player is at the limit. */
    method PlaceToken(player: int, slot: int) returns (ok: bool)
      requires Valid() && 0 <= slot < tableSize
      modifies tokens
      ensures Valid()
      ensures Toggled(tokens[..], ok) == Board.PlaceToken(slotToCard[..], old(tokens[..]), featureSize, player, slot)
    {
      PlaceTokenSpec(slotToCard[..], tokens[..], featureSize, player, slot);
      if slotToCard[slot].None? {
        return false;
      }
      var atLimit := PlayerHasMaxTokens(player);
      if atLimit {
        return false;
      }
      tokens[slot] := tokens[slot] + {player};
      ok := true;
    }

    /** Remove the token of `player` from `slot`, unless the slot is empty. */
    method RemoveToken(player: int, slot: int) returns (ok: bool)
      requires Valid() && 0 <= slot < tableSize
      modifies tokens
      ensures Valid()
      ensures Toggled(tokens[..], ok) == Board.RemoveToken(slotToCard[..], old(tokens[..]), player, slot)
    {
      RemoveTokenSpec(slotToCard[..], tokens[..], featureSize, player, slot);
      if slotToCard[slot].None? {
        return false;
      }
      tokens[slot] := tokens[slot] - {player};
      ok := true;
    }

    /** The card in `slot`, or -1 when the slot is empty. */
    function GetCard(slot: int): (card: int)
      requires Valid() && 0 <= slot < tableSize
      reads slotToCard, cardToSlot, tokens
      ensures card == -1 <==> slotToCard[slot].None?
      ensures card != -1 ==> 0 <= card < deckSize && cardToSlot[card] == Some(slot)
    {
      if slotToCard[slot].None? then -1 else slotToCard[slot].value
    }

    /** The empty slots, scanned from slot 0 upwards. */
    method GetEmptySlots() returns (empty: seq<int>)
      requires Valid()
      ensures empty == EmptySlots(slotToCard[..])
    {
      empty := [];
      for i := 0 to slotToCard.Length
        invariant empty == EmptySlots(slotToCard[..i])
      {
        assert slotToCard[..i + 1][..i] == slotToCard[..i];
        if slotToCard[i].None? {
          empty := empty + [i];
        }
      }
      assert slotToCard[..slotToCard.Length] == slotToCard[..];
    }

    /** Whether `player` holds exactly `featureSize` tokens. */
    method PlayerHasMaxTokens(player: int) returns (atLimit: bool)
      requires Valid()
      ensures atLimit <==> TokenCount(tokens[..], player) == featureSize
    {
      var count := 0;
      for i := 0 to tokens.Length
        invariant count == TokenCount(tokens[..i], player)
      {
        assert tokens[..i + 1][..i] == tokens[..i];
        if player in tokens[i] {
          count := count + 1;
        }
      }
      assert tokens[..tokens.Length] == tokens[..];
      atLimit := count == featureSize;
    }

    /**
     * The slots holding a token of `player`, ascending, in an int array of
     * length `featureSize` whose unused tail stays 0.
     */
    method GetPlayerSlots(player: int) returns (slots: seq<int>)
      requires Valid()
      ensures |PlayerSlots(tokens[..], player)| <= featureSize
      ensures slots == Padded(PlayerSlots(tokens[..], player), featureSize)
    {
      PlayerSlotsCount(tokens[..], player);
      var a := new int[featureSize](_ => 0);
      var j := 0;
      for i := 0 to tokens.Length
        invariant j == TokenCount(tokens[..i], player) <= featureSize
        invariant a[..j] == PlayerSlots(tokens[..i], player)
        invariant forall k :: j <= k < featureSize ==> a[k] == 0
      {
        assert tokens[..i + 1][..i] == tokens[..i];
        if player in tokens[i] {
          TokenCountPrefix(tokens[..], player, i + 1);
          a[j] := i;
          j := j + 1;
        }
      }
      assert tokens[..tokens.Length] == tokens[..];
      slots := a[..];
    }

    /** The cards in the given occupied slots, position by position. */
    method SlotsToCards(slots: seq<int>) returns (cards: seq<int>)
      requires Valid()
      requires forall i :: 0 <= i < |slots| ==> 0 <= slots[i] < tableSize && slotToCard[slots[i]].Some?
      ensures |cards| == |slots|
      ensures forall i :: 0 <= i < |slots| ==> Some(cards[i]) == slotToCard[slots[i]]
      ensures forall i :: 0 <= i < |slots| ==> 0 <= cards[i] < deckSize && cardToSlot[cards[i]] == Some(slots[i])
    {
      var a := new int[|slots|](_ => 0);
      for i := 0 to |slots|
        invariant forall k :: 0 <= k < i ==> Some(a[k]) == slotToCard[slots[k]]
      {
        a[i] := slotToCard[slots[i]].value;
      }
      cards := a[..];
    }

    /** Whether every given slot carries at least one token (of any player). */
    method IsLegalSet(slots: seq<int>) returns (legal: bool)
      requires Valid()
      requires forall i :: 0 <= i < |slots| ==> 0 <= slots[i] < tableSize
      ensures legal <==> forall i :: 0 <= i < |slots| ==> tokens[slots[i]] != {}
      ensures legal ==> forall i :: 0 <= i < |slots| ==> slotToCard[slots[i]].Some?
    {
      for i := 0 to |slots|
        invariant forall k :: 0 <= k < i ==> tokens[slots[k]] != {}
      {
        if tokens[slots[i]] == {} {
          return false;
        }
      }
      legal := true;
    }

    /**
     * Take the tokens of `player` off the board. Table.removePlayerTokens is
     * not part of this model: only the frame (the token sets) and the table
     * invariant are stated, so callers learn nothing about the new tokens.
     */
    method RemovePlayerTokens(player: int)
      requires Valid()
      modifies tokens
      ensures Valid()
    {
    }

    /** Mark the table busy (the board is being restructured). */
    method LockTable()
      modifies this`busy
      ensures busy
    {
      busy := true;
    }

    /** Clear the busy mark. */
    method UnlockTable()
      modifies this`busy
      ensures !busy
    {
      busy := false;
    }
  }
}
