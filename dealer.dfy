/**
 * The dealer (Dealer.java): the deck, dealing cards onto empty slots,
 * returning the board to the deck at the end of a round, the round timer,
 * and the ranking announced at the end of the game.
 */
module Dealers {
  import opened Options
  import opened Board
  import opened Deck
  import opened Scoring
  import opened Tables
  import opened Players

  /** Java's Long.MAX_VALUE, the reshuffle time before the first deal. */
  const LongMaxValue: int := 0x7fff_ffff_ffff_ffff

  /** The countdown handed to the display: milliseconds left and whether to warn. */
  datatype Countdown = Countdown(millis: int, warn: bool)

  /** What the timer display shows at time `now`: nothing once the round is over. */
  function CountdownShown(reshuffleTime: int, now: int, warningMillis: int): Option<Countdown>
  {
    var gap := reshuffleTime - now;
    if gap > 0 then Some(Countdown(gap, gap < warningMillis)) else None
  }

  /** How long the dealer sleeps between wakes: coarse far from the timeout, fine near it. */
  function SleepStep(reshuffleTime: int, now: int, warningMillis: int): (millis: int)
    ensures millis == 950 || millis == 9
    ensures millis == 950 <==> reshuffleTime - now > warningMillis
  {
    if reshuffleTime - now > warningMillis then 950 else 9
  }

  /** The players' scores in player order. */
  function ScoresOf(players: seq<Player>): (scores: seq<int>)
    reads players
    ensures |scores| == |players|
    ensures forall i :: 0 <= i < |players| ==> scores[i] == players[i].score
  {
    seq(|players|, i reads players requires 0 <= i < |players| => players[i].score)
  }

  /** The players' ids in player order. */
  function IdsOf(players: seq<Player>): (ids: seq<int>)
    ensures |ids| == |players|
    ensures forall i :: 0 <= i < |players| ==> ids[i] == players[i].id
  {
    seq(|players|, i requires 0 <= i < |players| => players[i].id)
  }

  /** Right after a reset, the display shows the whole turn, warning only if the turn is shorter than the warning window. */
  lemma ResetShowsFullTurn(now: int, turnTimeoutMillis: int, warningMillis: int)
    requires turnTimeoutMillis > 0
    ensures CountdownShown(now + turnTimeoutMillis, now, warningMillis)
         == Some(Countdown(turnTimeoutMillis, turnTimeoutMillis < warningMillis))
  {
  }

  /**
   * The countdown is shown exactly while time remains; it shows the time
   * remaining and warns exactly when that is below the warning window.
   */
  lemma CountdownShownSpec(reshuffleTime: int, now: int, warningMillis: int)
    ensures CountdownShown(reshuffleTime, now, warningMillis).Some? <==> now < reshuffleTime
    ensures now < reshuffleTime ==>
      CountdownShown(reshuffleTime, now, warningMillis).value.millis == reshuffleTime - now
    ensures now < reshuffleTime ==>
      (CountdownShown(reshuffleTime, now, warningMillis).value.warn <==> reshuffleTime - now < warningMillis)
  {
  }

  /** Whenever the display warns, the dealer already sleeps in the fine-grained step. */
  lemma WarningMeansFineSleep(reshuffleTime: int, now: int, warningMillis: int)
    requires CountdownShown(reshuffleTime, now, warningMillis).Some?
    requires CountdownShown(reshuffleTime, now, warningMillis).value.warn
    ensures SleepStep(reshuffleTime, now, warningMillis) == 9
  {
  }

  /** Once the dealer has switched to the fine step it stays there as time passes. */
  lemma FineSleepPersists(reshuffleTime: int, now: int, later: int, warningMillis: int)
    requires now <= later
    requires SleepStep(reshuffleTime, now, warningMillis) == 9
    ensures SleepStep(reshuffleTime, later, warningMillis) == 9
  {
  }

  class Dealer {
    const table: Table
    const players: seq<Player>
    const turnTimeoutMillis: int
    const turnTimeoutWarningMillis: int

    /** Card ids still in the dealer's hand. */
    var deck: seq<int>
    /** Time at which the current round ends. */
    var reshuffleTime: int
    /** Set while the dealer restructures the board (never read by the players; see Table.busy). */
    var isTableBusy: bool

    ghost predicate Valid()
      reads this, table.slotToCard, table.cardToSlot, table.tokens
    {
      table.Valid() && DeckPartition(deck, table.cardToSlot[..])
    }

    /** A dealer over an empty board holding every card id, ascending. */
    constructor (table: Table, players: seq<Player>, turnTimeoutMillis: int, turnTimeoutWarningMillis: int)
      requires table.Valid()
      requires forall c :: 0 <= c < table.deckSize ==> table.cardToSlot[c].None?
      ensures Valid()
      ensures this.table == table && this.players == players
      ensures this.turnTimeoutMillis == turnTimeoutMillis && this.turnTimeoutWarningMillis == turnTimeoutWarningMillis
      ensures deck == InitialDeck(table.deckSize)
      ensures reshuffleTime == LongMaxValue && !isTableBusy
    {
      this.table := table;
      this.players := players;
      this.turnTimeoutMillis := turnTimeoutMillis;
      this.turnTimeoutWarningMillis := turnTimeoutWarningMillis;
      deck := InitialDeck(table.deckSize);
      reshuffleTime := LongMaxValue;
      isTableBusy := false;
      new;
      InitialDeckPartition(table.cardToSlot[..]);
    }

    /**
     * Deal randomly chosen deck cards into randomly chosen empty slots until
     * the board is full or the deck is empty.
     */
    method PlaceCardsOnTable()
      requires Valid()
      modifies this`deck, this`isTableBusy, table.slotToCard, table.cardToSlot
      ensures Valid() && !isTableBusy
      ensures EmptySlots(table.slotToCard[..]) == [] || deck == []
      ensures multiset(deck) + BoardCards(table.slotToCard[..])
           == old(multiset(deck) + BoardCards(table.slotToCard[..]))
      ensures multiset(deck) <= old(multiset(deck))
      ensures KeepsOccupied(old(table.slotToCard[..]), table.slotToCard[..])
    {
      isTableBusy := true;
      CardsConserved(deck, table.slotToCard[..], table.cardToSlot[..]);
      ghost var deck0 := multiset(deck);
      ghost var board0 := table.slotToCard[..];
      var empty := table.GetEmptySlots();
      while |empty| > 0 && |deck| > 0
        invariant table.Valid() && DeckPartition(deck, table.cardToSlot[..])
        invariant empty == EmptySlots(table.slotToCard[..])
        invariant multiset(deck) <= deck0
        invariant KeepsOccupied(board0, table.slotToCard[..])
        decreases |deck|
      {
        var slotIndex :| 0 <= slotIndex < |empty|;
        var cardIndex :| 0 <= cardIndex < |deck|;
        var slot := empty[slotIndex];
        EmptySlotsMember(table.slotToCard[..], slotIndex);
        FillKeepsOccupied(board0, table.slotToCard[..], slot, Some(deck[cardIndex]));
        DealCard(cardIndex, slot);
        empty := table.GetEmptySlots();
      }
      CardsConserved(deck, table.slotToCard[..], table.cardToSlot[..]);
      isTableBusy := false;
    }

    /** One dealing step: the deck card at `cardIndex` goes onto the empty `slot` and leaves the deck. */
    method DealCard(cardIndex: int, slot: int)
      requires table.Valid() && DeckPartition(deck, table.cardToSlot[..])
      requires 0 <= cardIndex < |deck| && 0 <= slot < table.tableSize && table.slotToCard[slot].None?
      modifies this`deck, table.slotToCard, table.cardToSlot
      ensures table.Valid() && DeckPartition(deck, table.cardToSlot[..])
      ensures |deck| == old(|deck|) - 1 && multiset(deck) <= old(multiset(deck))
      ensures table.slotToCard[..] == old(table.slotToCard[..])[slot := Some(old(deck[cardIndex]))]
    {
      var card := deck[cardIndex];
      DealKeepsPartition(deck, table.cardToSlot[..], cardIndex, slot);
      assert card in deck;
      table.PlaceCard(card, slot);
      deck := deck[..cardIndex] + deck[cardIndex + 1..];
    }

    /**
     * One returning step: the card of the occupied `slot` goes to the end of
     * the deck and the slot is cleared together with its tokens.
     */
    method ReturnCard(slot: int) returns (card: int)
      requires table.Valid() && DeckPartition(deck, table.cardToSlot[..])
      requires 0 <= slot < table.tableSize && table.slotToCard[slot].Some?
      modifies this`deck, table.slotToCard, table.cardToSlot, table.tokens
      ensures table.Valid() && DeckPartition(deck, table.cardToSlot[..])
      ensures card == old(table.slotToCard[slot].value) && deck == old(deck) + [card]
      ensures table.slotToCard[..] == old(table.slotToCard[..])[slot := None]
      ensures CardCount(table.slotToCard[..]) + 1 == old(CardCount(table.slotToCard[..]))
    {
      card := table.GetCard(slot);
      ReturnKeepsPartition(deck, table.cardToSlot[..], card);
      ClearCardCount(table.slotToCard[..], slot);
      deck := deck + [card];
      table.RemoveCard(slot);
    }

    /**
     * Return every card on the board to the deck, one randomly chosen
     * occupied slot at a time (the intended behaviour; see the as-written
     * variant below).
     */
    method RemoveAllCardsFromTable()
      requires Valid()
      modifies this`deck, this`isTableBusy, table.slotToCard, table.cardToSlot, table.tokens
      ensures Valid() && isTableBusy
      ensures forall s :: 0 <= s < table.tableSize ==> table.slotToCard[s].None? && table.tokens[s] == {}
      ensures multiset(deck) == old(multiset(deck) + BoardCards(table.slotToCard[..]))
      ensures multiset(deck) == multiset(InitialDeck(table.deckSize))
    {
      isTableBusy := true;
      CardsConserved(deck, table.slotToCard[..], table.cardToSlot[..]);
      var count := table.CountCards();
      while count > 0
        invariant table.Valid() && DeckPartition(deck, table.cardToSlot[..])
        invariant isTableBusy && count == CardCount(table.slotToCard[..])
        decreases count
      {
        CardCountZero(table.slotToCard[..]);
        var slot :| 0 <= slot < table.tableSize && table.slotToCard[slot].Some?;
        var card := ReturnCard(slot);
        count := table.CountCards();
      }
      ClearedBoard(deck, table.slotToCard[..], table.cardToSlot[..], table.tokens[..]);
    }

    /**
     * Dealer.removeAllCardsFromTable as written: the loop runs while some
     * slot is EMPTY and picks any slot. On a full board it returns nothing;
     * otherwise it eventually picks an empty slot, adds -1 to the deck and
     * fails when removing the missing card (reported as `crashed`).
     */
    method RemoveAllCardsFromTableAsWritten() returns (crashed: bool)
      requires Valid()
      modifies this`deck, this`isTableBusy, table.slotToCard, table.cardToSlot, table.tokens
      ensures old(EmptySlots(table.slotToCard[..])) == [] ==>
        !crashed && deck == old(deck) && table.slotToCard[..] == old(table.slotToCard[..])
      ensures old(EmptySlots(table.slotToCard[..])) == [] ==>
        Valid() && table.tokens[..] == old(table.tokens[..]) && table.cardToSlot[..] == old(table.cardToSlot[..])
      ensures old(EmptySlots(table.slotToCard[..])) != [] ==>
        crashed && |deck| > 0 && deck[|deck| - 1] == -1
      ensures isTableBusy
    {
      isTableBusy := true;
      crashed := SweepWhileEmptySlots();
    }

    /**
     * The loop of the as-written sweep: while some slot is empty, draw any
     * slot; an occupied one goes back to the deck, an empty one puts -1 on
     * the deck and ends in the failing removal.
     */
    method SweepWhileEmptySlots() returns (crashed: bool)
      requires Valid()
      modifies this`deck, table.slotToCard, table.cardToSlot, table.tokens
      ensures old(EmptySlots(table.slotToCard[..])) == [] ==>
        !crashed && deck == old(deck) && table.slotToCard[..] == old(table.slotToCard[..])
      ensures old(EmptySlots(table.slotToCard[..])) == [] ==>
        Valid() && table.tokens[..] == old(table.tokens[..]) && table.cardToSlot[..] == old(table.cardToSlot[..])
      ensures old(EmptySlots(table.slotToCard[..])) != [] ==>
        crashed && |deck| > 0 && deck[|deck| - 1] == -1
    {
      crashed := false;
      ghost var board0 := table.slotToCard[..];
      var empty := table.GetEmptySlots();
      // A slot that was empty on entry; it stays empty, so the loop never ends normally.
      ghost var hole := -1;
      if |empty| > 0 {
        EmptySlotsMember(board0, 0);
        hole := empty[0];
      }
      while |empty| > 0
        invariant table.Valid() && DeckPartition(deck, table.cardToSlot[..])
        invariant empty == EmptySlots(table.slotToCard[..])
        invariant (hole == -1) == (EmptySlots(board0) == [])
        invariant hole == -1 ==> deck == old(deck) && table.slotToCard[..] == board0
        invariant hole == -1 ==> table.tokens[..] == old(table.tokens[..]) && table.cardToSlot[..] == old(table.cardToSlot[..])
        invariant hole != -1 ==> 0 <= hole < table.tableSize && table.slotToCard[hole].None? && |empty| > 0
        decreases CardCount(table.slotToCard[..])
      {
        EmptySlotsMember(table.slotToCard[..], 0);
        var slot :| 0 <= slot < table.tableSize;
        var card := table.GetCard(slot);
        if card == -1 {
          // The -1 is added to the deck; Table.removeCard then unboxes the
          // missing card of the empty slot and throws.
          deck := deck + [card];
          return true;
        }
        card := ReturnCard(slot);
        empty := table.GetEmptySlots();
        if hole != -1 {
          EmptySlotsNonEmpty(table.slotToCard[..], hole);
        }
      }
    }

    /** Reset the round timer if asked, then report what the countdown display shows at `now`. */
    method UpdateTimerDisplay(reset: bool, now: int) returns (shown: Option<Countdown>)
      modifies this`reshuffleTime
      ensures reshuffleTime == if reset then now + turnTimeoutMillis else old(reshuffleTime)
      ensures shown == CountdownShown(reshuffleTime, now, turnTimeoutWarningMillis)
    {
      if reset {
        reshuffleTime := now + turnTimeoutMillis;
      }
      var gap := reshuffleTime - now;
      var warn := false;
      if gap < turnTimeoutWarningMillis {
        warn := true;
      }
      if gap > 0 {
        shown := Some(Countdown(reshuffleTime - now, warn));
      } else {
        shown := None;
      }
    }

    /** The highest score, and 0 when nobody scored. */
    method MaxScore() returns (maxScore: int)
      ensures maxScore == MaxOf(ScoresOf(players))
    {
      ghost var scores := ScoresOf(players);
      maxScore := 0;
      for i := 0 to |players|
        invariant maxScore == MaxOf(scores[..i])
      {
        assert scores[..i + 1][..i] == scores[..i];
        if players[i].score > maxScore {
          maxScore := players[i].score;
        }
      }
      assert scores[..|players|] == scores;
      MaxOfSpec(scores);
    }

    /** Number of players whose score equals `maxScore`. */
    method NumOfWinners(maxScore: int) returns (numWinners: nat)
      ensures numWinners == CountScore(ScoresOf(players), maxScore)
    {
      ghost var scores := ScoresOf(players);
      numWinners := 0;
      for i := 0 to |players|
        invariant numWinners == CountScore(scores[..i], maxScore)
      {
        assert scores[..i + 1][..i] == scores[..i];
        if players[i].score == maxScore {
          numWinners := numWinners + 1;
        }
      }
      assert scores[..|players|] == scores;
    }

    /**
     * The ids of the players holding the top score, filled into an array from
     * its last position backwards, so that they appear in reverse player order.
     */
    method AnnounceWinners() returns (winners: seq<int>)
      ensures winners == Reversed(WinnerIds(IdsOf(players), ScoresOf(players), MaxOf(ScoresOf(players))))
    {
      var maxScore := MaxScore();
      var numWinners := NumOfWinners(maxScore);
      ghost var scores, ids := ScoresOf(players), IdsOf(players);
      var a := new int[numWinners];
      ghost var found: seq<int> := [];
      for i := 0 to |players|
        invariant numWinners + CountScore(scores[..i], maxScore) == CountScore(scores, maxScore)
        invariant found == AnnouncedIds(ids[..i], scores[..i], maxScore)
        invariant numWinners <= a.Length && a[numWinners..] == found
      {
        ScanStep(ids, scores, maxScore, i);
        if players[i].score == maxScore {
          ghost var before := a[..];
          PrependSuffix(before, numWinners, ids[i]);
          numWinners := numWinners - 1;
          a[numWinners] := players[i].id;
          assert a[..] == before[numWinners := ids[i]];
          found := [ids[i]] + found;
        }
      }
      assert scores[..|players|] == scores && ids[..|players|] == ids;
      AnnouncedIdsReversed(ids, scores, maxScore);
      winners := a[..];
      assert a[numWinners..] == winners;
    }
  }
}
