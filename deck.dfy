/**
 * Specification of the dealer's deck, on values: the initial deck, the
 * invariant that every card is either in the deck or on the board, and the
 * conservation of cards that follows from it.
 */
module Deck {
  import opened Options
  import opened Board

  /** The deck the dealer starts with: card ids 0 .. n-1 in ascending order. */
  function InitialDeck(n: nat): (deck: seq<int>)
    ensures |deck| == n && forall i :: 0 <= i < n ==> deck[i] == i
  {
    seq(n, i => i)
  }

  ghost predicate Distinct(s: seq<int>)
  {
    forall i, j :: 0 <= i < j < |s| ==> s[i] != s[j]
  }

  /**
   * Every card id is in exactly one of the deck and the board: the deck holds
   * valid ids without repetition, and a card is in the deck iff it has no slot.
   */
  ghost predicate DeckPartition(deck: seq<int>, cardToSlot: seq<Option<int>>)
  {
    && Distinct(deck)
    && (forall i :: 0 <= i < |deck| ==> 0 <= deck[i] < |cardToSlot|)
    && (forall c :: 0 <= c < |cardToSlot| ==> (c in deck <==> cardToSlot[c].None?))
  }

  /** The initial deck against an empty board satisfies the partition. */
  lemma InitialDeckPartition(cardToSlot: seq<Option<int>>)
    requires forall c :: 0 <= c < |cardToSlot| ==> cardToSlot[c].None?
    ensures DeckPartition(InitialDeck(|cardToSlot|), cardToSlot)
  {
    var deck := InitialDeck(|cardToSlot|);
    forall c | 0 <= c < |cardToSlot| ensures c in deck {
      assert deck[c] == c;
    }
  }

  /** Taking the card at index k out of a deck without repetitions. */
  lemma RemoveAt(deck: seq<int>, k: int)
    requires Distinct(deck) && 0 <= k < |deck|
    ensures var rest := deck[..k] + deck[k + 1..];
      && Distinct(rest)
      && (forall x :: x in rest <==> x in deck && x != deck[k])
      && multiset(rest) + multiset{deck[k]} == multiset(deck)
  {
    var rest := deck[..k] + deck[k + 1..];
    assert deck == deck[..k] + [deck[k]] + deck[k + 1..];
    forall i | 0 <= i < |rest| ensures rest[i] == deck[if i < k then i else i + 1] { }
    forall x ensures x in rest <==> x in deck && x != deck[k] {
      if x in rest {
        var i :| 0 <= i < |rest| && rest[i] == x;
        assert deck[if i < k then i else i + 1] == x;
      }
    }
  }

  /** Dealing the deck card at index k into some slot keeps the partition. */
  lemma DealKeepsPartition(deck: seq<int>, cardToSlot: seq<Option<int>>, k: int, slot: int)
    requires DeckPartition(deck, cardToSlot) && 0 <= k < |deck|
    ensures DeckPartition(deck[..k] + deck[k + 1..], cardToSlot[deck[k] := Some(slot)])
    ensures multiset(deck[..k] + deck[k + 1..]) + multiset{deck[k]} == multiset(deck)
  {
    RemoveAt(deck, k);
    var rest := deck[..k] + deck[k + 1..];
    forall i | 0 <= i < |rest| ensures 0 <= rest[i] < |cardToSlot| {
      assert rest[i] in deck;
    }
  }

  /** Returning a card that was on the board to the end of the deck keeps the partition. */
  lemma ReturnKeepsPartition(deck: seq<int>, cardToSlot: seq<Option<int>>, card: int)
    requires DeckPartition(deck, cardToSlot) && 0 <= card < |cardToSlot| && cardToSlot[card].Some?
    ensures DeckPartition(deck + [card], cardToSlot[card := None])
  {
  }

  /** A card occurs once in a deck without repetitions if it is there at all. */
  lemma {:induction false} DistinctMultiplicity(deck: seq<int>, x: int)
    requires Distinct(deck)
    ensures multiset(deck)[x] == if x in deck then 1 else 0
  {
    if deck != [] {
      var init := deck[..|deck| - 1];
      assert deck == init + [deck[|deck| - 1]];
      DistinctMultiplicity(init, x);
    }
  }

  /** Under the bijection, the first k slots hold card x once iff x's slot is below k. */
  lemma {:induction false} BoardCardsMultiplicity(slotToCard: seq<Option<int>>, cardToSlot: seq<Option<int>>, k: nat, x: int)
    requires Bijective(slotToCard, cardToSlot) && k <= |slotToCard|
    ensures BoardCards(slotToCard[..k])[x]
         == if 0 <= x < |cardToSlot| && cardToSlot[x].Some? && cardToSlot[x].value < k then 1 else 0
  {
    if k > 0 {
      BoardCardsMultiplicity(slotToCard, cardToSlot, k - 1, x);
      assert slotToCard[..k][..k - 1] == slotToCard[..k - 1];
      assert BoardCards(slotToCard[..k]) == BoardCards(slotToCard[..k - 1]) + SlotCard(slotToCard[k - 1]);
      if 0 <= x < |cardToSlot| && cardToSlot[x] == Some(k - 1) {
        assert slotToCard[k - 1] == Some(x);
      }
    }
  }

  /**
   * Cards are conserved: with the bijection and the partition, deck and
   * board together hold every card id 0 .. deckSize-1 exactly once.
   */
  lemma CardsConserved(deck: seq<int>, slotToCard: seq<Option<int>>, cardToSlot: seq<Option<int>>)
    requires Bijective(slotToCard, cardToSlot) && DeckPartition(deck, cardToSlot)
    ensures multiset(deck) + BoardCards(slotToCard) == multiset(InitialDeck(|cardToSlot|))
  {
    var all := InitialDeck(|cardToSlot|);
    assert slotToCard[..|slotToCard|] == slotToCard;
    forall x ensures (multiset(deck) + BoardCards(slotToCard))[x] == multiset(all)[x] {
      DistinctMultiplicity(deck, x);
      DistinctMultiplicity(all, x);
      BoardCardsMultiplicity(slotToCard, cardToSlot, |slotToCard|, x);
      if 0 <= x < |cardToSlot| {
        assert all[x] == x;
      } else {
        assert x !in deck;
      }
    }
  }

  /**
   * Once no card is counted on the board, every slot is empty and free of
   * tokens, and the deck holds every card.
   */
  lemma ClearedBoard(deck: seq<int>, slotToCard: seq<Option<int>>, cardToSlot: seq<Option<int>>,
                     tokens: seq<set<int>>)
    requires Bijective(slotToCard, cardToSlot) && DeckPartition(deck, cardToSlot)
    requires TokensOnCards(slotToCard, tokens) && CardCount(slotToCard) == 0
    ensures forall s :: 0 <= s < |slotToCard| ==> slotToCard[s].None? && tokens[s] == {}
    ensures multiset(deck) == multiset(InitialDeck(|cardToSlot|))
  {
    CardCountZero(slotToCard);
    BoardCardsSize(slotToCard);
    CardsConserved(deck, slotToCard, cardToSlot);
  }
}
