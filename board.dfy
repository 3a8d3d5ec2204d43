/**
 * Specification of the shared board, on values.
 *
 * The table keeps three arrays: the card in each slot, the slot of each card
 * and the set of player ids holding a token on each slot. This module reads
 * their contents as sequences, states the table's invariants over them and
 * proves the facts the class methods in module Tables rely on.
 */
module Board {
  import opened Options

  // ---------------------------------------------------------------------
  // Invariants of the table
  // ---------------------------------------------------------------------

  /** slotToCard[s] == Some(c) iff cardToSlot[c] == Some(s), with both in range. */
  ghost predicate Bijective(slotToCard: seq<Option<int>>, cardToSlot: seq<Option<int>>)
  {
    && (forall s :: 0 <= s < |slotToCard| && slotToCard[s].Some? ==>
          0 <= slotToCard[s].value < |cardToSlot| && cardToSlot[slotToCard[s].value] == Some(s))
    && (forall c :: 0 <= c < |cardToSlot| && cardToSlot[c].Some? ==>
          0 <= cardToSlot[c].value < |slotToCard| && slotToCard[cardToSlot[c].value] == Some(c))
  }

  /** A token may only sit on a slot that holds a card. */
  ghost predicate TokensOnCards(slotToCard: seq<Option<int>>, tokens: seq<set<int>>)
  {
    |slotToCard| == |tokens| &&
    forall s :: 0 <= s < |tokens| && slotToCard[s].None? ==> tokens[s] == {}
  }

  /** No player holds more than `featureSize` tokens. */
  ghost predicate TokensBounded(tokens: seq<set<int>>, featureSize: nat)
  {
    forall p :: TokenCount(tokens, p) <= featureSize
  }

  // ---------------------------------------------------------------------
  // Queries over the slots
  // ---------------------------------------------------------------------

  /** Number of slots holding a card. */
  function CardCount(cards: seq<Option<int>>): nat
  {
    if cards == [] then 0
    else CardCount(cards[..|cards| - 1]) + (if cards[|cards| - 1].Some? then 1 else 0)
  }

  /** The cards lying on the board, as a multiset. */
  function BoardCards(cards: seq<Option<int>>): multiset<int>
  {
    if cards == [] then multiset{}
    else
      BoardCards(cards[..|cards| - 1]) + SlotCard(cards[|cards| - 1])
  }

  /** The slots holding no card, in the order of a scan from slot 0 upwards. */
  function EmptySlots(cards: seq<Option<int>>): seq<int>
  {
    if cards == [] then []
    else EmptySlots(cards[..|cards| - 1]) + (if cards[|cards| - 1].None? then [|cards| - 1] else [])
  }

  /** Number of slots on which player `p` has a token. */
  function TokenCount(tokens: seq<set<int>>, p: int): nat
  {
    if tokens == [] then 0
    else TokenCount(tokens[..|tokens| - 1], p) + (if p in tokens[|tokens| - 1] then 1 else 0)
  }

  /** The slots on which player `p` has a token, in the order of a scan from slot 0 upwards. */
  function PlayerSlots(tokens: seq<set<int>>, p: int): seq<int>
  {
    if tokens == [] then []
    else PlayerSlots(tokens[..|tokens| - 1], p) + (if p in tokens[|tokens| - 1] then [|tokens| - 1] else [])
  }

  /** `s` followed by zeros up to length `n`: an int array of length n filled from the front. */
  function Padded(s: seq<int>, n: nat): (r: seq<int>)
    requires |s| <= n
    ensures |r| == n
    ensures r[..|s|] == s && forall k :: |s| <= k < n ==> r[k] == 0
  {
    s + seq(n - |s|, _ => 0)
  }

  ghost predicate Ascending(s: seq<int>)
  {
    forall i, j :: 0 <= i < j < |s| ==> s[i] < s[j]
  }

  // ---------------------------------------------------------------------
  // Token operations, as functions of the board
  // ---------------------------------------------------------------------

  /** The token sets after an operation, and whether the operation succeeded. */
  datatype Toggled = Toggled(tokens: seq<set<int>>, ok: bool)

  /**
   * Place a token of `p` on slot `s`: refused when the slot has no card or
   * when `p` already holds exactly `featureSize` tokens.
   */
  function PlaceToken(cards: seq<Option<int>>, tokens: seq<set<int>>, featureSize: nat, p: int, s: int): Toggled
    requires |cards| == |tokens| && 0 <= s < |tokens|
  {
    if cards[s].None? || TokenCount(tokens, p) == featureSize then Toggled(tokens, false)
    else Toggled(tokens[s := tokens[s] + {p}], true)
  }

  /** Remove the token of `p` from slot `s`: refused only when the slot has no card. */
  function RemoveToken(cards: seq<Option<int>>, tokens: seq<set<int>>, p: int, s: int): Toggled
    requires |cards| == |tokens| && 0 <= s < |tokens|
  {
    if cards[s].None? then Toggled(tokens, false)
    else Toggled(tokens[s := tokens[s] - {p}], true)
  }

  /** Remove the token of `p` from `s` if it is there, otherwise try to place one. */
  function ToggleToken(cards: seq<Option<int>>, tokens: seq<set<int>>, featureSize: nat, p: int, s: int): Toggled
    requires |cards| == |tokens| && 0 <= s < |tokens|
  {
    if p in tokens[s] then RemoveToken(cards, tokens, p, s) else PlaceToken(cards, tokens, featureSize, p, s)
  }

  // ---------------------------------------------------------------------
  // Lemmas
  // ---------------------------------------------------------------------

  /** The empty-slot scan lists exactly the empty slots. */
  lemma {:induction false} EmptySlotsMembers(cards: seq<Option<int>>)
    ensures forall k :: k in EmptySlots(cards) <==> 0 <= k < |cards| && cards[k].None?
  {
    if cards != [] {
      var n := |cards|;
      var init := cards[..n - 1];
      EmptySlotsMembers(init);
      assert EmptySlots(cards) == EmptySlots(init) + (if cards[n - 1].None? then [n - 1] else []);
      forall k | 0 <= k < n - 1 ensures init[k] == cards[k] { }
    }
  }

  /** The empty-slot scan lists the slots in ascending order. */
  lemma {:induction false} EmptySlotsAscending(cards: seq<Option<int>>)
    ensures Ascending(EmptySlots(cards))
  {
    if cards != [] {
      var n := |cards|;
      var init := cards[..n - 1];
      var before := EmptySlots(init);
      EmptySlotsAscending(init);
      EmptySlotsMembers(init);
      forall i | 0 <= i < |before| ensures before[i] < n - 1 {
        assert before[i] in before;
      }
    }
  }

  /** Empty slots and occupied slots together make up the board. */
  lemma {:induction false} EmptySlotsCount(cards: seq<Option<int>>)
    ensures |EmptySlots(cards)| + CardCount(cards) == |cards|
  {
    if cards != [] {
      EmptySlotsCount(cards[..|cards| - 1]);
    }
  }

  /** The empty-slot scan lists exactly the empty slots, ascending, and complements the card count. */
  lemma EmptySlotsSpec(cards: seq<Option<int>>)
    ensures Ascending(EmptySlots(cards))
    ensures forall k :: k in EmptySlots(cards) <==> 0 <= k < |cards| && cards[k].None?
    ensures |EmptySlots(cards)| + CardCount(cards) == |cards|
  {
    EmptySlotsMembers(cards);
    EmptySlotsAscending(cards);
    EmptySlotsCount(cards);
  }

  /** A board with an empty slot has a non-empty empty-slot scan. */
  lemma EmptySlotsNonEmpty(cards: seq<Option<int>>, slot: int)
    requires 0 <= slot < |cards| && cards[slot].None?
    ensures EmptySlots(cards) != []
  {
    EmptySlotsSpec(cards);
    assert slot in EmptySlots(cards);
  }

  /** Every slot the empty-slot scan lists is an empty slot of the board. */
  lemma EmptySlotsMember(cards: seq<Option<int>>, i: int)
    requires 0 <= i < |EmptySlots(cards)|
    ensures 0 <= EmptySlots(cards)[i] < |cards| && cards[EmptySlots(cards)[i]].None?
  {
    EmptySlotsSpec(cards);
    assert EmptySlots(cards)[i] in EmptySlots(cards);
  }

  /** The token-slot scan lists exactly the slots holding a token of `p`. */
  lemma {:induction false} PlayerSlotsMembers(tokens: seq<set<int>>, p: int)
    ensures forall k :: k in PlayerSlots(tokens, p) <==> 0 <= k < |tokens| && p in tokens[k]
  {
    if tokens != [] {
      var n := |tokens|;
      var init := tokens[..n - 1];
      PlayerSlotsMembers(init, p);
      assert PlayerSlots(tokens, p) == PlayerSlots(init, p) + (if p in tokens[n - 1] then [n - 1] else []);
      forall k | 0 <= k < n - 1 ensures init[k] == tokens[k] { }
    }
  }

  /** The token-slot scan lists the slots in ascending order. */
  lemma {:induction false} PlayerSlotsAscending(tokens: seq<set<int>>, p: int)
    ensures Ascending(PlayerSlots(tokens, p))
  {
    if tokens != [] {
      var n := |tokens|;
      var init := tokens[..n - 1];
      var before := PlayerSlots(init, p);
      PlayerSlotsAscending(init, p);
      PlayerSlotsMembers(init, p);
      forall i | 0 <= i < |before| ensures before[i] < n - 1 {
        assert before[i] in before;
      }
    }
  }

  /** The token-slot scan lists one slot per token of `p`. */
  lemma {:induction false} PlayerSlotsCount(tokens: seq<set<int>>, p: int)
    ensures |PlayerSlots(tokens, p)| == TokenCount(tokens, p)
  {
    if tokens != [] {
      PlayerSlotsCount(tokens[..|tokens| - 1], p);
    }
  }

  /** The token-slot scan lists exactly the slots holding `p`, ascending, one per token. */
  lemma PlayerSlotsSpec(tokens: seq<set<int>>, p: int)
    ensures Ascending(PlayerSlots(tokens, p))
    ensures forall k :: k in PlayerSlots(tokens, p) <==> 0 <= k < |tokens| && p in tokens[k]
    ensures |PlayerSlots(tokens, p)| == TokenCount(tokens, p)
  {
    PlayerSlotsMembers(tokens, p);
    PlayerSlotsAscending(tokens, p);
    PlayerSlotsCount(tokens, p);
  }

  /** Counting over a prefix of the slots never gives more than counting over all of them. */
  lemma {:induction false} TokenCountPrefix(tokens: seq<set<int>>, p: int, i: nat)
    requires i <= |tokens|
    ensures TokenCount(tokens[..i], p) <= TokenCount(tokens, p)
  {
    if i < |tokens| {
      var init := tokens[..|tokens| - 1];
      assert init[..i] == tokens[..i];
      TokenCountPrefix(init, p, i);
    } else {
      assert tokens[..i] == tokens;
    }
  }

  /** Replacing one slot's token set changes a player's count by that slot's contribution only. */
  lemma {:induction false} TokenCountUpdate(tokens: seq<set<int>>, i: int, t: set<int>, p: int)
    requires 0 <= i < |tokens|
    ensures TokenCount(tokens[i := t], p) ==
            TokenCount(tokens, p) - (if p in tokens[i] then 1 else 0) + (if p in t then 1 else 0)
  {
    var n := |tokens|;
    if i == n - 1 {
      assert tokens[i := t][..n - 1] == tokens[..n - 1];
    } else {
      assert tokens[i := t][..n - 1] == tokens[..n - 1][i := t];
      TokenCountUpdate(tokens[..n - 1], i, t, p);
    }
  }

  /** With no token of `p` anywhere, its count is zero. */
  lemma {:induction false} TokenCountAbsent(tokens: seq<set<int>>, p: int)
    requires forall s :: 0 <= s < |tokens| ==> p !in tokens[s]
    ensures TokenCount(tokens, p) == 0
  {
    if tokens != [] {
      TokenCountAbsent(tokens[..|tokens| - 1], p);
    }
  }

  /** Clearing one slot's tokens keeps both token invariants. */
  lemma ClearSlotKeepsTokenInvariants(cards: seq<Option<int>>, tokens: seq<set<int>>, featureSize: nat, s: int)
    requires TokensOnCards(cards, tokens) && TokensBounded(tokens, featureSize)
    requires 0 <= s < |tokens|
    ensures TokensOnCards(cards[s := None], tokens[s := {}])
    ensures TokensBounded(tokens[s := {}], featureSize)
  {
    var cleared := tokens[s := {}];
    forall p ensures TokenCount(cleared, p) <= featureSize {
      TokenCountUpdate(tokens, s, {}, p);
    }
  }

  /**
   * Placing a token succeeds exactly when the slot holds a card and the player
   * is below the limit; it then adds the player to that slot and keeps the
   * token invariants.
   */
  lemma PlaceTokenSpec(cards: seq<Option<int>>, tokens: seq<set<int>>, featureSize: nat, p: int, s: int)
    requires TokensOnCards(cards, tokens) && TokensBounded(tokens, featureSize)
    requires 0 <= s < |tokens|
    ensures var r := PlaceToken(cards, tokens, featureSize, p, s);
      && (r.ok <==> cards[s].Some? && TokenCount(tokens, p) < featureSize)
      && (r.ok ==> r.tokens == tokens[s := tokens[s] + {p}])
      && (!r.ok ==> r.tokens == tokens)
      && TokensOnCards(cards, r.tokens) && TokensBounded(r.tokens, featureSize)
  {
    var r := PlaceToken(cards, tokens, featureSize, p, s);
    assert TokenCount(tokens, p) <= featureSize;
    if r.ok {
      forall q ensures TokenCount(r.tokens, q) <= featureSize {
        TokenCountUpdate(tokens, s, tokens[s] + {p}, q);
      }
    }
  }

  /**
   * Removing a token succeeds exactly when the slot holds a card; it then
   * takes the player off that slot and keeps the token invariants.
   */
  lemma RemoveTokenSpec(cards: seq<Option<int>>, tokens: seq<set<int>>, featureSize: nat, p: int, s: int)
    requires TokensOnCards(cards, tokens) && TokensBounded(tokens, featureSize)
    requires 0 <= s < |tokens|
    ensures var r := RemoveToken(cards, tokens, p, s);
      && (r.ok <==> cards[s].Some?)
      && (r.ok ==> r.tokens == tokens[s := tokens[s] - {p}])
      && (!r.ok ==> r.tokens == tokens)
      && TokensOnCards(cards, r.tokens) && TokensBounded(r.tokens, featureSize)
  {
    var r := RemoveToken(cards, tokens, p, s);
    if r.ok {
      forall q ensures TokenCount(r.tokens, q) <= featureSize {
        TokenCountUpdate(tokens, s, tokens[s] - {p}, q);
      }
    }
  }

  /** Toggling keeps the token invariants. */
  lemma ToggleTokenKeepsInvariants(cards: seq<Option<int>>, tokens: seq<set<int>>, featureSize: nat, p: int, s: int)
    requires TokensOnCards(cards, tokens) && TokensBounded(tokens, featureSize)
    requires 0 <= s < |tokens|
    ensures var r := ToggleToken(cards, tokens, featureSize, p, s);
      TokensOnCards(cards, r.tokens) && TokensBounded(r.tokens, featureSize)
  {
    if p in tokens[s] {
      RemoveTokenSpec(cards, tokens, featureSize, p, s);
    } else {
      PlaceTokenSpec(cards, tokens, featureSize, p, s);
    }
  }

  /** Toggling the same token twice on a slot that holds a card restores the token sets. */
  lemma ToggleTwice(cards: seq<Option<int>>, tokens: seq<set<int>>, featureSize: nat, p: int, s: int)
    requires |cards| == |tokens| && 0 <= s < |tokens| && cards[s].Some?
    requires TokenCount(tokens, p) <= featureSize
    ensures var once := ToggleToken(cards, tokens, featureSize, p, s);
      ToggleToken(cards, once.tokens, featureSize, p, s).tokens == tokens
  {
    var once := ToggleToken(cards, tokens, featureSize, p, s);
    if p in tokens[s] {
      TokenCountUpdate(tokens, s, tokens[s] - {p}, p);
      assert (tokens[s] - {p}) + {p} == tokens[s];
      assert once.tokens[s := tokens[s]] == tokens;
    } else if once.ok {
      assert (tokens[s] + {p}) - {p} == tokens[s];
      assert once.tokens[s := tokens[s]] == tokens;
    }
  }

  /**
   * A player at the limit submits its token slots unpadded, and every one of
   * them holds at least the player's own token.
   */
  lemma FullHandSlots(tokens: seq<set<int>>, featureSize: nat, p: int)
    requires TokenCount(tokens, p) == featureSize
    ensures |PlayerSlots(tokens, p)| == featureSize
    ensures Padded(PlayerSlots(tokens, p), featureSize) == PlayerSlots(tokens, p)
    ensures forall i :: 0 <= i < featureSize ==>
      0 <= PlayerSlots(tokens, p)[i] < |tokens| && tokens[PlayerSlots(tokens, p)[i]] != {}
  {
    PlayerSlotsSpec(tokens, p);
    forall i | 0 <= i < featureSize
      ensures 0 <= PlayerSlots(tokens, p)[i] < |tokens| && tokens[PlayerSlots(tokens, p)[i]] != {}
    {
      assert PlayerSlots(tokens, p)[i] in PlayerSlots(tokens, p);
    }
  }

  /** `after` is `before` with at most some empty slots filled: no occupied slot changed. */
  ghost predicate KeepsOccupied(before: seq<Option<int>>, after: seq<Option<int>>)
  {
    |before| == |after| &&
    forall s :: 0 <= s < |before| && before[s].Some? ==> after[s] == before[s]
  }

  /** Filling a slot that is still empty keeps every originally occupied slot. */
  lemma FillKeepsOccupied(before: seq<Option<int>>, cards: seq<Option<int>>, slot: int, v: Option<int>)
    requires KeepsOccupied(before, cards) && 0 <= slot < |cards| && cards[slot].None?
    ensures KeepsOccupied(before, cards[slot := v])
  {
  }

  /** Placing a card into an empty slot keeps the slot/card bijection. */
  lemma PlaceCardKeepsBijection(slotToCard: seq<Option<int>>, cardToSlot: seq<Option<int>>, card: int, slot: int)
    requires Bijective(slotToCard, cardToSlot)
    requires 0 <= slot < |slotToCard| && 0 <= card < |cardToSlot|
    requires slotToCard[slot].None? && cardToSlot[card].None?
    ensures Bijective(slotToCard[slot := Some(card)], cardToSlot[card := Some(slot)])
  {
  }

  /** Emptying an occupied slot and forgetting its card keeps the bijection. */
  lemma RemoveCardKeepsBijection(slotToCard: seq<Option<int>>, cardToSlot: seq<Option<int>>, slot: int)
    requires Bijective(slotToCard, cardToSlot)
    requires 0 <= slot < |slotToCard| && slotToCard[slot].Some?
    ensures Bijective(slotToCard[slot := None], cardToSlot[slotToCard[slot].value := None])
  {
  }

  /** The card held by one slot, as a multiset of at most one element. */
  function SlotCard(o: Option<int>): multiset<int>
  {
    if o.Some? then multiset{o.value} else multiset{}
  }

  /** The multiset of board cards has one element per occupied slot. */
  lemma {:induction false} BoardCardsSize(cards: seq<Option<int>>)
    ensures |BoardCards(cards)| == CardCount(cards)
  {
    if cards != [] {
      BoardCardsSize(cards[..|cards| - 1]);
    }
  }

  /** A board with no card counted has every slot empty. */
  lemma {:induction false} CardCountZero(cards: seq<Option<int>>)
    ensures CardCount(cards) == 0 <==> forall s :: 0 <= s < |cards| ==> cards[s].None?
  {
    if cards != [] {
      var init := cards[..|cards| - 1];
      CardCountZero(init);
      forall k | 0 <= k < |init| ensures init[k] == cards[k] { }
    }
  }

  /** Clearing an occupied slot lowers the card count by one. */
  lemma {:induction false} ClearCardCount(cards: seq<Option<int>>, slot: int)
    requires 0 <= slot < |cards| && cards[slot].Some?
    ensures CardCount(cards[slot := None]) + 1 == CardCount(cards)
  {
    var n := |cards|;
    var init, cleared := cards[..n - 1], cards[slot := None];
    if slot == n - 1 {
      assert cleared[..n - 1] == init;
    } else {
      assert cleared[..n - 1] == init[slot := None];
      ClearCardCount(init, slot);
    }
  }
}
