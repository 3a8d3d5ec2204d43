/**
 * Specification of the end-of-game ranking, on the players' scores and ids
 * listed in player order.
 */
module Scoring {

  /** The largest of 0 and every score. */
  function MaxOf(scores: seq<int>): int
  {
    if scores == [] then 0
    else
      var m := MaxOf(scores[..|scores| - 1]);
      if scores[|scores| - 1] > m then scores[|scores| - 1] else m
  }

  /** Number of players whose score is `v`. */
  function CountScore(scores: seq<int>, v: int): nat
  {
    if scores == [] then 0
    else CountScore(scores[..|scores| - 1], v) + (if scores[|scores| - 1] == v then 1 else 0)
  }

  /** Ids of the players whose score is `v`, in player order. */
  function WinnerIds(ids: seq<int>, scores: seq<int>, v: int): seq<int>
    requires |ids| == |scores|
  {
    if scores == [] then []
    else
      WinnerIds(ids[..|ids| - 1], scores[..|scores| - 1], v)
      + (if scores[|scores| - 1] == v then [ids[|ids| - 1]] else [])
  }

  function Reversed(s: seq<int>): seq<int>
  {
    if s == [] then [] else [s[|s| - 1]] + Reversed(s[..|s| - 1])
  }

  /** Reversing a sequence with one more element at the end puts that element first. */
  lemma ReversedSnoc(s: seq<int>, x: int)
    ensures Reversed(s + [x]) == [x] + Reversed(s)
  {
    assert (s + [x])[..|s|] == s;
  }

  /**
   * The ids of the players whose score is `v`, in reverse player order: the
   * order in which a backwards fill of the winners array leaves them.
   */
  function AnnouncedIds(ids: seq<int>, scores: seq<int>, v: int): seq<int>
    requires |ids| == |scores|
  {
    if scores == [] then []
    else
      (if scores[|scores| - 1] == v then [ids[|ids| - 1]] else [])
      + AnnouncedIds(ids[..|ids| - 1], scores[..|scores| - 1], v)
  }

  /**
   * One more player scanned: the count grows by one and the announced list
   * gains that player's id in front exactly when its score is `v`.
   */
  lemma ScanStep(ids: seq<int>, scores: seq<int>, v: int, i: nat)
    requires |ids| == |scores| && i < |scores|
    ensures CountScore(scores[..i + 1], v) == CountScore(scores[..i], v) + (if scores[i] == v then 1 else 0)
    ensures CountScore(scores[..i + 1], v) <= CountScore(scores, v)
    ensures AnnouncedIds(ids[..i + 1], scores[..i + 1], v)
         == (if scores[i] == v then [ids[i]] else []) + AnnouncedIds(ids[..i], scores[..i], v)
  {
    assert scores[..i + 1][..i] == scores[..i];
    assert ids[..i + 1][..i] == ids[..i];
    CountScorePrefix(scores, v, i + 1);
  }

  /** The announced list is the winners list reversed. */
  lemma {:induction false} AnnouncedIdsReversed(ids: seq<int>, scores: seq<int>, v: int)
    requires |ids| == |scores|
    ensures AnnouncedIds(ids, scores, v) == Reversed(WinnerIds(ids, scores, v))
  {
    if scores != [] {
      var n := |scores|;
      var ids', scores' := ids[..n - 1], scores[..n - 1];
      var w' := WinnerIds(ids', scores', v);
      AnnouncedIdsReversed(ids', scores', v);
      var x := if scores[n - 1] == v then [ids[n - 1]] else [];
      assert AnnouncedIds(ids, scores, v) == x + Reversed(w');
      assert WinnerIds(ids, scores, v) == w' + x;
      if scores[n - 1] == v {
        ReversedSnoc(w', ids[n - 1]);
      } else {
        assert w' + x == w';
      }
    }
  }

  /** Writing `x` just before the suffix that starts at n extends that suffix by x in front. */
  lemma PrependSuffix(s: seq<int>, n: int, x: int)
    requires 0 < n <= |s|
    ensures s[n - 1 := x][n - 1..] == [x] + s[n..]
  {
  }

  /** MaxOf is at least 0, bounds every score, and is 0 or some player's score. */
  lemma {:induction false} MaxOfSpec(scores: seq<int>)
    ensures MaxOf(scores) >= 0
    ensures forall i :: 0 <= i < |scores| ==> scores[i] <= MaxOf(scores)
    ensures MaxOf(scores) == 0 || exists i :: 0 <= i < |scores| && scores[i] == MaxOf(scores)
  {
    if scores != [] {
      var init := scores[..|scores| - 1];
      MaxOfSpec(init);
      forall k | 0 <= k < |init| ensures init[k] == scores[k] { }
      if MaxOf(init) != 0 && MaxOf(scores) == MaxOf(init) {
        var i :| 0 <= i < |init| && init[i] == MaxOf(init);
        assert scores[i] == MaxOf(scores);
      }
    }
  }

  /** Counting over a prefix of the players never gives more than counting over all of them. */
  lemma {:induction false} CountScorePrefix(scores: seq<int>, v: int, i: nat)
    requires i <= |scores|
    ensures CountScore(scores[..i], v) <= CountScore(scores, v)
  {
    if i < |scores| {
      var init := scores[..|scores| - 1];
      assert init[..i] == scores[..i];
      CountScorePrefix(init, v, i);
    } else {
      assert scores[..i] == scores;
    }
  }

  /** The winners list has one entry per player with score `v`. */
  lemma {:induction false} WinnerIdsCount(ids: seq<int>, scores: seq<int>, v: int)
    requires |ids| == |scores|
    ensures |WinnerIds(ids, scores, v)| == CountScore(scores, v)
  {
    if scores != [] {
      WinnerIdsCount(ids[..|ids| - 1], scores[..|scores| - 1], v);
    }
  }

  /** The winners list holds exactly the ids of the players with score `v`. */
  lemma {:induction false} WinnerIdsMembers(ids: seq<int>, scores: seq<int>, v: int)
    requires |ids| == |scores|
    ensures forall x :: x in WinnerIds(ids, scores, v) <==>
      exists i :: 0 <= i < |ids| && ids[i] == x && scores[i] == v
  {
    if scores != [] {
      var n := |scores|;
      var ids', scores' := ids[..n - 1], scores[..n - 1];
      WinnerIdsMembers(ids', scores', v);
      var tail := if scores[n - 1] == v then [ids[n - 1]] else [];
      assert WinnerIds(ids, scores, v) == WinnerIds(ids', scores', v) + tail;
      forall x | x in WinnerIds(ids, scores, v)
        ensures exists i :: 0 <= i < |ids| && ids[i] == x && scores[i] == v
      {
        if x in WinnerIds(ids', scores', v) {
          var i :| 0 <= i < |ids'| && ids'[i] == x && scores'[i] == v;
          assert ids[i] == x && scores[i] == v;
        } else {
          assert ids[n - 1] == x && scores[n - 1] == v;
        }
      }
      forall x | exists i :: 0 <= i < |ids| && ids[i] == x && scores[i] == v
        ensures x in WinnerIds(ids, scores, v)
      {
        var i :| 0 <= i < |ids| && ids[i] == x && scores[i] == v;
        if i < n - 1 {
          assert ids'[i] == x && scores'[i] == v;
        }
      }
    }
  }

  /** The winners list holds exactly the ids of the players with score `v`, one per such player. */
  lemma WinnerIdsSpec(ids: seq<int>, scores: seq<int>, v: int)
    requires |ids| == |scores|
    ensures |WinnerIds(ids, scores, v)| == CountScore(scores, v)
    ensures forall x :: x in WinnerIds(ids, scores, v) <==>
      exists i :: 0 <= i < |ids| && ids[i] == x && scores[i] == v
  {
    WinnerIdsCount(ids, scores, v);
    WinnerIdsMembers(ids, scores, v);
  }

  /** Reversal keeps the length and mirrors the positions. */
  lemma {:induction false} ReversedSpec(s: seq<int>)
    ensures |Reversed(s)| == |s|
    ensures forall k :: 0 <= k < |s| ==> Reversed(s)[k] == s[|s| - 1 - k]
  {
    if s != [] {
      ReversedSpec(s[..|s| - 1]);
    }
  }

  /**
   * The announced list (the top-score ids reversed) has one entry per
   * top-score player, each the id of such a player, and is non-empty when
   * there is a player and no score is negative.
   */
  lemma AnnouncedWinnersSpec(ids: seq<int>, scores: seq<int>)
    requires |ids| == |scores|
    ensures var announced := Reversed(WinnerIds(ids, scores, MaxOf(scores)));
      && |announced| == CountScore(scores, MaxOf(scores))
      && (forall k :: 0 <= k < |announced| ==>
            exists i :: 0 <= i < |ids| && ids[i] == announced[k] && scores[i] == MaxOf(scores))
      && (|scores| > 0 && (forall i :: 0 <= i < |scores| ==> scores[i] >= 0) ==> |announced| >= 1)
  {
    var winners := WinnerIds(ids, scores, MaxOf(scores));
    WinnerIdsSpec(ids, scores, MaxOf(scores));
    ReversedSpec(winners);
    forall k | 0 <= k < |winners|
      ensures exists i :: 0 <= i < |ids| && ids[i] == Reversed(winners)[k] && scores[i] == MaxOf(scores)
    {
      assert Reversed(winners)[k] in winners;
    }
    if |scores| > 0 && (forall i :: 0 <= i < |scores| ==> scores[i] >= 0) {
      AtLeastOneWinner(scores);
    }
  }

  /** With at least one player and no negative score, somebody holds the maximum. */
  lemma AtLeastOneWinner(scores: seq<int>)
    requires |scores| > 0
    requires forall i :: 0 <= i < |scores| ==> scores[i] >= 0
    ensures CountScore(scores, MaxOf(scores)) >= 1
  {
    MaxOfSpec(scores);
    var m := MaxOf(scores);
    var ids := seq(|scores|, i => i);
    WinnerIdsSpec(ids, scores, m);
    if m == 0 {
      assert scores[0] == m;
      assert ids[0] == 0;
      assert 0 in WinnerIds(ids, scores, m);
    } else {
      var i :| 0 <= i < |scores| && scores[i] == m;
      assert ids[i] == i;
      assert i in WinnerIds(ids, scores, m);
    }
  }
}
