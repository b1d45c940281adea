/** What the statistics mean: recording a whole history of finished games,
    one `RecordResult` per game starting from fresh statistics, yields
    counters that are described directly in terms of that history. */
module StatisticsHistory {
  import opened LocalStorage

  /** One finished game as reported to the statistics store. */
  datatype Outcome = Outcome(won: bool, guessCount: int)

  /** Statistics after recording every game of `h`, oldest first. */
  function Replay(h: seq<Outcome>): (r: Statistics)
    ensures r.gamesPlayed == |h|
  {
    if h == [] then DefaultStatistics
    else RecordResult(Replay(h[..|h| - 1]), h[|h| - 1].won, h[|h| - 1].guessCount)
  }

  /** Number of won games in `h`. */
  function Wins(h: seq<Outcome>): nat
  {
    if h == [] then 0
    else Wins(h[..|h| - 1]) + (if h[|h| - 1].won then 1 else 0)
  }

  /** Number of games of `h` won with exactly `g` guesses. */
  function WinsWith(h: seq<Outcome>, g: int): nat
  {
    if h == [] then 0
    else WinsWith(h[..|h| - 1], g) + (if h[|h| - 1].won && h[|h| - 1].guessCount == g then 1 else 0)
  }

  /** Games `i` up to (not including) `j` were all won. */
  predicate AllWon(h: seq<Outcome>, i: int, j: int)
    requires 0 <= i <= j <= |h|
  {
    forall k :: i <= k < j ==> h[k].won
  }

  /** Current streak: the last `currentStreak` games were won, and the game
      before them (if any) was lost. */
  ghost predicate StreakIsLastRun(h: seq<Outcome>, s: Statistics)
  {
    && 0 <= s.currentStreak <= |h|
    && AllWon(h, |h| - s.currentStreak, |h|)
    && (s.currentStreak < |h| ==> !h[|h| - s.currentStreak - 1].won)
  }

  /** Best streak: no run of consecutive wins is longer, and some run is
      exactly that long. */
  ghost predicate MaxIsLongestRun(h: seq<Outcome>, s: Statistics)
  {
    && 0 <= s.maxStreak <= |h|
    && (forall i, j :: 0 <= i <= j <= |h| && AllWon(h, i, j) ==> j - i <= s.maxStreak)
    && (exists i, j :: 0 <= i <= j <= |h| && j - i == s.maxStreak && AllWon(h, i, j))
  }

  /** Distribution: a bucket exists exactly for the guess counts of some win
      and holds the number of wins with that guess count. */
  ghost predicate DistributionCountsWins(h: seq<Outcome>, s: Statistics)
  {
    && (forall g :: g in s.guessDistribution <==> WinsWith(h, g) > 0)
    && (forall g :: g in s.guessDistribution ==> s.guessDistribution[g] == WinsWith(h, g))
  }

  /** The last-run characterisation of the current streak carries over to
      one more game. */
  lemma StreakStep(p: seq<Outcome>, o: Outcome)
    requires StreakIsLastRun(p, Replay(p))
    ensures StreakIsLastRun(p + [o], Replay(p + [o]))
  {
    var h := p + [o];
    assert h[..|h| - 1] == p;
    var c := Replay(p).currentStreak;
    var r := Replay(h);
    if o.won {
      assert r.currentStreak == c + 1;
      forall k | |h| - (c + 1) <= k < |h|
        ensures h[k].won
      {
        if k < |p| {
          assert AllWon(p, |p| - c, |p|);
        }
      }
      if c + 1 < |h| {
        assert h[|h| - (c + 1) - 1] == p[|p| - c - 1];
      }
    } else {
      assert r.currentStreak == 0;
    }
  }

  /** A run of wins ending at the last game is no longer than the current
      streak. */
  lemma RunEndingLastWithinStreak(h: seq<Outcome>, s: Statistics, i: int)
    requires StreakIsLastRun(h, s)
    requires 0 <= i <= |h| && AllWon(h, i, |h|)
    ensures |h| - i <= s.currentStreak
  {
  }

  /** The longest-run characterisation of the best streak carries over to
      one more game. */
  lemma MaxStep(h: seq<Outcome>)
    requires h != []
    requires StreakIsLastRun(h[..|h| - 1], Replay(h[..|h| - 1]))
    requires MaxIsLongestRun(h[..|h| - 1], Replay(h[..|h| - 1]))
    requires StreakIsLastRun(h, Replay(h))
    ensures MaxIsLongestRun(h, Replay(h))
  {
    var p := h[..|h| - 1];
    var r0 := Replay(p);
    var r := Replay(h);
    forall i, j | 0 <= i <= j <= |h| && AllWon(h, i, j)
      ensures j - i <= r.maxStreak
    {
      if j <= |p| {
        assert AllWon(p, i, j) by {
          forall k | i <= k < j ensures p[k].won { assert p[k] == h[k]; }
        }
      } else if i < j {
        assert AllWon(p, i, |p|) by {
          forall k | i <= k < |p| ensures p[k].won { assert p[k] == h[k]; }
        }
        RunEndingLastWithinStreak(p, r0, i);
      }
    }
    if h[|h| - 1].won && r.maxStreak != r0.maxStreak {
      assert AllWon(h, |h| - r.maxStreak, |h|);
    } else {
      var i, j :| 0 <= i <= j <= |p| && j - i == r0.maxStreak && AllWon(p, i, j);
      assert AllWon(h, i, j) by {
        forall k | i <= k < j ensures h[k].won { assert p[k] == h[k]; }
      }
    }
  }

  /** The bucket characterisation carries over to one more game. */
  lemma DistributionStep(h: seq<Outcome>)
    requires h != []
    requires DistributionCountsWins(h[..|h| - 1], Replay(h[..|h| - 1]))
    ensures DistributionCountsWins(h, Replay(h))
  {
  }

  /** Recording a history gives statistics that count its games and wins,
      whose current streak is its final run of wins, whose best streak is
      its longest run of wins, and whose buckets count its wins by guess
      count. */
  lemma {:induction false} ReplayMatchesHistory(h: seq<Outcome>)
    ensures Replay(h).gamesPlayed == |h|
    ensures Replay(h).gamesWon == Wins(h)
    ensures StreakIsLastRun(h, Replay(h))
    ensures MaxIsLongestRun(h, Replay(h))
    ensures DistributionCountsWins(h, Replay(h))
  {
    if h == [] {
      assert AllWon(h, 0, 0);
    } else {
      ReplayMatchesHistory(h[..|h| - 1]);
      assert h == h[..|h| - 1] + [h[|h| - 1]];
      StreakStep(h[..|h| - 1], h[|h| - 1]);
      MaxStep(h);
      DistributionStep(h);
    }
  }

  /** Every history leaves valid statistics behind. */
  lemma {:induction false} ReplayValid(h: seq<Outcome>)
    ensures ValidStatistics(Replay(h))
  {
    if h == [] {
      DefaultStatisticsValid();
    } else {
      ReplayValid(h[..|h| - 1]);
      RecordResultPreservesValid(Replay(h[..|h| - 1]), h[|h| - 1].won, h[|h| - 1].guessCount);
    }
  }
}
