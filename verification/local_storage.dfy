/** Client-side persistence of the current game and of the player's
    statistics. Browser storage is an explicit value with two slots; reading
    never fails (errors become "no state" or zeroed statistics) and writing
    never raises (a failed write leaves storage as it was). */
module LocalStorage {
  import opened Wrappers

  /** Verdict recorded for one guess. */
  datatype GuessResult = Correct | Partial | Incorrect

  /** The in-memory game state for one puzzle. */
  datatype GameState = GameState(
    puzzleNumber: int,
    guesses: seq<string>,
    guessResults: seq<GuessResult>,
    revealedHints: int,
    isComplete: bool,
    isWon: bool,
    hasPartialMatch: bool)

  /** A game state as it is found after parsing the stored text. Records
      written by older versions of the game have no `guessResults` field. */
  datatype StoredGameState = StoredGameState(
    puzzleNumber: int,
    guesses: seq<string>,
    guessResults: Option<seq<GuessResult>>,
    revealedHints: int,
    isComplete: bool,
    isWon: bool,
    hasPartialMatch: bool)

  /** The player's aggregate statistics; the distribution maps a winning
      guess count to the number of games won with that many guesses. */
  datatype Statistics = Statistics(
    gamesPlayed: int,
    gamesWon: int,
    currentStreak: int,
    maxStreak: int,
    guessDistribution: map<int, int>)

  /** One storage key: nothing stored, text that does not parse to a record,
      or a parsed record. */
  datatype Slot<T> = Absent | Corrupt | Stored(record: T)

  /** Browser storage as seen by the game: `available` is false outside a
      browser (no `window`), where every read falls back and every write is
      skipped. */
  datatype Storage = Storage(
    available: bool,
    gameSlot: Slot<StoredGameState>,
    statsSlot: Slot<Statistics>)

  /** The serialised form written by a save: every field, including the
      verdict list. */
  function Encode(s: GameState): (p: StoredGameState)
    ensures p.guessResults.Some?
  {
    StoredGameState(s.puzzleNumber, s.guesses, Some(s.guessResults),
                    s.revealedHints, s.isComplete, s.isWon, s.hasPartialMatch)
  }

  /** Reading a parsed record back; a missing verdict list becomes empty and
      every other field is kept. */
  function Decode(p: StoredGameState): (s: GameState)
    ensures p.guessResults.None? ==> s.guessResults == []
    ensures p.guessResults.Some? ==> s.guessResults == p.guessResults.value
    ensures s.puzzleNumber == p.puzzleNumber && s.guesses == p.guesses
    ensures s.revealedHints == p.revealedHints && s.isComplete == p.isComplete
    ensures s.isWon == p.isWon && s.hasPartialMatch == p.hasPartialMatch
  {
    GameState(p.puzzleNumber, p.guesses, p.guessResults.GetOr([]),
              p.revealedHints, p.isComplete, p.isWon, p.hasPartialMatch)
  }

  lemma DecodeEncode(s: GameState)
    ensures Decode(Encode(s)) == s
  {
  }

  /** Loads the saved game for `puzzleNumber`; nothing when storage is
      unavailable, empty, unparsable, or holds another puzzle's game. */
  function GetGameState(st: Storage, puzzleNumber: int): (r: Option<GameState>)
    ensures r.Some? <==> st.available && st.gameSlot.Stored?
                         && st.gameSlot.record.puzzleNumber == puzzleNumber
    ensures r.Some? ==> r.value.puzzleNumber == puzzleNumber
    ensures r.Some? ==> r.value == Decode(st.gameSlot.record)
  {
    if !st.available then None
    else match st.gameSlot
      case Absent => None
      case Corrupt => None
      case Stored(p) =>
        if p.puzzleNumber != puzzleNumber then None
        else Some(Decode(p))
  }

  /** Saves the game, overwriting the single game slot. `writeOk` is whether
      the browser accepts the write (it can refuse, e.g. over quota); a
      refused write is swallowed. */
  function SaveGameState(st: Storage, s: GameState, writeOk: bool): (st': Storage)
    ensures st'.available == st.available && st'.statsSlot == st.statsSlot
    ensures st.available && writeOk ==> st'.gameSlot == Stored(Encode(s))
    ensures !(st.available && writeOk) ==> st' == st
  {
    if st.available && writeOk then st.(gameSlot := Stored(Encode(s))) else st
  }

  /** Statistics of a player who has not played yet. */
  const DefaultStatistics := Statistics(0, 0, 0, 0, map[])

  /** Loads the statistics; never fails, zeroed when storage is unavailable,
      empty or unparsable. */
  function GetStatistics(st: Storage): (r: Statistics)
    ensures st.available && st.statsSlot.Stored? ==> r == st.statsSlot.record
    ensures !(st.available && st.statsSlot.Stored?) ==> r == DefaultStatistics
  {
    if !st.available then DefaultStatistics
    else match st.statsSlot
      case Absent => DefaultStatistics
      case Corrupt => DefaultStatistics
      case Stored(stats) => stats
  }

  /** Saves the statistics into their slot; a refused write is swallowed. */
  function SaveStatistics(st: Storage, stats: Statistics, writeOk: bool): (st': Storage)
    ensures st'.available == st.available && st'.gameSlot == st.gameSlot
    ensures st.available && writeOk ==> st'.statsSlot == Stored(stats)
    ensures !(st.available && writeOk) ==> st' == st
  {
    if st.available && writeOk then st.(statsSlot := Stored(stats)) else st
  }

  /** The distribution after one more win with `guessCount` guesses: that
      bucket goes up by one (a missing bucket counts as 0). */
  function AddWin(dist: map<int, int>, guessCount: int): (d: map<int, int>)
    ensures d.Keys == dist.Keys + {guessCount}
    ensures d[guessCount] == (if guessCount in dist then dist[guessCount] else 0) + 1
    ensures forall k :: k in dist && k != guessCount ==> d[k] == dist[k]
  {
    dist[guessCount := (if guessCount in dist then dist[guessCount] else 0) + 1]
  }

  /** The statistics after one finished game. */
  function RecordResult(stats: Statistics, won: bool, guessCount: int): (r: Statistics)
    ensures r.gamesPlayed == stats.gamesPlayed + 1
    ensures won ==> r.gamesWon == stats.gamesWon + 1
    ensures won ==> r.currentStreak == stats.currentStreak + 1
    ensures won ==> r.maxStreak >= stats.maxStreak && r.maxStreak >= r.currentStreak
    ensures won ==> (r.maxStreak == stats.maxStreak || r.maxStreak == r.currentStreak)
    ensures won ==> r.guessDistribution == AddWin(stats.guessDistribution, guessCount)
    ensures !won ==> r.currentStreak == 0
    ensures !won ==> r.gamesWon == stats.gamesWon && r.maxStreak == stats.maxStreak
    ensures !won ==> r.guessDistribution == stats.guessDistribution
  {
    var played := stats.gamesPlayed + 1;
    if won then
      var streak := stats.currentStreak + 1;
      Statistics(played, stats.gamesWon + 1, streak,
                 if stats.maxStreak >= streak then stats.maxStreak else streak,
                 AddWin(stats.guessDistribution, guessCount))
    else
      stats.(gamesPlayed := played, currentStreak := 0)
  }

  /** Loads, records one finished game and saves: the whole read-modify-write. */
  function UpdateStatistics(st: Storage, won: bool, guessCount: int, writeOk: bool): (st': Storage)
    ensures st'.gameSlot == st.gameSlot && st'.available == st.available
    ensures st.available && writeOk ==>
              st'.statsSlot == Stored(RecordResult(GetStatistics(st), won, guessCount))
    ensures !(st.available && writeOk) ==> st' == st
  {
    SaveStatistics(st, RecordResult(GetStatistics(st), won, guessCount), writeOk)
  }

  // ---------------------------------------------------------------------
  // Round trips and the stale-state rule

  /** A successful save followed by a load for the same puzzle gives back
      exactly the saved state. */
  lemma SaveThenLoadGameState(st: Storage, s: GameState)
    requires st.available
    ensures GetGameState(SaveGameState(st, s, true), s.puzzleNumber) == Some(s)
  {
    DecodeEncode(s);
  }

  /** Yesterday's game is never offered for today's puzzle. */
  lemma StaleGameStateDiscarded(st: Storage, s: GameState, writeOk: bool)
    requires st.available && writeOk
    ensures GetGameState(SaveGameState(st, s, writeOk), s.puzzleNumber + 1) == None
  {
  }

  /** A legacy record without verdicts loads with an empty verdict list and
      all other fields as stored. */
  lemma LegacyGameStateMigrated(st: Storage, p: StoredGameState)
    requires st.available && st.gameSlot == Stored(p) && p.guessResults.None?
    ensures GetGameState(st, p.puzzleNumber) ==
              Some(GameState(p.puzzleNumber, p.guesses, [], p.revealedHints,
                             p.isComplete, p.isWon, p.hasPartialMatch))
  {
  }

  /** A successful statistics save followed by a load returns what was saved. */
  lemma SaveThenLoadStatistics(st: Storage, stats: Statistics)
    requires st.available
    ensures GetStatistics(SaveStatistics(st, stats, true)) == stats
  {
  }

  /** The two slots are independent: saving the game never changes the
      statistics read, and saving statistics never changes the game read. */
  lemma SlotsIndependent(st: Storage, s: GameState, stats: Statistics, writeOk: bool, n: int)
    ensures GetStatistics(SaveGameState(st, s, writeOk)) == GetStatistics(st)
    ensures GetGameState(SaveStatistics(st, stats, writeOk), n) == GetGameState(st, n)
  {
  }

  // ---------------------------------------------------------------------
  // The statistics invariant

  /** A non-empty set of keys has an element. */
  lemma NonEmptyHasKey(keys: set<int>)
    requires keys != {}
    ensures exists k :: k in keys
  {
    if forall k :: k !in keys {
      assert false;
    }
  }

  /** Sum of the buckets of `dist` over the keys in `keys`. */
  ghost function BucketSum(dist: map<int, int>, keys: set<int>): int
    requires keys <= dist.Keys
    decreases keys
  {
    if keys == {} then 0
    else
      NonEmptyHasKey(keys);
      var k :| k in keys;
      dist[k] + BucketSum(dist, keys - {k})
  }

  /** Sum of all buckets of a distribution. */
  ghost function DistributionTotal(dist: map<int, int>): int
  {
    BucketSum(dist, dist.Keys)
  }

  /** Any key can be taken out of the sum first. */
  lemma {:induction false} BucketSumRemove(dist: map<int, int>, keys: set<int>, k: int)
    requires keys <= dist.Keys && k in keys
    ensures BucketSum(dist, keys) == dist[k] + BucketSum(dist, keys - {k})
    decreases keys
  {
    var j :| j in keys && BucketSum(dist, keys) == dist[j] + BucketSum(dist, keys - {j});
    if j != k {
      BucketSumRemove(dist, keys - {j}, k);
      BucketSumRemove(dist, keys - {k}, j);
      assert keys - {j} - {k} == keys - {k} - {j};
    }
  }

  /** The sum only depends on the buckets it adds up. */
  lemma {:induction false} BucketSumAgree(d1: map<int, int>, d2: map<int, int>, keys: set<int>)
    requires keys <= d1.Keys && keys <= d2.Keys
    requires forall k :: k in keys ==> d1[k] == d2[k]
    ensures BucketSum(d1, keys) == BucketSum(d2, keys)
    decreases keys
  {
    if keys != {} {
      NonEmptyHasKey(keys);
      var k :| k in keys;
      BucketSumRemove(d1, keys, k);
      BucketSumRemove(d2, keys, k);
      BucketSumAgree(d1, d2, keys - {k});
    }
  }

  /** One more win in a bucket adds exactly one to the total. */
  lemma AddWinTotal(dist: map<int, int>, guessCount: int)
    ensures DistributionTotal(AddWin(dist, guessCount)) == DistributionTotal(dist) + 1
  {
    var d := AddWin(dist, guessCount);
    BucketSumRemove(d, d.Keys, guessCount);
    BucketSumAgree(d, dist, dist.Keys - {guessCount});
    if guessCount in dist {
      assert d.Keys == dist.Keys;
      BucketSumRemove(dist, dist.Keys, guessCount);
    } else {
      assert d.Keys - {guessCount} == dist.Keys - {guessCount} == dist.Keys;
    }
  }

  /** Statistics that some sequence of finished games can produce: counters
      are non-negative, wins never exceed games, streaks never exceed wins,
      the best streak is at least the current one, and the buckets are
      non-negative and add up to the number of wins. */
  ghost predicate ValidStatistics(s: Statistics)
  {
    && 0 <= s.gamesWon <= s.gamesPlayed
    && 0 <= s.currentStreak <= s.maxStreak <= s.gamesWon
    && (forall k :: k in s.guessDistribution ==> s.guessDistribution[k] >= 0)
    && DistributionTotal(s.guessDistribution) == s.gamesWon
  }

  lemma DefaultStatisticsValid()
    ensures ValidStatistics(DefaultStatistics)
  {
  }

  /** Recording a game, won or lost, keeps the statistics valid. */
  lemma RecordResultPreservesValid(stats: Statistics, won: bool, guessCount: int)
    requires ValidStatistics(stats)
    ensures ValidStatistics(RecordResult(stats, won, guessCount))
  {
    if won {
      AddWinTotal(stats.guessDistribution, guessCount);
    }
  }

  /** The stored statistics stay valid across an update, whatever the
      storage situation, provided what was stored was valid. */
  lemma UpdateStatisticsPreservesValid(st: Storage, won: bool, guessCount: int, writeOk: bool)
    requires st.available && st.statsSlot.Stored? ==> ValidStatistics(st.statsSlot.record)
    ensures var st' := UpdateStatistics(st, won, guessCount, writeOk);
            st'.available && st'.statsSlot.Stored? ==> ValidStatistics(st'.statsSlot.record)
  {
    RecordResultPreservesValid(GetStatistics(st), won, guessCount);
  }

  /** The three-guess win from fresh statistics. */
  lemma FirstWinExample(st: Storage)
    requires st.available && st.statsSlot.Absent?
    ensures GetStatistics(UpdateStatistics(st, true, 3, true))
         == Statistics(1, 1, 1, 1, map[3 := 1])
  {
  }
}
