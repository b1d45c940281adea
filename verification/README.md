# Radiordle daily-game rules in Dafny

Radiordle is a daily medical-image guessing game. Every player gets the same
puzzle on a given day, sees hints revealed one by one as they guess, and keeps
the current game and lifetime statistics in browser storage. This project
models three pure rules of the game client and proves properties about them:

- **Daily puzzle selection** (`GameLogic`, from `lib/gameLogic.ts`). Instants
  are integer milliseconds. The day number is the floor of the elapsed time
  divided by 86 400 000 ms. The puzzle number is `(day % total) + 1`, where
  `%` is JavaScript's truncating remainder (`JsRem`). That remainder keeps the
  sign of the dividend.
- **Local game-state and statistics store** (`LocalStorage`, from
  `lib/localStorage.ts`). Browser storage is a value `Storage`. It has two
  slots, game state and statistics. Each slot is `Absent`, `Corrupt` (text
  that does not parse) or `Stored(record)`. An `available` flag is false
  where no `window` exists. Whether the browser accepts a write (it can refuse,
  e.g. over quota) is the `writeOk` parameter of the save functions. A stored
  game record keeps `guessResults` optional, because records from older
  versions lack it. `StatisticsHistory` replays a whole sequence of finished
  games. It proves that the counters mean what their names say: the current
  streak is the final run of wins, the best streak is the longest run of wins,
  and the buckets count wins by guess count.
- **Hint reveal and colouring** (`HintDisplay`, from
  `components/GamePage.tsx`). This covers the visible prefix of the hints
  (JavaScript `slice` semantics, including a negative end). Each visible hint
  takes its colour from the verdict of the guess after it, at index + 1. The
  displayed text falls back from hint text to image caption to `Hint n`.
  `SupabaseRecords.Hint` borrows the shape of the hint record.

Two behaviours of the code are worth stating plainly:

- Before the epoch, `getTodaysPuzzleNumber` returns `(day % total) + 1`,
  which is 0 or negative (lib/gameLogic.ts:12). The home page still looks up
  that value as a `puzzle_number` (app/page.tsx:8-9). `PuzzleNumber` states
  the range `[2 - total, 1]` for those days.
- `getStatistics` returns `JSON.parse(stored)` without checking it against
  the declared `Statistics` shape (lib/localStorage.ts:11-17, 81). The model
  only distinguishes text that parses to a statistics record from text that
  does not parse; see "## Left out".

The constant `GameLogic.MaxGuesses` (6) is `MAX_GUESSES` of
lib/gameLogic.ts:1. None of the modelled rules reads it.

## Model

| member | source | states |
|---|---|---|
| GameLogic.JsRem | lib/gameLogic.ts:12 | JavaScript `%`: the remainder has the dividend's sign (or is 0), is smaller in magnitude than the divisor, and differs from the dividend by a multiple of the divisor |
| GameLogic.JsRemUnique | lib/gameLogic.ts:12 | those three properties determine the remainder uniquely |
| GameLogic.JsRemVersusEuclidean | lib/gameLogic.ts:12 | for a positive divisor, the JavaScript remainder equals the Euclidean one for non-negative dividends; for negative ones it is 0 or the Euclidean one minus the divisor |
| GameLogic.DayNumber | lib/gameLogic.ts:3-7 | the day number d satisfies d·86 400 000 ≤ date − epoch < (d+1)·86 400 000 (floor division on integer ms) |
| GameLogic.DayNumberUnique | lib/gameLogic.ts:5-6 | any d with that day window is the day number |
| GameLogic.DayNumberAtEpoch | lib/gameLogic.ts:3-7 | the epoch itself is day 0 |
| GameLogic.DayNumberNextDay | lib/gameLogic.ts:5-6 | adding exactly 86 400 000 ms raises the day number by exactly 1 |
| GameLogic.DayNumberMonotone | lib/gameLogic.ts:5-6 | a later instant never has a smaller day number |
| GameLogic.PuzzleNumber | lib/gameLogic.ts:11-12 | for day ≥ 0 the puzzle is in [1, total]; for day < 0 it is in [2 − total, 1], so 0 and negative puzzle numbers occur |
| GameLogic.TodaysPuzzleNumber | lib/gameLogic.ts:10-13 | on or after the epoch today's puzzle is in [1, total]; before it, in [2 − total, 1] |
| GameLogic.PuzzleNumberPeriodic | lib/gameLogic.ts:12 | for day ≥ 0, days d and d + total get the same puzzle |
| GameLogic.PuzzleNumberNextDay | lib/gameLogic.ts:12 | for day ≥ 0, the next day's puzzle is today's plus one, wrapping from total to 1 |
| GameLogic.PuzzleNumberExamples | lib/gameLogic.ts:12 | with 5 puzzles: day 0 → 1, day 5 → 1, day 6 → 2 |
| GameLogic.PuzzleNumberBeforeEpochExamples | lib/gameLogic.ts:11-12 | with 5 puzzles: day −1 → 0, day −4 → −3, day −5 → 1, while day 4 → 5, so the rotation is not periodic across the epoch |
| GameLogic.PuzzleNumberBeforeEpochRange | lib/gameLogic.ts:11-12 | every value of [2 − total, 1] is the puzzle number of some day before the epoch |
| LocalStorage.Decode | lib/localStorage.ts:35-40 | a record without verdicts reads with an empty verdict list; a record with verdicts keeps them; every other field is kept |
| LocalStorage.DecodeEncode | lib/localStorage.ts:47-55 | reading back what a save serialised gives the saved state |
| LocalStorage.Encode | lib/localStorage.ts:51 | the serialised form `JSON.stringify(state)` always carries the verdict list (never a legacy record) |
| LocalStorage.GetGameState | lib/localStorage.ts:23-45 | a state is returned exactly when storage is available and holds a parsed record for the requested puzzle; that state is for the requested puzzle and is the stored record with a missing verdict list read as empty |
| LocalStorage.SaveGameState | lib/localStorage.ts:47-55 | an accepted save overwrites the game slot with the serialised state; an unavailable or refused save changes nothing; the statistics slot is never touched |
| LocalStorage.GetStatistics | lib/localStorage.ts:58-92 | never fails: the stored record when one parses, else all-zero counters and an empty distribution |
| LocalStorage.SaveStatistics | lib/localStorage.ts:94-102 | an accepted save overwrites the statistics slot; otherwise storage is unchanged; the game slot is never touched |
| LocalStorage.AddWin | lib/localStorage.ts:115 | only bucket guessCount changes; it becomes its old value plus one, or 1 when missing; the key set gains at most that key |
| LocalStorage.RecordResult | lib/localStorage.ts:104-118 | games played +1; on a win, games won and current streak +1, best streak the larger of old best and new current, one more win in the guess-count bucket; on a loss, current streak 0 and all else unchanged |
| LocalStorage.UpdateStatistics | lib/localStorage.ts:104-121 | an accepted update stores RecordResult of the loaded statistics; an unavailable or refused update changes nothing; the game slot is never touched |
| LocalStorage.SaveThenLoadGameState | lib/localStorage.ts:23-55 | saving a state and loading its puzzle gives the state back |
| LocalStorage.StaleGameStateDiscarded | lib/localStorage.ts:33 | after saving the game of puzzle N, loading puzzle N + 1 gives nothing |
| LocalStorage.LegacyGameStateMigrated | lib/localStorage.ts:35-40 | a stored record lacking verdicts loads with verdicts [] and every other field unchanged |
| LocalStorage.SaveThenLoadStatistics | lib/localStorage.ts:58-102 | saving statistics and loading them gives them back |
| LocalStorage.SlotsIndependent | lib/localStorage.ts:19-20 | saving the game never changes the statistics read, and saving statistics never changes the game read |
| LocalStorage.AddWinTotal | lib/localStorage.ts:115 | one more win in a bucket adds exactly 1 to the sum of all buckets |
| LocalStorage.DefaultStatisticsValid | lib/localStorage.ts:71-78 | the zeroed statistics satisfy the statistics invariant |
| LocalStorage.RecordResultPreservesValid | lib/localStorage.ts:107-118 | recording a game keeps 0 ≤ current streak ≤ best streak ≤ wins ≤ games, non-negative buckets, and buckets summing to wins |
| LocalStorage.UpdateStatisticsPreservesValid | lib/localStorage.ts:104-121 | if the stored statistics are valid, they are still valid after an update |
| LocalStorage.FirstWinExample | lib/localStorage.ts:104-121 | a three-guess win on fresh storage stores played 1, won 1, streaks 1 and bucket 3 = 1 |
| StatisticsHistory.ReplayMatchesHistory | lib/localStorage.ts:104-121 | after recording a history: played = its length, won = its wins, current streak = its final run of wins (preceded by a loss or the start), best streak = its longest run of wins, each bucket = its wins with that guess count, and a bucket exists exactly for guess counts that won |
| StatisticsHistory.ReplayValid | lib/localStorage.ts:104-121 | every history of finished games leaves valid statistics |
| HintDisplay.SliceEnd | components/GamePage.tsx:23 | `slice(0, end)` takes min(end, length) for end ≥ 0 and drops -end items from the back for end < 0, never going below 0 |
| HintDisplay.VisibleHints | components/GamePage.tsx:23 | visible hints are a prefix of the hints; none without a game state; min(revealedHints, number of hints) of them when revealedHints ≥ 0 |
| HintDisplay.NextGuessResult | components/GamePage.tsx:101 | the verdict at index + 1 when it exists, otherwise none |
| HintDisplay.StyleFor | components/GamePage.tsx:103-123 | text is black only for a partial verdict; the blue style is used exactly when there is no verdict |
| HintDisplay.DisplayText | components/GamePage.tsx:130-136 | the hint text if non-empty, else the caption if non-empty, else "Hint " followed by index + 1; never empty |
| HintDisplay.RenderHints | components/GamePage.tsx:97-139 | one panel per visible hint, in order, with that hint's display text and the style of the verdict after it |
| HintDisplay.NoStateNoHints | components/GamePage.tsx:23 | with no game state nothing is displayed |
| HintDisplay.RenderedCount | components/GamePage.tsx:23 | with revealedHints ≥ 0, exactly min(revealedHints, number of hints) panels are shown |
| HintDisplay.NegativeRevealCount | components/GamePage.tsx:23 | a negative revealedHints hides that many hints from the end |
| HintDisplay.StyleMapping | components/GamePage.tsx:107-122 | correct → green with white text, partial → yellow with black text, incorrect → red with white text, no verdict → blue with white text |
| HintDisplay.StyleForInjective | components/GamePage.tsx:107-122 | distinct verdicts, or a missing one, never share a style |
| HintDisplay.HintStyledByNextGuess | components/GamePage.tsx:98-101 | the hint at visible index i is coloured by the verdict at i + 1, not i, and is blue when there is none |
| HintDisplay.FirstVerdictNeverShown | components/GamePage.tsx:98-101 | replacing the first guess's verdict changes no panel |
| HintDisplay.NewestHintPending | components/GamePage.tsx:98-122 | while there are no more verdicts than revealed hints, the newest visible hint is blue |
| HintDisplay.PlaceholdersDistinct | components/GamePage.tsx:134-136 | two text-less hints at different positions get different placeholder labels |
| HintDisplay.NatToStringValue | components/GamePage.tsx:135 | the printed hint number reads back as the number |
| HintDisplay.NatToString | components/GamePage.tsx:135 | the hint number is printed as decimal digits without a leading zero; it has one digit exactly below 10 |

## Left out

- The answer matcher (normalising, stop words, verdicts Correct/Partial/Incorrect) lives in the `GameClient` component. That component is not part of this model. Verdicts are an input here.
- `lib/supabase.ts` is a network client with environment-variable checks and is not modelled. Only the shape of its hint record is borrowed.
- `app/page.tsx` and `app/opengraph-image.tsx` are not modelled. They are server rendering, error panels and image generation.
- The rest of `components/GamePage.tsx` is not modelled: layout, images, buttons and React state. Class names are kept as the (background, text colour) pair, not the concatenated class string.
- `console.error` logging on failed reads and writes is not modelled. It has no effect on the returned values.
- Epoch configuration is not modelled. Parsing `NEXT_PUBLIC_GAME_EPOCH` (default `2025-01-01`), time zones and `Date` construction are left out. The epoch and the current instant are integer-millisecond parameters. An unparsable epoch (NaN) is not modelled.
- GameLogic.DayNumber: the source takes `Math.floor` of a floating-point quotient. The model uses exact integer floor division. Rounding of the float quotient up to the next whole day is not modelled.
- GameLogic.PuzzleNumber and GameLogic.TodaysPuzzleNumber: a total of 0 is excluded by the precondition. In JavaScript `x % 0` is NaN, so the source yields NaN for an empty catalogue; NaN is not modelled. A negative total is allowed and behaves like its absolute value, as in JavaScript.
- The source's `updateStatistics` does not range-check the guess count against `MAX_GUESSES`; neither does the model.
- LocalStorage.GetStatistics: `JSON.parse` output of the wrong shape is not modelled. The source returns that output unchecked. The model's `Stored` slot always holds a well-formed statistics record. As a consequence, the model does not show that `updateStatistics` can throw. Stored text `null` makes it throw a TypeError at lib/localStorage.ts:107. A record without `guessDistribution` makes it throw at lib/localStorage.ts:115 on a win. Nothing in `updateStatistics` catches either error.
- LocalStorage.GetGameState: a stored record whose fields have the wrong JSON types is not modelled. JSON `null` is modelled: reading a field of `null` throws, so it is treated as `Corrupt`. An empty stored string also yields nothing, like `Absent` or `Corrupt`.
- LocalStorage.RecordResult: guess counts are integers. JavaScript turns numeric object keys into strings, which is one-to-one on integers. Non-integer counts are not modelled. Counters are unbounded integers, so floating-point overflow past 2^53 is not modelled.
- HintDisplay.VisibleHints: a non-integer `revealedHints`, which `slice` would truncate, is not modelled.
