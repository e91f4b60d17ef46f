# Qualified games, modelled in Dafny

`find_qualified_games` (`game_finder.py`) reads a list of shot records. Each
record holds one player's two-point, three-point and free-throw attempts and
makes in one game. Among the games with at least one record that reaches a
True Shooting percentage of `true_shooting_cutoff`, the routine returns the IDs
of those with at least `player_count` such records. The list runs from the most
recent game to the least recent one.

The model has three modules:

- `Shooting` (`shooting.dfy`) holds the record and date values and the nested
  helper `calculate_true_shooting_percentage`. The helper is a pure function:
  0 when nothing was attempted, otherwise `(fgm + ftm) / (fga + fta) * 100`.
  Lemmas tie the resulting comparison with the cutoff to the integer test
  `made * 100 >= cutoff * attempts`.
- `DateSort` (`date_sort.dfy`) holds the `list.sort(key=..., reverse=True)`
  call. `SortByDate` is the reference: a stable, newest-first insertion sort on
  sequences. It is proved a permutation, newest-first, stable and free of
  repetitions. `SortInPlace` sorts an `array` in place and is proved to produce
  exactly `SortByDate` of its old contents.
- `GameFinder` (`game_finder.dfy`) holds the routine itself. `FindQualifiedGames`
  is a method with the same loop as the source. The `game_player_count`
  dictionary becomes a `map` plus a sequence that records the order in which
  keys were inserted. The `game_dates` dictionary becomes a `map`. The
  comprehension and the in-place sort follow the loop. The loop invariants
  state that after `i` records, the three variables equal reference functions
  (`QualifyingOrder`, `QualifyingCounts`, `GameDates`) of `records[..i]`. The
  method's postcondition says the result is `QualifiedGames(records, ...)`.
  The lemmas prove the promised properties about that function: which games
  are listed, newest first, no repetitions, stable order for ties, only games
  from the input, and the worked example.

Inputs are modelled as follows:

- A record is a datatype with the nine keys of the input dictionaries. The shot
  counts are `nat`: the model assumes that shot tallies cannot be negative. The
  docstring only promises that they are integers.
- `gameDate` is already parsed into `Date(year, month, day)`. Dates are compared
  as `datetime` values are: year, then month, then day.
- The cutoff and player count are `nat`.
- The percentage is an exact `real`.

A game enters `game_player_count` only when one of its records qualifies
(`game_finder.py:35-36`). The comprehension iterates over that dictionary's
keys, so a game with no qualifying record is never listed, not even when
`player_count` is 0. The docstring reads "at least `player_count` players",
which holds vacuously for such a game when `player_count` is 0. The model
follows the code: `QualifiedGamesMembers` states the exact condition, and
`PlayerCountZeroSkipsGame` exhibits an input where the game is left out.

## Model

| member | source | states |
|---|---|---|
| Shooting.TrueShootingPercentage | game_finder.py:16-19 | The percentage is never negative, and it is 0 when nothing was attempted. |
| Shooting.PercentageScalesWithAttempts | game_finder.py:19 | With attempts, percentage × attempts = 100 × made shots, so the division is exact. |
| Shooting.ZeroAttemptsQualifiesIffZeroCutoff | game_finder.py:17-18 | A record with no attempts reaches the cutoff exactly when the cutoff is 0. |
| Shooting.QualifiesIffCrossMultiplied | game_finder.py:33-35 | With attempts, `ts_percentage >= cutoff` holds iff `made * 100 >= cutoff * attempts` (both directions). |
| Shooting.AllMadeQualifies | game_finder.py:19 | Making every attempt gives 100%, which reaches any cutoff up to 100. |
| Shooting.NoneMadeMisses | game_finder.py:19 | Making nothing misses every positive cutoff. |
| DateSort.Insert | game_finder.py:48 | Inserting one dated game lengthens the sequence by one and keeps every game dated. |
| DateSort.SortByDate | game_finder.py:48 | The sort keeps the length and keeps every game dated. |
| DateSort.InsertPermutes | game_finder.py:48 | Inserting adds exactly the new game to the multiset. |
| DateSort.SortByDatePermutes | game_finder.py:48 | The sorted list is a permutation of its input. |
| DateSort.InsertMembers | game_finder.py:48 | After inserting x, the members are the old members plus x. |
| DateSort.SortByDateMembers | game_finder.py:48 | The sorted list has exactly the input's members. |
| DateSort.InsertNewestFirst | game_finder.py:48 | Inserting into a newest-first list keeps it newest first. |
| DateSort.SortByDateNewestFirst | game_finder.py:48 | With `reverse=True`, the sorted list never puts an older date before a newer one. |
| DateSort.InsertTiesRanked | game_finder.py:48 | Inserting a game of higher rank keeps equal-date games in increasing rank. |
| DateSort.SortByDateStable | game_finder.py:48 | The sort is stable: games with equal dates keep their input order. |
| DateSort.InsertDistinct | game_finder.py:48 | Inserting a new game into a repetition-free list keeps it repetition-free. |
| DateSort.SortByDateDistinct | game_finder.py:48 | Sorting a repetition-free list keeps it repetition-free. |
| DateSort.InsertAt | game_finder.py:48 | In a newest-first list, the insert goes after the games not older than x and before the older ones. |
| DateSort.InsertInPlace | game_finder.py:48 | Shifting `a[i]` left into the sorted prefix makes `a[..i+1]` equal to `Insert` of the old prefix and the old `a[i]`, and leaves `a[i+1..]` unchanged. |
| DateSort.SortInPlace | game_finder.py:48 | Sorting the array in place leaves exactly `SortByDate` of its old contents. |
| GameFinder.QualCount | game_finder.py:35-36 | A game's count of qualifying records is at most the number of records. |
| GameFinder.FirstRecord | game_finder.py:38-39 | The index is the first record of the game, or the length when the game has none. |
| GameFinder.FirstQualifying | game_finder.py:35-36 | The index is the first qualifying record of the game, or the length when the game has none. |
| GameFinder.Select | game_finder.py:42-45 | The comprehension keeps exactly the games of the dictionary whose count is at least `player_count` (both directions). |
| GameFinder.QualCountAppend | game_finder.py:35-36 | One more record raises its game's count by one exactly when the record qualifies. |
| GameFinder.FirstRecordAppend | game_finder.py:38-39 | Appending records does not move a game's first record. |
| GameFinder.FirstQualifyingAppend | game_finder.py:35-36 | One more record makes a game's first qualifying record only if the game had none. |
| GameFinder.QualCountPositive | game_finder.py:35-36 | A game's count is positive iff the game has a qualifying record. |
| GameFinder.QualifyingOrderMembers | game_finder.py:35-36 | The keys of `game_player_count` are exactly the games with a qualifying record. |
| GameFinder.QualifyingGamesHaveDates | game_finder.py:35-39 | Every key of `game_player_count` also has an entry in `game_dates`. |
| GameFinder.QualifyingOrderRanked | game_finder.py:36 | Dictionary keys are in the order of each game's first qualifying record, which is insertion order. |
| GameFinder.QualifyingCountsAppend | game_finder.py:35-36 | After one more qualifying record, its game's count is one more, or 1 if the game is new; a non-qualifying record changes nothing. |
| GameFinder.GameIdsAppend | game_finder.py:25-26 | One more record adds its game ID to the set of game IDs. |
| GameFinder.GameDateAppend | game_finder.py:38-39 | After one more record, a game's date is the old date if one was stored, otherwise the new record's date. |
| GameFinder.GameDatesAppend | game_finder.py:38-39 | One more record stores its date only when its game has no date yet. |
| GameFinder.FindQualifiedGames | game_finder.py:13-50 | The loop, the comprehension and the in-place sort return exactly `QualifiedGames(records, cutoff, player_count)`. |
| GameFinder.SelectRanked | game_finder.py:42-45 | The comprehension keeps the dictionary's order. |
| GameFinder.QualifiedGamesMembers | game_finder.py:35-45 | A game is listed iff it has at least one qualifying record and at least `player_count` of them. |
| GameFinder.NoQualifierNotListed | game_finder.py:35-45 | A game with no qualifying record is never listed, for any `player_count`. |
| GameFinder.QualifiedGamesFromInput | game_finder.py:25-45 | Every listed game has a record in the input. |
| GameFinder.QualifiedGamesDistinct | game_finder.py:42-48 | The result lists each game at most once. |
| GameFinder.QualifiedGamesNewestFirst | game_finder.py:47-48 | Every listed game has a date, and the list runs from most to least recent. |
| GameFinder.QualifiedGamesTies | game_finder.py:35-48 | Listed games with the same date are in the order in which they first got a qualifying record. |
| GameFinder.GameDatesFirstRecord | game_finder.py:38-39 | A game is sorted by the date of its first record; later records never change it. |
| GameFinder.QualifiedGamesBound | game_finder.py:42-50 | The list is no longer than the number of distinct game IDs in the input. |
| GameFinder.DistinctBound | game_finder.py:42-45 | A repetition-free list drawn from a set is no longer than the set. |
| GameFinder.EmptyInputNoGames | game_finder.py:25-50 | No records give an empty list for every cutoff and player count. |
| GameFinder.PlayerCountZeroSkipsGame | game_finder.py:35-45 | With `player_count` 0, a game whose only record has no attempts is in the input but not in the list (cutoff 50). |
| GameFinder.TwoGameTallies | game_finder.py:25-36 | For two records of one game (one qualifying) then one qualifying record of another game, both games get count 1, in that order. |
| GameFinder.TwoGameQualifiedGames | game_finder.py:13-50 | In that situation, with the second game the more recent, player count 1 lists `[second, first]` and player count 2 lists nothing. |
| GameFinder.ExampleQualifiedGames | game_finder.py:13-50 | Example: game 1 (10 Jan 2024; 5/5 and 0/10) and game 2 (1 Feb 2024; 4/4) with cutoff 50 give `[2, 1]` for player count 1 and `[]` for player count 2. |

## Left out

- The percentage is computed in exact `real` arithmetic, not IEEE-754 doubles. Python computes `(fgm + ftm) / (fga + fta) * 100` with two roundings. For example, 57 made out of 100 gives `56.99999999999999`, so a record at exactly the cutoff can fail in Python but qualifies in the model. Python's `int / int` also raises `OverflowError` when the quotient does not fit in a double (for example `10**400 / 1`); the model has no such error path.
- `datetime.strptime(entry['gameDate'], '%m/%d/%Y')` is not modelled. Dates arrive already parsed, and the model does not check that a date is a real calendar date. A malformed date string raises `ValueError` in the source; the model has no such path.
- Missing dictionary keys (`KeyError`) and values of the wrong type (`TypeError`) are not modelled. Records are typed values.
- The unused `player_id` lookup (`game_finder.py:27`) has no effect on the result and is not modelled beyond the `playerID` field.
- Timsort is not modelled. A stable insertion sort stands in for it. Every stable sort by the same key produces the same list, so the result is the same; the comparison count and the temporary storage are not modelled.
- Negative shot counts are not modelled. Python accepts them: for example `fga = 1, fta = -1` takes the zero-attempts branch (`game_finder.py:17`) and gives 0, and a negative denominator gives a negative percentage. The model's counts are `nat`, so `Shooting.TrueShootingPercentage` and the lemmas built on it say nothing about such records.
- Python's integer additions are unbounded, like Dafny's `int`, so the sums of shot counts cannot overflow.
