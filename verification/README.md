# Download-statistics aggregator, modelled in Dafny

This project models the two download counters of the NEOVIA graphics-mod
tooling.

- **`DownloadCounter`** (`download_counter.py`) keeps two things:
  - a global download total;
  - a table from game identifier to an entry holding the game's name, its download count, and the times of its first and latest download.

  It supports recording a download, reading the whole state or one game's
  entry, and listing the most-downloaded games.
- **`ModDownloadTracker`** (`download_tracker.py`) uses two tables:
  - an append-only log with one row per download;
  - a per-game stats table.

  SQL recomputes a game's stats row from the log every time a download for
  that game is recorded. The tracker also answers three queries: all rows or
  one game's row, the top N games, and an export summary.

Modules:

- `Common` (`common.dfy`): game identifiers, the `nat` clock, `Option`, and the Python truthiness test `if game_id:`, under which both `None` and `""` mean "every game".
- `Ranking` (`ranking.dfy`): descending sort by a `nat` key.
  - A stable insertion sort, `SortDesc`, models Python's `list.sort(key=…, reverse=True)`.
  - `Ties(xs, key, d)` is the subsequence of elements whose key is `d`. Stability means `SortDesc` leaves every `Ties` sequence unchanged.
  - The module proves that the sorted-and-stable permutation is unique.
- `Counter` (`counter.dfy`): the in-memory counter.
  - The Python dict is an insertion-ordered sequence of `(id, entry)` pairs, so dict order and the stable sort can both be stated.
  - `Replay` runs a sequence of calls from the empty state.
- `Tracker` (`tracker.dfy`): the SQLite tracker.
  - `mod_downloads` is a `seq<Event>` and `mod_stats` a `map<GameId, StatsRow>`.
  - The two SQL sub-queries of `record_download` are functions over the log: `CountFor` for `COUNT(*)` and `MinDateFor` for `MIN(download_date)`.
  - `MaxId` models the AUTOINCREMENT key: a new row gets one more than the largest id so far.
  - The stats row takes its `game_name` from the call's argument and its `last_download` from `CURRENT_TIMESTAMP`. To say what such a row holds in terms of the log alone, the model adds `LatestFor`, the game's most recent log row; the source has no such query.
  - `Consistent(db)` states that every stats row is the fold of the log.
  - The `ORDER BY` queries are methods that pick any game of largest remaining total. SQL does not fix the order of equal totals, and the contracts do not fix it either.

Time is a caller-supplied `nat`. Each call reads the clock once.

## Model

| member | source | states |
|---|---|---|
| Counter.EmptyInv | download_counter.py:27-32 | The state created when no stats file exists has total 0 and no games. It satisfies the counter invariant, and it has no entry for any game. |
| Counter.RecordDownload | download_counter.py:40-55 | Recording adds exactly 1 to the global total and stamps the state with the current time. It adds a table entry only for an unknown game. Every existing key stays at its position, and every other game's entry is unchanged, so no entry is ever removed. |
| Counter.RecordEntry | download_counter.py:46-55 | After recording, the game's entry has one download more. An unknown game is created with 0 and so ends at 1. `game_name` and `first_download` of an existing game are kept. `last_download` becomes the current time. Every other game's lookup result is unchanged. |
| Counter.RecordPreservesInv | download_counter.py:43-55 | Under a clock that does not run backwards, recording preserves the invariant. The invariant: identifiers are distinct, the global total equals the sum of per-game downloads, every count is positive, and `first_download <= last_download`. |
| Counter.ReplayMatchesCalls | download_counter.py:43-55 | After any sequence of calls from the empty state, the global total is the number of calls. Each game's entry is determined by its calls: the name and time of its first call, the time of its last call, and the number of its calls. A game with no calls has no entry. |
| Counter.ReplayInv | download_counter.py:27-32 | Starting from the empty state with a non-decreasing clock, the invariant holds after every sequence of calls. In particular, the global total equals the sum of all games' downloads. |
| Counter.GetStats | download_counter.py:91-95 | With no identifier, or the empty one, the result is the whole state. Otherwise it is the game's entry if and only if the game is in the table; an unknown game gets an empty record, not an error. |
| Counter.TopGames | download_counter.py:97-101 | The result has `min(limit, #games)` entries, in non-increasing order of downloads, drawn from the table as a sub-multiset. Entries with equal downloads keep insertion order, also where the cut falls. No game left out has more downloads than a game that was kept. |
| Counter.TopGamesIsStableSort | download_counter.py:99-101 | Without a binding limit, the result is the unique descending ordering of the table that keeps insertion order among ties. |
| Counter.RecordKeepsFirstOrdered | download_counter.py:46-55 | Under a clock that does not run backwards, recording keeps the table in order of first download. A new game is appended with first download now, and an existing game's first download never moves. |
| Counter.ReplayFirstOrdered | download_counter.py:27-32 | From a fresh start with a clock that does not run backwards, the table is always in order of first download. |
| Counter.TopGamesTiesByFirstDownload | download_counter.py:97-101 | From a fresh start with a clock that does not run backwards, games with equal download counts come out of `get_top_games` in order of first download. |
| Ranking.TiesKeepAscending | download_counter.py:100 | Taking the elements with one key value keeps any ascending order the whole list has. |
| Ranking.SortDescStable | download_counter.py:100 | The descending sort is stable: for every key value, the elements with that key keep their relative order. |
| Ranking.StableSortUnique | download_counter.py:100 | Two sequences that are both sorted descending and hold the same elements in the same order for every key value are equal. |
| Tracker.RecordDownload | download_tracker.py:47-68 | Recording appends exactly one log row, carrying the given game id, game name, mod name, user IP and user agent and dated now. Its id is larger than every earlier id. Earlier rows are unchanged. The stats table gains at most the game's key, and every other game's row is unchanged. |
| Tracker.RecordWritesRow | download_tracker.py:59-68 | The game's new stats row is as follows. Its name is the one given. Its total equals the number of logged rows for the game, which is one more than before. Its latest download is now. Its first download is the minimum date over the game's rows, i.e. the earlier of the old minimum and now. The `COALESCE` fallback never fires. |
| Tracker.RecordPreservesConsistent | download_tracker.py:53-68 | If every stats row was the fold of the log, it still is after recording. The fold means: exactly the games with downloads have a row, the total is the game's count, the first download is its minimum date, and the name and latest download come from its most recent row. |
| Tracker.RecordPreservesWellFormed | download_tracker.py:24-28 | With a clock that does not run backwards, log ids keep increasing strictly and dates never decrease. No date in the log is later than now. |
| Tracker.ReplayConsistent | download_tracker.py:53-68 | Starting from empty tables, after any sequence of downloads the log holds one row per download and the stats table is the fold of the log. |
| Tracker.ReplayLog | download_tracker.py:53-56 | Starting from empty tables, row `i` of the log records request `i`: its game id, game name, mod name, user IP, user agent, and time. |
| Tracker.ReplayWellFormed | download_tracker.py:24-28 | Starting from empty tables with a clock that does not run backwards, log ids increase strictly and dates never decrease. No date is later than the latest request. |
| Tracker.ReplayFirstNotAfterLast | download_tracker.py:59-68 | Starting from empty tables with a clock that does not run backwards, every game's first download is no later than its latest one. |
| Tracker.FirstNotAfterLast | download_tracker.py:65-66 | In a consistent database over a well-formed log, a game's first download is no later than its latest one. |
| Tracker.TotalsNeverDecrease | download_tracker.py:59-68 | In a consistent database, recording never lowers any game's total and never removes a stats row. |
| Tracker.FirstDownloadStable | download_tracker.py:66 | In a consistent database, with a clock that does not run backwards, recording does not move a known game's first download. |
| Tracker.MinDateIsMinimum | download_tracker.py:66 | The value of `MIN(download_date)` is at most every date of the game's rows, and one of those rows carries it. |
| Tracker.OrderedRows | download_tracker.py:99-104 | An `ORDER BY total_downloads DESC LIMIT n` selection returns `min(n, #rows)` distinct stats rows, each as stored, in non-increasing order of total. No row left out has a larger total than a listed one. Without a binding limit, every row is listed. |
| Tracker.GetDownloadStats | download_tracker.py:73-92 | Given an identifier, the result is zero rows for an unknown game and exactly its stored row for a known one. Given no identifier or the empty one, the result is every stats row exactly once, ordered by total descending. |
| Tracker.GetTopDownloadedGames | download_tracker.py:94-109 | The result has `min(limit, #games)` rows, each a stats row projected to (id, name, total), distinct, in descending order of total. No game left out has a larger total than a listed one. |
| Tracker.ExportStats | download_tracker.py:111-129 | The export lists every stats row once, in query order, with its fields carried over. `total_games` is the number of stats rows. `total_downloads` is the sum of their totals, which on a consistent database equals the number of logged downloads. |
| Tracker.ListingSize | download_tracker.py:117 | A listing that holds every stats row once has exactly as many rows as the table. |
| Tracker.ListingTotalsCountLog | download_tracker.py:118 | In a consistent database, the totals of the full listing add up to the length of the download log. |

## Left out

- File and database I/O: reading and writing `download_stats.json`, the SQLite connection, and schema creation are not modelled. The state is a value that is passed in and returned.
- `update_modinfo` (download_counter.py:66-89) is not modelled. It searches the file system, rewrites `modinfo.json` and swallows errors, and none of that feeds back into the counter's state.
- `save_stats` is not modelled beyond its effect on the state: it stamps `last_updated`, and `Counter.RecordDownload` sets `lastUpdated` to the call's time.
- Loading an existing stats file (download_counter.py:19-26) is not modelled. Only the empty initial state is.
- `print_stats` and the console messages in `record_download` are output only.
- Wall-clock text timestamps: `datetime.now().isoformat()` and `CURRENT_TIMESTAMP` are modelled as one `nat` per call. The counter reads the clock four times when it records a new game (download_counter.py:50, 51 and 55, and once more in `save_stats` at line 36), and twice for a known game (lines 55 and 36). The tracker uses `CURRENT_TIMESTAMP` in two statements. All reads within one call are taken to return the same instant.
- Default arguments are not modelled: every call passes them explicitly.
  - A call that omits `limit` (default 10, download_counter.py:97 and download_tracker.py:94) is `Counter.TopGames(s, 10)` or `Tracker.GetTopDownloadedGames(db, 10)`.
  - A call that omits `game_id` (default `None`, download_counter.py:91 and download_tracker.py:73) passes `None` as the query.
- Negative `limit` is not modelled: `limit` is a `nat`. For a negative value, Python's slice would drop entries from the end and SQLite's `LIMIT` would mean no limit.
- Tracker.OrderedRows: the order of rows with equal totals is left open, because SQL's `ORDER BY` does not fix it. Only sortedness, membership and the cut are stated.
- AUTOINCREMENT is modelled as one more than the largest id in the log. This coincides with SQLite's behaviour because the log is never deleted from.
- NULL values for the `NOT NULL` text columns are not modelled. Game ids, names and mod names are plain strings, while user IP and user agent are optional.
- Concurrency is not modelled: each operation is one atomic step.
- The Flask API, the statistics viewer, the mod finder and the demo script are not part of this model.
- In two places a design might expect something other than what the code states. The model follows the code in both:
  - A lookup of an unknown game could be expected to fail with a not-found error. Counter.GetStats instead returns an empty record, as `.get(game_id, {})` does at download_counter.py:94.
  - Games with equal counts are expected to be ordered by first-download time. Counter.TopGames keeps their insertion order instead, because Python's sort is stable (download_counter.py:100). From a fresh start with a clock that never runs backwards, the two orders coincide, and Counter.TopGamesTiesByFirstDownload proves this. They can differ only when the clock runs backwards, or when a loaded stats file lists its games in another order.
