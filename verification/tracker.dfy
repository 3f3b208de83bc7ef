/** The SQLite-backed download tracker (`ModDownloadTracker` in
    download_tracker.py).

    Two tables: `mod_downloads`, an append-only log with one row per
    download, and `mod_stats`, one row per game (the game identifier is the
    primary key) holding the game's name, its download total and the times of
    its first and latest download. Each row of `mod_stats` is recomputed from
    the log by SQL whenever a download for that game is recorded. Here the
    log is a sequence and `mod_stats` a map keyed by game identifier. */
module Tracker {
  import opened Common
  import Ranking

  /** One row of `mod_downloads`. `id` is the AUTOINCREMENT key;
      `downloadDate` defaults to the current time. */
  datatype Event = Event(
    id: nat,
    gameId: GameId,
    gameName: string,
    modName: string,
    downloadDate: Timestamp,
    userIp: Option<string>,
    userAgent: Option<string>)

  /** One call of `record_download`, with the time it happened. */
  datatype Request = Request(
    gameId: GameId,
    gameName: string,
    modName: string,
    userIp: Option<string>,
    userAgent: Option<string>,
    at: Timestamp)

  /** The request a log row records. */
  function RequestOf(e: Event): Request
  {
    Request(e.gameId, e.gameName, e.modName, e.userIp, e.userAgent, e.downloadDate)
  }

  /** The non-key columns of one `mod_stats` row. */
  datatype StatsRow = StatsRow(
    gameName: string,
    totalDownloads: nat,
    lastDownload: Timestamp,
    firstDownload: Timestamp)

  /** The database: both tables. */
  datatype Db = Db(downloads: seq<Event>, stats: map<GameId, StatsRow>)

  /** A `mod_stats` row as selected, in column order
      `game_id, game_name, total_downloads, last_download, first_download`. */
  datatype StatsRecord = StatsRecord(
    gameId: GameId,
    gameName: string,
    totalDownloads: nat,
    lastDownload: Timestamp,
    firstDownload: Timestamp)

  /** A row of the top-games query: `game_id, game_name, total_downloads`. */
  datatype TopRecord = TopRecord(gameId: GameId, gameName: string, totalDownloads: nat)

  /** The exported document. Each element of `games` carries the five
      selected columns under their own names. */
  datatype Export = Export(
    exportDate: Timestamp,
    totalGames: nat,
    totalDownloads: nat,
    games: seq<StatsRecord>)

  /** Both tables freshly created. */
  function EmptyDb(): Db
  {
    Db([], map[])
  }

  /** SQL `COALESCE(a, b)`. */
  function Coalesce(a: Option<Timestamp>, b: Timestamp): Timestamp
  {
    match a
    case Some(v) => v
    case None => b
  }

  function RecordOf(gameId: GameId, row: StatsRow): StatsRecord
  {
    StatsRecord(gameId, row.gameName, row.totalDownloads, row.lastDownload, row.firstDownload)
  }

  function Project(r: StatsRecord): TopRecord
  {
    TopRecord(r.gameId, r.gameName, r.totalDownloads)
  }

  /** The sort key of both ranking queries. */
  function Total(r: StatsRecord): nat
  {
    r.totalDownloads
  }

  function TopTotal(r: TopRecord): nat
  {
    r.totalDownloads
  }

  /** The game column of a result set, given how to read it from a row. */
  function Ids<R>(rows: seq<R>, id: R -> GameId): (ids: seq<GameId>)
    ensures |ids| == |rows|
    ensures forall i :: 0 <= i < |rows| ==> ids[i] == id(rows[i])
  {
    seq(|rows|, i requires 0 <= i < |rows| => id(rows[i]))
  }

  function RecordId(r: StatsRecord): GameId
  {
    r.gameId
  }

  function TopId(r: TopRecord): GameId
  {
    r.gameId
  }

  // ---------------------------------------------------------------------
  // Queries over the log, as the SQL in `record_download` states them

  /** The largest id the log has used; AUTOINCREMENT hands out one more. */
  function MaxId(log: seq<Event>): (m: nat)
    ensures forall i :: 0 <= i < |log| ==> log[i].id <= m
  {
    if log == [] then 0
    else
      var m := MaxId(log[..|log| - 1]);
      var last := log[|log| - 1].id;
      if last <= m then m else last
  }

  /** `SELECT COUNT(*) FROM mod_downloads WHERE game_id = ?` */
  function CountFor(log: seq<Event>, gameId: GameId): (c: nat)
    ensures c <= |log|
  {
    if log == [] then 0
    else CountFor(log[..|log| - 1], gameId) + (if log[|log| - 1].gameId == gameId then 1 else 0)
  }

  /** `SELECT MIN(download_date) FROM mod_downloads WHERE game_id = ?`,
      which is NULL when the game has no downloads. */
  function MinDateFor(log: seq<Event>, gameId: GameId): (r: Option<Timestamp>)
    ensures r.Some? <==> CountFor(log, gameId) > 0
  {
    if log == [] then None
    else
      var n := |log| - 1;
      var before := MinDateFor(log[..n], gameId);
      if log[n].gameId != gameId then before
      else match before
        case None => Some(log[n].downloadDate)
        case Some(t) => Some(Min(t, log[n].downloadDate))
  }

  /** The game's most recent download. */
  function LatestFor(log: seq<Event>, gameId: GameId): (r: Option<Event>)
    ensures r.Some? <==> CountFor(log, gameId) > 0
  {
    if log == [] then None
    else
      var n := |log| - 1;
      if log[n].gameId == gameId then Some(log[n]) else LatestFor(log[..n], gameId)
  }

  /** A game has a positive count exactly when some log row names it. */
  lemma {:induction false} CountPositive(log: seq<Event>, gameId: GameId)
    ensures CountFor(log, gameId) > 0 <==> exists i :: 0 <= i < |log| && log[i].gameId == gameId
  {
    if log != [] {
      var n := |log| - 1;
      CountPositive(log[..n], gameId);
      if CountFor(log[..n], gameId) > 0 {
        var i :| 0 <= i < n && log[..n][i].gameId == gameId;
        assert log[i] == log[..n][i];
      }
      if exists i :: 0 <= i < |log| && log[i].gameId == gameId {
        var i :| 0 <= i < |log| && log[i].gameId == gameId;
        if i < n {
          assert log[..n][i] == log[i];
        }
      }
    }
  }

  /** MIN really is the minimum: no date of the game is smaller, and one of
      them equals it. */
  lemma {:induction false} MinDateIsMinimum(log: seq<Event>, gameId: GameId)
    requires MinDateFor(log, gameId).Some?
    ensures forall i :: 0 <= i < |log| && log[i].gameId == gameId ==>
              MinDateFor(log, gameId).value <= log[i].downloadDate
    ensures exists i :: 0 <= i < |log| && log[i].gameId == gameId
                        && log[i].downloadDate == MinDateFor(log, gameId).value
  {
    var n := |log| - 1;
    var prefix := log[..n];
    assert forall i :: 0 <= i < n ==> prefix[i] == log[i];
    if MinDateFor(prefix, gameId).Some? {
      MinDateIsMinimum(prefix, gameId);
    } else if log[n].gameId == gameId {
      CountPositive(prefix, gameId);
    }
  }

  /** The latest row of a game is a row of the game that no later row shares. */
  lemma {:induction false} LatestIsLast(log: seq<Event>, gameId: GameId)
    requires LatestFor(log, gameId).Some?
    ensures exists i :: 0 <= i < |log| && log[i] == LatestFor(log, gameId).value
                        && log[i].gameId == gameId
                        && forall j :: i < j < |log| ==> log[j].gameId != gameId
  {
    var n := |log| - 1;
    if log[n].gameId == gameId {
      assert log[n] == LatestFor(log, gameId).value;
    } else {
      var prefix := log[..n];
      LatestIsLast(prefix, gameId);
      var i :| 0 <= i < n && prefix[i] == LatestFor(prefix, gameId).value
               && prefix[i].gameId == gameId
               && forall j :: i < j < n ==> prefix[j].gameId != gameId;
      assert log[i] == prefix[i];
      assert forall j :: i < j < n ==> log[j] == prefix[j];
      assert forall j :: i < j < |log| ==> log[j].gameId != gameId;
    }
  }

  // ---------------------------------------------------------------------
  // record_download

  /** `record_download(game_id, game_name, mod_name, user_ip, user_agent)` at
      time `now`: insert one log row, then INSERT OR REPLACE the game's stats
      row with the name given, the game's download count, the current time
      as its latest download, and as its first download the earliest date in
      its log rows, or the current time if it has none. */
  function RecordDownload(db: Db, gameId: GameId, gameName: string, modName: string,
                          userIp: Option<string>, userAgent: Option<string>,
                          now: Timestamp): (db': Db)
    // exactly one row is appended to the log, carrying the arguments
    ensures |db'.downloads| == |db.downloads| + 1
    ensures db'.downloads[..|db.downloads|] == db.downloads
    ensures RequestOf(db'.downloads[|db.downloads|]) == Request(gameId, gameName, modName, userIp, userAgent, now)
    ensures forall i :: 0 <= i < |db.downloads| ==> db.downloads[i].id < db'.downloads[|db.downloads|].id
    // only the game's stats row is written
    ensures db'.stats.Keys == db.stats.Keys + {gameId}
    ensures forall h :: h in db.stats && h != gameId ==> db'.stats[h] == db.stats[h]
  {
    var e := Event(MaxId(db.downloads) + 1, gameId, gameName, modName, now, userIp, userAgent);
    var log := db.downloads + [e];
    assert log[..|db.downloads|] == db.downloads;
    var row := StatsRow(gameName, CountFor(log, gameId), now, Coalesce(MinDateFor(log, gameId), now));
    Db(log, db.stats[gameId := row])
  }

  /** The row INSERT OR REPLACE writes for the game: the name given, one
      download more than the log held before, the current time as the latest
      download, and as the first download the earliest of the old dates and
      now. The COALESCE fallback never fires, since the game's log rows
      include the one just inserted. */
  lemma RecordWritesRow(db: Db, gameId: GameId, gameName: string, modName: string,
                        userIp: Option<string>, userAgent: Option<string>, now: Timestamp)
    ensures var db' := RecordDownload(db, gameId, gameName, modName, userIp, userAgent, now);
            && gameId in db'.stats
            && db'.stats[gameId].gameName == gameName
            && db'.stats[gameId].totalDownloads == CountFor(db.downloads, gameId) + 1
            && db'.stats[gameId].totalDownloads == CountFor(db'.downloads, gameId)
            && db'.stats[gameId].lastDownload == now
            && MinDateFor(db'.downloads, gameId) == Some(db'.stats[gameId].firstDownload)
            && db'.stats[gameId].firstDownload
               == match MinDateFor(db.downloads, gameId) case Some(t) => Min(t, now) case None => now
  {
    var db' := RecordDownload(db, gameId, gameName, modName, userIp, userAgent, now);
    var e := db'.downloads[|db.downloads|];
    assert db'.downloads == db.downloads + [e];
    CountSnoc(db.downloads, e, gameId);
  }

  // ---------------------------------------------------------------------
  // The stats table as a fold over the log

  /** The stats row of a game is what the log says about it: the number of
      its downloads, the earliest date among them, and the name and date of
      the latest one. */
  ghost predicate RowMatchesLog(log: seq<Event>, gameId: GameId, row: StatsRow)
  {
    && row.totalDownloads == CountFor(log, gameId)
    && MinDateFor(log, gameId) == Some(row.firstDownload)
    && LatestFor(log, gameId).Some?
    && row.gameName == LatestFor(log, gameId).value.gameName
    && row.lastDownload == LatestFor(log, gameId).value.downloadDate
  }

  /** `mod_stats` holds one row for exactly the games that have downloads,
      and each row is the fold of the log. */
  ghost predicate Consistent(db: Db)
  {
    && (forall g :: g in db.stats <==> CountFor(db.downloads, g) > 0)
    && (forall g :: g in db.stats ==> RowMatchesLog(db.downloads, g, db.stats[g]))
  }

  /** Ids strictly increase along the log. */
  ghost predicate IdsIncrease(log: seq<Event>)
  {
    forall i, j :: 0 <= i < j < |log| ==> log[i].id < log[j].id
  }

  /** Ids strictly increase along the log, and dates never decrease. */
  ghost predicate WellFormedLog(log: seq<Event>)
  {
    && IdsIncrease(log)
    && forall i, j :: 0 <= i < j < |log| ==> log[i].downloadDate <= log[j].downloadDate
  }

  lemma EmptyDbConsistent()
    ensures Consistent(EmptyDb()) && WellFormedLog(EmptyDb().downloads)
  {
  }

  lemma CountSnoc(log: seq<Event>, e: Event, h: GameId)
    ensures CountFor(log + [e], h) == CountFor(log, h) + (if e.gameId == h then 1 else 0)
    ensures e.gameId != h ==> MinDateFor(log + [e], h) == MinDateFor(log, h)
    ensures e.gameId != h ==> LatestFor(log + [e], h) == LatestFor(log, h)
    ensures e.gameId == h ==> LatestFor(log + [e], h) == Some(e)
  {
    assert (log + [e])[..|log|] == log;
  }

  /** Recording a download keeps every stats row equal to the fold of the log. */
  lemma RecordPreservesConsistent(db: Db, gameId: GameId, gameName: string, modName: string,
                                  userIp: Option<string>, userAgent: Option<string>, now: Timestamp)
    requires Consistent(db)
    ensures Consistent(RecordDownload(db, gameId, gameName, modName, userIp, userAgent, now))
  {
    var db' := RecordDownload(db, gameId, gameName, modName, userIp, userAgent, now);
    var e := db'.downloads[|db.downloads|];
    assert db'.downloads == db.downloads + [e];
    forall h
      ensures h in db'.stats <==> CountFor(db'.downloads, h) > 0
      ensures h in db'.stats ==> RowMatchesLog(db'.downloads, h, db'.stats[h])
    {
      CountSnoc(db.downloads, e, h);
    }
  }

  /** With a clock that never runs backwards the log stays well formed, and
      no date in it is later than now. */
  lemma RecordPreservesWellFormed(db: Db, gameId: GameId, gameName: string, modName: string,
                                  userIp: Option<string>, userAgent: Option<string>, now: Timestamp)
    requires WellFormedLog(db.downloads)
    requires forall i :: 0 <= i < |db.downloads| ==> db.downloads[i].downloadDate <= now
    ensures var log := RecordDownload(db, gameId, gameName, modName, userIp, userAgent, now).downloads;
            && WellFormedLog(log)
            && forall i :: 0 <= i < |log| ==> log[i].downloadDate <= now
  {
  }

  /** In a consistent database over a well-formed log, every game's first
      download is no later than its latest one. */
  lemma FirstNotAfterLast(db: Db, gameId: GameId)
    requires Consistent(db) && WellFormedLog(db.downloads)
    requires gameId in db.stats
    ensures db.stats[gameId].firstDownload <= db.stats[gameId].lastDownload
  {
    var log := db.downloads;
    MinDateIsMinimum(log, gameId);
    LatestIsLast(log, gameId);
    var first := MinDateFor(log, gameId).value;
    var latest := LatestFor(log, gameId).value;
    var k :| 0 <= k < |log| && log[k].gameId == gameId && log[k].downloadDate == first;
    var i :| 0 <= i < |log| && log[i] == latest && latest.gameId == gameId
             && forall j :: i < j < |log| ==> log[j].gameId != gameId;
    assert k <= i;
  }

  /** A game's total never decreases, and no stats row ever disappears. */
  lemma TotalsNeverDecrease(db: Db, gameId: GameId, gameName: string, modName: string,
                            userIp: Option<string>, userAgent: Option<string>, now: Timestamp, h: GameId)
    requires Consistent(db)
    requires h in db.stats
    ensures var db' := RecordDownload(db, gameId, gameName, modName, userIp, userAgent, now);
            h in db'.stats && db.stats[h].totalDownloads <= db'.stats[h].totalDownloads
  {
  }

  /** A game's first download does not move once recorded, as long as the
      clock does not run backwards. */
  lemma FirstDownloadStable(db: Db, gameId: GameId, gameName: string, modName: string,
                            userIp: Option<string>, userAgent: Option<string>, now: Timestamp)
    requires Consistent(db)
    requires gameId in db.stats
    requires forall i :: 0 <= i < |db.downloads| ==> db.downloads[i].downloadDate <= now
    ensures RecordDownload(db, gameId, gameName, modName, userIp, userAgent, now).stats[gameId].firstDownload
         == db.stats[gameId].firstDownload
  {
    MinDateIsMinimum(db.downloads, gameId);
    var t := MinDateFor(db.downloads, gameId).value;
    var k :| 0 <= k < |db.downloads| && db.downloads[k].gameId == gameId && db.downloads[k].downloadDate == t;
  }

  // ---------------------------------------------------------------------
  // Queries

  /** `rows` lists the whole stats table: each game once, each row as stored. */
  ghost predicate IsListing(stats: map<GameId, StatsRow>, rows: seq<StatsRecord>)
  {
    && Ranking.Distinct(Ids(rows, RecordId))
    && RowsFromTable(stats, rows)
    && (forall g :: g in stats ==> g in Ids(rows, RecordId))
  }

  /** Some game of `rest` has a total no smaller than any other's. */
  lemma {:induction false} MaxExists(stats: map<GameId, StatsRow>, rest: set<GameId>)
    requires rest != {} && rest <= stats.Keys
    ensures exists g :: g in rest && forall h :: h in rest ==> stats[h].totalDownloads <= stats[g].totalDownloads
    decreases rest
  {
    var x :| x in rest;
    if rest != {x} {
      MaxExists(stats, rest - {x});
      var g :| g in rest - {x} && forall h :: h in rest - {x} ==> stats[h].totalDownloads <= stats[g].totalDownloads;
      if stats[g].totalDownloads < stats[x].totalDownloads {
        assert forall h :: h in rest ==> stats[h].totalDownloads <= stats[x].totalDownloads;
      } else {
        assert forall h :: h in rest ==> stats[h].totalDownloads <= stats[g].totalDownloads;
      }
    } else {
      assert forall h :: h in rest ==> h == x;
    }
  }

  /** Every row is the stored row of its game. */
  ghost predicate RowsFromTable(stats: map<GameId, StatsRow>, rows: seq<StatsRecord>)
  {
    forall i :: 0 <= i < |rows| ==> rows[i].gameId in stats && rows[i] == RecordOf(rows[i].gameId, stats[rows[i].gameId])
  }

  /** What is known part-way through an ordered selection: `rows` lists
      distinct games in order, `rest` holds the others, and nothing in `rest`
      outranks anything already listed. */
  ghost predicate Selection(stats: map<GameId, StatsRow>, rows: seq<StatsRecord>, rest: set<GameId>)
  {
    && rest <= stats.Keys
    && |rows| + |rest| == |stats|
    && (forall g :: g in stats ==> (g in rest <==> g !in Ids(rows, RecordId)))
    && Ranking.Distinct(Ids(rows, RecordId))
    && RowsFromTable(stats, rows)
    && Ranking.SortedDesc(rows, Total)
    && (forall g, i :: g in rest && 0 <= i < |rows| ==> stats[g].totalDownloads <= rows[i].totalDownloads)
  }

  /** Listing a game of largest remaining total next keeps the selection in order. */
  lemma SelectionStep(stats: map<GameId, StatsRow>, rows: seq<StatsRecord>, rest: set<GameId>, g: GameId)
    requires Selection(stats, rows, rest)
    requires g in rest && forall h :: h in rest ==> stats[h].totalDownloads <= stats[g].totalDownloads
    ensures Selection(stats, rows + [RecordOf(g, stats[g])], rest - {g})
  {
    var next := RecordOf(g, stats[g]);
    var rows' := rows + [next];
    var rest' := rest - {g};
    assert Ids(rows', RecordId) == Ids(rows, RecordId) + [g];
    assert g !in Ids(rows, RecordId);
    assert |rest'| == |rest| - 1;
    assert Ranking.Distinct(Ids(rows', RecordId)) by {
      forall i, j | 0 <= i < j < |rows'|
        ensures Ids(rows', RecordId)[i] != Ids(rows', RecordId)[j]
      {
        if j == |rows| {
          assert Ids(rows', RecordId)[i] == Ids(rows, RecordId)[i];
        }
      }
    }
    assert RowsFromTable(stats, rows');
    assert Ranking.SortedDesc(rows', Total) by {
      forall i, j | 0 <= i < j < |rows'|
        ensures Total(rows'[i]) >= Total(rows'[j])
      {
        if j == |rows| {
          assert rows'[i] == rows[i];
        }
      }
    }
    assert forall h :: h in stats ==> (h in rest' <==> h !in Ids(rows', RecordId));
    assert forall h, i :: h in rest' && 0 <= i < |rows'| ==> stats[h].totalDownloads <= rows'[i].totalDownloads;
  }

  /** `SELECT ... FROM mod_stats ORDER BY total_downloads DESC LIMIT limit`.
      SQL leaves the order of equal totals open, so each step takes any game
      with the largest remaining total. */
  method OrderedRows(stats: map<GameId, StatsRow>, limit: nat) returns (rows: seq<StatsRecord>)
    ensures |rows| == Min(limit, |stats|)
    ensures Ranking.Distinct(Ids(rows, RecordId))
    ensures RowsFromTable(stats, rows)
    ensures Ranking.SortedDesc(rows, Total)
    // a game left out has no larger total than any game listed
    ensures forall g :: g in stats && g !in Ids(rows, RecordId) ==>
              forall i :: 0 <= i < |rows| ==> stats[g].totalDownloads <= rows[i].totalDownloads
    // without a binding limit every game is listed
    ensures |stats| <= limit ==> IsListing(stats, rows)
  {
    var rest := stats.Keys;
    rows := [];
    while rest != {} && |rows| < limit
      invariant Selection(stats, rows, rest)
      invariant |rows| <= limit
      decreases rest
    {
      MaxExists(stats, rest);
      var g :| g in rest && forall h :: h in rest ==> stats[h].totalDownloads <= stats[g].totalDownloads;
      SelectionStep(stats, rows, rest, g);
      rows := rows + [RecordOf(g, stats[g])];
      rest := rest - {g};
    }
  }

  /** `get_download_stats(game_id)`: the game's row (none for an unknown
      game), or, when no identifier (or the empty one) is given, every row
      ordered by total, largest first. */
  method GetDownloadStats(db: Db, query: Option<GameId>) returns (rows: seq<StatsRecord>)
    ensures SelectsOneGame(query) ==> |rows| == (if query.value in db.stats then 1 else 0)
    ensures SelectsOneGame(query) && query.value in db.stats ==>
              rows[0] == RecordOf(query.value, db.stats[query.value])
    ensures !SelectsOneGame(query) ==> IsListing(db.stats, rows) && Ranking.SortedDesc(rows, Total)
  {
    if SelectsOneGame(query) {
      var g := query.value;
      rows := if g in db.stats then [RecordOf(g, db.stats[g])] else [];
    } else {
      rows := OrderedRows(db.stats, |db.stats|);
    }
  }

  /** `get_top_downloaded_games(limit)`: at most `limit` games, largest total
      first, each as (identifier, name, total). */
  method GetTopDownloadedGames(db: Db, limit: nat) returns (top: seq<TopRecord>)
    ensures |top| == Min(limit, |db.stats|)
    ensures Ranking.Distinct(Ids(top, TopId))
    ensures forall i :: 0 <= i < |top| ==> top[i].gameId in db.stats && top[i] == Project(RecordOf(top[i].gameId, db.stats[top[i].gameId]))
    ensures Ranking.SortedDesc(top, TopTotal)
    ensures forall g :: g in db.stats && g !in Ids(top, TopId) ==>
              forall i :: 0 <= i < |top| ==> db.stats[g].totalDownloads <= top[i].totalDownloads
  {
    var rows := OrderedRows(db.stats, limit);
    top := seq(|rows|, i requires 0 <= i < |rows| => Project(rows[i]));
    assert Ids(top, TopId) == Ids(rows, RecordId);
  }

  /** The sum of the listed totals. */
  function SumTotals(rows: seq<StatsRecord>): nat
  {
    if rows == [] then 0 else rows[0].totalDownloads + SumTotals(rows[1..])
  }

  /** The summary `export_stats_to_json` builds from the ordered rows before
      writing it out. */
  function ExportSummary(rows: seq<StatsRecord>, exportDate: Timestamp): Export
  {
    Export(exportDate, |rows|, SumTotals(rows), rows)
  }

  /** `export_stats_to_json` at time `now`, without the file write. On a
      consistent database the summary counts every game with downloads once
      and adds up to the length of the log. */
  method ExportStats(db: Db, now: Timestamp) returns (e: Export)
    ensures e.exportDate == now
    ensures IsListing(db.stats, e.games) && Ranking.SortedDesc(e.games, Total)
    ensures e.totalGames == |db.stats|
    ensures e.totalDownloads == SumTotals(e.games)
    ensures Consistent(db) ==> e.totalDownloads == |db.downloads|
  {
    var rows := GetDownloadStats(db, None);
    ListingSize(db.stats, rows);
    if Consistent(db) {
      ListingTotalsCountLog(db, rows);
    }
    e := ExportSummary(rows, now);
  }

  /** A listing has one row per stats row. */
  lemma {:induction false} ListingSize(stats: map<GameId, StatsRow>, rows: seq<StatsRecord>)
    requires IsListing(stats, rows)
    ensures |rows| == |stats|
  {
    if rows != [] {
      var g := rows[0].gameId;
      var stats' := stats - {g};
      var rest := rows[1..];
      assert Ids(rest, RecordId) == Ids(rows, RecordId)[1..];
      forall h | h in stats'
        ensures h in Ids(rest, RecordId)
      {
        assert h in Ids(rows, RecordId) && h != Ids(rows, RecordId)[0];
      }
      ListingSize(stats', rest);
      assert stats.Keys == stats'.Keys + {g};
    } else {
      assert stats.Keys == {};
    }
  }

  /** How many rows list game `g`. */
  function Occurrences(rows: seq<StatsRecord>, g: GameId): nat
  {
    if rows == [] then 0 else (if rows[0].gameId == g then 1 else 0) + Occurrences(rows[1..], g)
  }

  /** The sum over the listed games of their download counts in `log`. */
  function SumCounts(rows: seq<StatsRecord>, log: seq<Event>): nat
  {
    if rows == [] then 0 else CountFor(log, rows[0].gameId) + SumCounts(rows[1..], log)
  }

  lemma {:induction false} SumCountsSnoc(rows: seq<StatsRecord>, log: seq<Event>, e: Event)
    ensures SumCounts(rows, log + [e]) == SumCounts(rows, log) + Occurrences(rows, e.gameId)
  {
    if rows != [] {
      CountSnoc(log, e, rows[0].gameId);
      SumCountsSnoc(rows[1..], log, e);
    }
  }

  lemma {:induction false} OccursOnce(rows: seq<StatsRecord>, g: GameId)
    requires Ranking.Distinct(Ids(rows, RecordId)) && g in Ids(rows, RecordId)
    ensures Occurrences(rows, g) == 1
  {
    assert Ids(rows[1..], RecordId) == Ids(rows, RecordId)[1..];
    if rows[0].gameId == g {
      assert g !in Ids(rows[1..], RecordId);
      NotListed(rows[1..], g);
    } else {
      OccursOnce(rows[1..], g);
    }
  }

  lemma {:induction false} NotListed(rows: seq<StatsRecord>, g: GameId)
    requires g !in Ids(rows, RecordId)
    ensures Occurrences(rows, g) == 0
  {
    if rows != [] {
      assert Ids(rows[1..], RecordId) == Ids(rows, RecordId)[1..];
      NotListed(rows[1..], g);
    }
  }

  /** Summed over distinct games that cover every logged download, the
      per-game counts add up to the length of the log. */
  lemma {:induction false} SumCountsIsLogLength(rows: seq<StatsRecord>, log: seq<Event>)
    requires Ranking.Distinct(Ids(rows, RecordId))
    requires forall i :: 0 <= i < |log| ==> log[i].gameId in Ids(rows, RecordId)
    ensures SumCounts(rows, log) == |log|
  {
    if log == [] {
      ZeroCounts(rows, log);
    } else {
      var n := |log| - 1;
      SumCountsIsLogLength(rows, log[..n]);
      assert log == log[..n] + [log[n]];
      SumCountsSnoc(rows, log[..n], log[n]);
      OccursOnce(rows, log[n].gameId);
    }
  }

  lemma {:induction false} ZeroCounts(rows: seq<StatsRecord>, log: seq<Event>)
    requires log == []
    ensures SumCounts(rows, log) == 0
  {
    if rows != [] {
      ZeroCounts(rows[1..], log);
    }
  }

  /** In a consistent database the totals of a full listing add up to the
      number of logged downloads. */
  lemma {:induction false} ListingTotalsCountLog(db: Db, rows: seq<StatsRecord>)
    requires Consistent(db) && IsListing(db.stats, rows)
    ensures SumTotals(rows) == |db.downloads|
  {
    TotalsAreCounts(db, rows);
    forall i | 0 <= i < |db.downloads|
      ensures db.downloads[i].gameId in Ids(rows, RecordId)
    {
      CountPositive(db.downloads, db.downloads[i].gameId);
    }
    SumCountsIsLogLength(rows, db.downloads);
  }

  lemma {:induction false} TotalsAreCounts(db: Db, rows: seq<StatsRecord>)
    requires Consistent(db)
    requires RowsFromTable(db.stats, rows)
    ensures SumTotals(rows) == SumCounts(rows, db.downloads)
  {
    if rows != [] {
      TotalsAreCounts(db, rows[1..]);
    }
  }

  // ---------------------------------------------------------------------
  // From an empty database

  /** The database after `requests`, in order, starting from empty tables. */
  function Replay(requests: seq<Request>): Db
  {
    if requests == [] then EmptyDb()
    else
      var r := requests[|requests| - 1];
      RecordDownload(Replay(requests[..|requests| - 1]), r.gameId, r.gameName, r.modName, r.userIp, r.userAgent, r.at)
  }

  /** From empty tables, the log holds one row per request and the stats
      table is always the fold of the log. */
  lemma {:induction false} ReplayConsistent(requests: seq<Request>)
    ensures |Replay(requests).downloads| == |requests|
    ensures Consistent(Replay(requests))
  {
    if requests == [] {
      EmptyDbConsistent();
    } else {
      var n := |requests| - 1;
      var r := requests[n];
      ReplayConsistent(requests[..n]);
      RecordPreservesConsistent(Replay(requests[..n]), r.gameId, r.gameName, r.modName, r.userIp, r.userAgent, r.at);
    }
  }

  /** The requests arrive with a clock that never runs backwards. */
  ghost predicate Chronological(requests: seq<Request>)
  {
    forall i, j :: 0 <= i < j < |requests| ==> requests[i].at <= requests[j].at
  }

  /** Row `i` of `log` is the one inserted for request `i`, for every `i`. */
  ghost predicate LogCarries(log: seq<Event>, requests: seq<Request>)
  {
    |log| == |requests| && forall i :: 0 <= i < |log| ==> RequestOf(log[i]) == requests[i]
  }

  /** One more request keeps the rows already logged and appends a row
      carrying it. */
  lemma RecordExtendsLog(db: Db, requests: seq<Request>, r: Request)
    requires LogCarries(db.downloads, requests)
    ensures LogCarries(RecordDownload(db, r.gameId, r.gameName, r.modName, r.userIp, r.userAgent, r.at).downloads,
                       requests + [r])
  {
    var log := RecordDownload(db, r.gameId, r.gameName, r.modName, r.userIp, r.userAgent, r.at).downloads;
    forall i | 0 <= i < |db.downloads|
      ensures RequestOf(log[i]) == (requests + [r])[i]
    {
      assert log[i] == log[..|db.downloads|][i];
    }
  }

  /** From empty tables, the log holds one row per request, and row `i` is
      the one inserted for request `i`. */
  lemma {:induction false} ReplayLog(requests: seq<Request>)
    ensures LogCarries(Replay(requests).downloads, requests)
  {
    if requests != [] {
      var n := |requests| - 1;
      ReplayLog(requests[..n]);
      RecordExtendsLog(Replay(requests[..n]), requests[..n], requests[n]);
      assert requests[..n] + [requests[n]] == requests;
    }
  }

  /** The time of the latest request, or 0 before any. */
  function LastAt(requests: seq<Request>): Timestamp
  {
    if requests == [] then 0 else requests[|requests| - 1].at
  }

  /** From empty tables with a clock that never runs backwards, log ids
      strictly increase, dates never decrease, and no date is later than the
      latest request. */
  lemma {:induction false} ReplayWellFormed(requests: seq<Request>)
    requires Chronological(requests)
    ensures WellFormedLog(Replay(requests).downloads)
    ensures forall i :: 0 <= i < |Replay(requests).downloads| ==> Replay(requests).downloads[i].downloadDate <= LastAt(requests)
  {
    if requests != [] {
      var n := |requests| - 1;
      var r := requests[n];
      var prev := Replay(requests[..n]);
      assert Chronological(requests[..n]);
      ReplayWellFormed(requests[..n]);
      assert LastAt(requests[..n]) <= r.at;
      RecordPreservesWellFormed(prev, r.gameId, r.gameName, r.modName, r.userIp, r.userAgent, r.at);
    }
  }

  /** From empty tables with a clock that never runs backwards, every game's
      first download is no later than its latest one. */
  lemma ReplayFirstNotAfterLast(requests: seq<Request>, gameId: GameId)
    requires Chronological(requests)
    requires gameId in Replay(requests).stats
    ensures Replay(requests).stats[gameId].firstDownload <= Replay(requests).stats[gameId].lastDownload
  {
    ReplayConsistent(requests);
    ReplayWellFormed(requests);
    FirstNotAfterLast(Replay(requests), gameId);
  }
}
