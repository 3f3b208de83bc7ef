/** The in-memory download counter that is mirrored to a JSON document
    (`DownloadCounter` in download_counter.py).

    The document holds a global `total_downloads` and a `games` dictionary
    from game identifier to an entry with the game's display name, its
    download count and the times of its first and latest download. A Python
    dictionary remembers insertion order, so the table is modelled as a
    sequence of (identifier, entry) pairs in the order games were first seen. */
module Counter {
  import opened Common
  import Ranking

  /** One value of the `games` dictionary. */
  datatype GameEntry = GameEntry(
    gameName: string,
    downloads: nat,
    firstDownload: Timestamp,
    lastDownload: Timestamp)

  /** One `(game_id, entry)` pair of `games.items()`. */
  type Item = (GameId, GameEntry)

  /** The whole statistics document. */
  datatype Stats = Stats(totalDownloads: nat, games: seq<Item>, lastUpdated: Timestamp)

  /** What `get_stats` hands back: the whole document, or one game's entry,
      where `None` stands for the empty dictionary returned for an unknown game. */
  datatype StatsView = Whole(stats: Stats) | GameRecord(entry: Option<GameEntry>)

  /** The document `load_stats` builds when no statistics file exists yet. */
  function Empty(now: Timestamp): Stats
  {
    Stats(0, [], now)
  }

  /** The sort key of `get_top_games`. */
  function Downloads(item: Item): nat
  {
    item.1.downloads
  }

  /** Where `gameId` sits in the table: the first index holding it, or the
      table's length when it is absent. */
  function Position(games: seq<Item>, gameId: GameId): (p: nat)
    ensures p <= |games|
    ensures p < |games| ==> games[p].0 == gameId
    ensures forall i :: 0 <= i < p ==> games[i].0 != gameId
  {
    if games == [] then 0
    else if games[0].0 == gameId then 0
    else 1 + Position(games[1..], gameId)
  }

  /** Dictionary lookup, `games.get(game_id)`. */
  function Lookup(games: seq<Item>, gameId: GameId): (r: Option<GameEntry>)
    ensures r.Some? <==> exists i :: 0 <= i < |games| && games[i].0 == gameId
    ensures r.Some? ==> (gameId, r.value) in games
  {
    var p := Position(games, gameId);
    if p < |games| then Some(games[p].1) else None
  }

  /** The sum of the per-game download counts. */
  function SumDownloads(games: seq<Item>): nat
  {
    if games == [] then 0
    else SumDownloads(games[..|games| - 1]) + games[|games| - 1].1.downloads
  }

  /** Dictionary keys are unique. */
  ghost predicate DistinctIds(games: seq<Item>)
  {
    forall i, j :: 0 <= i < j < |games| ==> games[i].0 != games[j].0
  }

  /** What holds of every document built from the empty one by downloads
      recorded with a clock that never runs backwards. */
  ghost predicate Inv(s: Stats)
  {
    && DistinctIds(s.games)
    && s.totalDownloads == SumDownloads(s.games)
    && forall i :: 0 <= i < |s.games| ==>
         && 1 <= s.games[i].1.downloads
         && s.games[i].1.firstDownload <= s.games[i].1.lastDownload <= s.lastUpdated
  }

  /** `record_download(game_id, game_name)` at time `now`: bump the global
      total, create the game's entry with zero downloads if it is new, then
      bump its count and stamp its latest download. Saving the document also
      stamps `last_updated`. */
  function RecordDownload(s: Stats, gameId: GameId, gameName: string, now: Timestamp): (s': Stats)
    ensures s'.totalDownloads == s.totalDownloads + 1
    ensures s'.lastUpdated == now
    // nothing is removed or reordered; a new game goes to the end
    ensures |s'.games| == |s.games| + (if Lookup(s.games, gameId).Some? then 0 else 1)
    ensures forall i :: 0 <= i < |s.games| ==> s'.games[i].0 == s.games[i].0
    ensures forall i :: 0 <= i < |s.games| && s.games[i].0 != gameId ==> s'.games[i] == s.games[i]
  {
    var p := Position(s.games, gameId);
    var games := if p < |s.games| then s.games
                 else s.games + [(gameId, GameEntry(gameName, 0, now, now))];
    var e := games[p].1;
    var games' := games[p := (gameId, e.(downloads := e.downloads + 1, lastDownload := now))];
    Stats(s.totalDownloads + 1, games', now)
  }

  /** The first-occurrence index is determined by what it promises. */
  lemma PositionUnique(games: seq<Item>, gameId: GameId, p: nat)
    requires p <= |games|
    requires p < |games| ==> games[p].0 == gameId
    requires forall i :: 0 <= i < p ==> games[i].0 != gameId
    ensures Position(games, gameId) == p
  {
  }

  /** Lookups of `h` agree on two tables that hold the same keys in the same
      places, except that the longer one may add entries for some other key
      `g`, and whose entries differ at most where the key is `g`. */
  lemma LookupElsewhere(a: seq<Item>, b: seq<Item>, g: GameId, h: GameId)
    requires h != g && |a| <= |b|
    requires forall i :: 0 <= i < |a| ==> b[i].0 == a[i].0
    requires forall i :: 0 <= i < |a| && a[i].0 != g ==> b[i] == a[i]
    requires forall i :: |a| <= i < |b| ==> b[i].0 == g
    ensures Lookup(b, h) == Lookup(a, h)
  {
    var p := Position(a, h);
    if p < |a| {
      PositionUnique(b, h, p);
    } else {
      PositionUnique(b, h, |b|);
    }
  }

  lemma {:induction false} SumDownloadsUpdate(games: seq<Item>, i: nat, item: Item)
    requires i < |games|
    ensures SumDownloads(games[i := item]) + games[i].1.downloads
         == SumDownloads(games) + item.1.downloads
  {
    var n := |games| - 1;
    if i < n {
      assert games[i := item][..n] == games[..n][i := item];
      SumDownloadsUpdate(games[..n], i, item);
    } else {
      assert games[i := item][..n] == games[..n];
    }
  }

  /** The empty document counts no downloads, knows no game, and satisfies
      the invariant. */
  lemma EmptyInv(now: Timestamp)
    ensures Empty(now).totalDownloads == 0
    ensures forall g :: Lookup(Empty(now).games, g).None?
    ensures Inv(Empty(now))
  {
  }

  /** Recording a download keeps the invariant, provided the clock has not
      gone back since the document was last updated: in particular the
      global total stays the sum of the per-game counts, and every game's
      first download is no later than its latest one. */
  lemma RecordPreservesInv(s: Stats, gameId: GameId, gameName: string, now: Timestamp)
    requires Inv(s) && s.lastUpdated <= now
    ensures Inv(RecordDownload(s, gameId, gameName, now))
  {
    var s' := RecordDownload(s, gameId, gameName, now);
    var p := Position(s.games, gameId);
    var games := if p < |s.games| then s.games
                 else s.games + [(gameId, GameEntry(gameName, 0, now, now))];
    if p == |s.games| {
      assert games[..|s.games|] == s.games;
      assert SumDownloads(games) == SumDownloads(s.games);
    }
    SumDownloadsUpdate(games, p, s'.games[p]);
    assert s'.games == games[p := s'.games[p]];
  }

  /** `get_stats(game_id)`: the whole document when no identifier (or the
      empty one) is given, otherwise the game's entry, or the empty
      dictionary when the game is unknown. Nothing is modified. */
  function GetStats(s: Stats, query: Option<GameId>): (v: StatsView)
    ensures !SelectsOneGame(query) ==> v == Whole(s)
    ensures SelectsOneGame(query) ==> v.GameRecord?
    ensures SelectsOneGame(query) ==>
              (v.entry.Some? <==> exists i :: 0 <= i < |s.games| && s.games[i].0 == query.value)
    ensures SelectsOneGame(query) && v.entry.Some? ==> (query.value, v.entry.value) in s.games
  {
    if SelectsOneGame(query) then GameRecord(Lookup(s.games, query.value)) else Whole(s)
  }

  /** `get_top_games(limit)`: the games sorted by download count, largest
      first, with Python's stable sort, cut to the first `limit`. */
  function TopGames(s: Stats, limit: nat): (r: seq<Item>)
    ensures |r| == Min(limit, |s.games|)
    ensures Ranking.SortedDesc(r, Downloads)
    ensures multiset(r) <= multiset(s.games)
    // ties keep insertion order, also where the cut falls among equals
    ensures forall d :: Ranking.Ties(r, Downloads, d) <= Ranking.Ties(s.games, Downloads, d)
    // no game left out has more downloads than a game that made the cut
    ensures forall x, y :: x in s.games && x !in r && y in r ==> Downloads(x) <= Downloads(y)
  {
    var sorted := Ranking.SortDesc(s.games, Downloads);
    var k := Min(limit, |sorted|);
    Ranking.PrefixAndRest(sorted, k);
    Ranking.SameMembers(s.games, sorted);
    forall d
      ensures Ranking.Ties(sorted[..k], Downloads, d) <= Ranking.Ties(s.games, Downloads, d)
    {
      Ranking.TiesOfPrefix(sorted, Downloads, k, d);
      Ranking.SortDescStable(s.games, Downloads, d);
    }
    Ranking.PrefixDominates(sorted, Downloads, k);
    sorted[..k]
  }

  /** With no limit cut, the ranking is exactly the stable descending sort:
      any non-increasing list that keeps the insertion order of equal counts
      and whose tie groups are those of the table is the result. */
  lemma TopGamesIsStableSort(s: Stats, limit: nat, r: seq<Item>)
    requires |s.games| <= limit
    requires Ranking.SortedDesc(r, Downloads)
    requires forall d :: Ranking.Ties(r, Downloads, d) == Ranking.Ties(s.games, Downloads, d)
    ensures TopGames(s, limit) == r
  {
    Ranking.SortDescIsTheStableSort(s.games, r, Downloads);
  }

  /** One call of `record_download`, with the time it happened. */
  datatype Call = Call(gameId: GameId, gameName: string, at: Timestamp)

  /** The document after a fresh start at `start` and then `calls`, in order. */
  function Replay(start: Timestamp, calls: seq<Call>): Stats
  {
    if calls == [] then Empty(start)
    else
      var c := calls[|calls| - 1];
      RecordDownload(Replay(start, calls[..|calls| - 1]), c.gameId, c.gameName, c.at)
  }

  /** The clock never runs backwards. */
  ghost predicate Chronological(start: Timestamp, calls: seq<Call>)
  {
    && (forall i :: 0 <= i < |calls| ==> start <= calls[i].at)
    && (forall i, j :: 0 <= i < j < |calls| ==> calls[i].at <= calls[j].at)
  }

  /** The number of calls for `gameId`. */
  function CallCount(calls: seq<Call>, gameId: GameId): nat
  {
    if calls == [] then 0
    else CallCount(calls[..|calls| - 1], gameId) + (if calls[|calls| - 1].gameId == gameId then 1 else 0)
  }

  /** The earliest call for `gameId`. */
  function FirstCall(calls: seq<Call>, gameId: GameId): Option<Call>
  {
    if calls == [] then None
    else if calls[0].gameId == gameId then Some(calls[0])
    else FirstCall(calls[1..], gameId)
  }

  /** The latest call for `gameId`. */
  function LastCall(calls: seq<Call>, gameId: GameId): Option<Call>
  {
    if calls == [] then None
    else if calls[|calls| - 1].gameId == gameId then Some(calls[|calls| - 1])
    else LastCall(calls[..|calls| - 1], gameId)
  }

  /** The entry a game should have after `calls`, read off the calls alone:
      the name and time of its first call, how many calls it had, and the time
      of its latest call. */
  function Expected(calls: seq<Call>, gameId: GameId): Option<GameEntry>
  {
    match (FirstCall(calls, gameId), LastCall(calls, gameId))
    case (Some(f), Some(l)) => Some(GameEntry(f.gameName, CallCount(calls, gameId), f.at, l.at))
    case _ => None
  }

  lemma {:induction false} FirstCallSnoc(calls: seq<Call>, c: Call, gameId: GameId)
    ensures FirstCall(calls + [c], gameId)
         == (if FirstCall(calls, gameId).Some? then FirstCall(calls, gameId)
             else if c.gameId == gameId then Some(c) else None)
  {
    if calls != [] {
      assert (calls + [c])[1..] == calls[1..] + [c];
      FirstCallSnoc(calls[1..], c, gameId);
    }
  }

  lemma {:induction false} CallsAgree(calls: seq<Call>, gameId: GameId)
    ensures FirstCall(calls, gameId).Some? <==> CallCount(calls, gameId) > 0
    ensures LastCall(calls, gameId).Some? <==> CallCount(calls, gameId) > 0
  {
    if calls != [] {
      var n := |calls| - 1;
      CallsAgree(calls[..n], gameId);
      assert calls == calls[..n] + [calls[n]];
      FirstCallSnoc(calls[..n], calls[n], gameId);
    }
  }

  /** The counter is a fold over the calls: every game's entry is exactly the
      one read off the calls, and the global total is the number of calls. */
  lemma {:induction false} ReplayMatchesCalls(start: Timestamp, calls: seq<Call>, gameId: GameId)
    ensures Lookup(Replay(start, calls).games, gameId) == Expected(calls, gameId)
    ensures Replay(start, calls).totalDownloads == |calls|
  {
    if calls != [] {
      var n := |calls| - 1;
      var c := calls[n];
      ReplayMatchesCalls(start, calls[..n], gameId);
      assert calls[..n] + [c] == calls;
      ExpectedSnoc(calls[..n], c, gameId);
      RecordEntry(Replay(start, calls[..n]), c.gameId, c.gameName, c.at, gameId);
    }
  }

  /** One more call changes what is expected of its own game only. */
  lemma ExpectedSnoc(calls: seq<Call>, c: Call, gameId: GameId)
    ensures Expected(calls + [c], gameId)
         == if c.gameId != gameId then Expected(calls, gameId)
            else Some(Bumped(Expected(calls, gameId), c.gameName, c.at))
  {
    var calls' := calls + [c];
    assert calls'[..|calls|] == calls;
    FirstCallSnoc(calls, c, gameId);
    CallsAgree(calls, gameId);
  }

  /** A game's entry after one more download of it at time `now`: a new
      entry starts from zero with the given name and `now` as its first
      download; an existing one keeps its name and first download. */
  function Bumped(entry: Option<GameEntry>, gameName: string, now: Timestamp): GameEntry
  {
    match entry
    case Some(e) => GameEntry(e.gameName, e.downloads + 1, e.firstDownload, now)
    case None => GameEntry(gameName, 1, now, now)
  }

  /** `record_download` seen through dictionary lookups: the game's entry
      exists afterwards with one download more than before and the current
      time as its latest download; its name and first download are set only
      when the entry is created; every other game's entry is untouched. */
  lemma RecordEntry(s: Stats, gameId: GameId, gameName: string, now: Timestamp, h: GameId)
    ensures Lookup(RecordDownload(s, gameId, gameName, now).games, h)
         == if h != gameId then Lookup(s.games, h)
            else Some(Bumped(Lookup(s.games, gameId), gameName, now))
  {
    var s' := RecordDownload(s, gameId, gameName, now);
    var p := Position(s.games, gameId);
    if h != gameId {
      LookupElsewhere(s.games, s'.games, gameId, h);
    } else {
      PositionUnique(s'.games, gameId, p);
    }
  }

  /** Replayed with a clock that never runs backwards, the document always
      satisfies the invariant; `last_updated` is the time of the latest call. */
  lemma {:induction false} ReplayInv(start: Timestamp, calls: seq<Call>)
    requires Chronological(start, calls)
    ensures Inv(Replay(start, calls))
    ensures Replay(start, calls).lastUpdated == if calls == [] then start else calls[|calls| - 1].at
  {
    if calls == [] {
      EmptyInv(start);
    } else {
      var n := |calls| - 1;
      assert Chronological(start, calls[..n]);
      ReplayInv(start, calls[..n]);
      RecordPreservesInv(Replay(start, calls[..n]), calls[n].gameId, calls[n].gameName, calls[n].at);
    }
  }

  // ---------------------------------------------------------------------
  // Ties and first downloads

  /** The time of a game's first download. */
  function FirstDownload(item: Item): nat
  {
    item.1.firstDownload
  }

  /** Games are listed in order of first download. */
  ghost predicate FirstOrdered(games: seq<Item>)
  {
    Ranking.SortedAsc(games, FirstDownload)
  }

  /** A new game's first download is now, which is no earlier than any other
      game's, and an existing game's first download never moves, so the table
      stays in order of first download. */
  lemma RecordKeepsFirstOrdered(s: Stats, gameId: GameId, gameName: string, now: Timestamp)
    requires Inv(s) && s.lastUpdated <= now && FirstOrdered(s.games)
    ensures FirstOrdered(RecordDownload(s, gameId, gameName, now).games)
  {
    var s' := RecordDownload(s, gameId, gameName, now);
    assert forall i :: 0 <= i < |s.games| ==> FirstDownload(s'.games[i]) == FirstDownload(s.games[i]);
    assert forall i :: |s.games| <= i < |s'.games| ==> FirstDownload(s'.games[i]) == now;
  }

  /** From a fresh start with a clock that never runs backwards, the table
      is in order of first download. */
  lemma {:induction false} ReplayFirstOrdered(start: Timestamp, calls: seq<Call>)
    requires Chronological(start, calls)
    ensures FirstOrdered(Replay(start, calls).games)
  {
    if calls != [] {
      var n := |calls| - 1;
      assert Chronological(start, calls[..n]);
      ReplayFirstOrdered(start, calls[..n]);
      ReplayInv(start, calls[..n]);
      RecordKeepsFirstOrdered(Replay(start, calls[..n]), calls[n].gameId, calls[n].gameName, calls[n].at);
    }
  }

  /** From a fresh start with a clock that never runs backwards, games with
      equal download counts come out of `get_top_games` in order of first
      download: insertion order is first-download order. */
  lemma TopGamesTiesByFirstDownload(start: Timestamp, calls: seq<Call>, limit: nat)
    requires Chronological(start, calls)
    ensures forall d :: FirstOrdered(Ranking.Ties(TopGames(Replay(start, calls), limit), Downloads, d))
  {
    var games := Replay(start, calls).games;
    var top := TopGames(Replay(start, calls), limit);
    ReplayFirstOrdered(start, calls);
    forall d
      ensures FirstOrdered(Ranking.Ties(top, Downloads, d))
    {
      Ranking.TiesKeepAscending(games, Downloads, d, FirstDownload);
      Ranking.PrefixAscending(Ranking.Ties(top, Downloads, d), Ranking.Ties(games, Downloads, d), FirstDownload);
    }
  }
}
