/** The schedule model: a sport's ESPN configuration, the week rows a league
    starts with, the per-day scoreboard ingest with its de-duplication of
    games, the season bootstrap's day loop, and the season-phase lookup for
    a game.  The database and the ESPN fetches are parameters. */
module Schedule {
  import opened Wrappers
  import opened Text
  import opened Values
  import opened Calendar
  import opened Weeks
  import opened Sorting
  import opened Espn

  // ---------------------------------------------------------------------------
  // Sport configuration
  // ---------------------------------------------------------------------------

  /** The `Sport` row's `api-keyword`, `apiGroupIds` and `baseUrlName`. */
  datatype SportRow = SportRow(keyword: PyValue, groups: PyValue, baseUrl: PyValue)

  datatype ConfigError = MissingKeyword | BadGroupIds

  /** `[int(x) for x in items]`; `None` when one of them raises. */
  function IntsOf(items: seq<PyValue>): (r: Option<seq<int>>)
    ensures r.Some? <==> forall i :: 0 <= i < |items| ==> ToInt(items[i]).Some?
    ensures r.Some? ==> (|r.value| == |items| &&
      forall i :: 0 <= i < |items| ==> r.value[i] == ToInt(items[i]).value)
  {
    if |items| == 0 then Some([])
    else
      assert forall i :: 1 <= i < |items| ==> items[i] == items[1..][i - 1];
      var n :- ToInt(items[0]);
      var rest :- IntsOf(items[1..]);
      Some([n] + rest)
  }

  /** A comma-separated piece `int(x.strip())` accepts, or a blank one. */
  predicate PieceOk(p: string) {
    Strip(p) == "" || ParseInt(Strip(p)).Some?
  }

  /** The id a piece contributes: none for a blank piece. */
  function PieceIds(p: string): (r: seq<int>)
    requires PieceOk(p)
    ensures |r| <= 1
  {
    if Strip(p) == "" then [] else [ParseInt(Strip(p)).value]
  }

  /** `[int(x.strip()) for x in pieces if x.strip()]`. */
  function CommaIds(pieces: seq<string>): (r: Option<seq<int>>)
    ensures r.Some? <==> forall i :: 0 <= i < |pieces| ==> PieceOk(pieces[i])
    ensures r.Some? ==> |r.value| <= |pieces|
  {
    if |pieces| == 0 then Some([])
    else
      var rest := CommaIds(pieces[1..]);
      HeadAndTail(pieces, PieceOk);
      if PieceOk(pieces[0]) && rest.Some? then Some(PieceIds(pieces[0]) + rest.value) else None
  }

  /** Every element passes exactly when the first one and every later one
      does. */
  lemma HeadAndTail<T>(xs: seq<T>, ok: T -> bool)
    requires |xs| > 0
    ensures (forall i :: 0 <= i < |xs| ==> ok(xs[i])) <==>
      ok(xs[0]) && forall i :: 0 <= i < |xs[1..]| ==> ok(xs[1..][i])
  {
    assert forall i :: 1 <= i < |xs| ==> xs[i] == xs[1..][i - 1];
  }

  /** The normalisation of `apiGroupIds`: `None` is no groups; a list is
      converted item by item; text is stripped and read as JSON when it
      starts with `[`, otherwise as comma-separated ids with blanks skipped;
      any other value is iterated.  `None` where Python raises. */
  function GroupIds(raw: PyValue, parseJson: string -> Option<PyValue>): (r: Option<seq<int>>)
    ensures raw.NoneVal? ==> r == Some([])
    ensures raw.ListVal? || raw.TupleVal? ==> r == IntsOf(raw.items)
    ensures (raw.IntVal? || raw.FloatVal? || raw.BoolVal? || raw.DateVal? || raw.DateTimeVal?) ==> r.None?
  {
    match raw
    case NoneVal => Some([])
    case ListVal(items) => IntsOf(items)
    case StrVal(s) =>
      var t := Strip(s);
      if StartsWith(t, "[") then
        var parsed :- parseJson(t);
        var items :- Iterate(parsed);
        IntsOf(items)
      else CommaIds(Split(t, ','))
    case TupleVal(items) => IntsOf(items)
    case DictVal(_) => IntsOf(Iterate(raw).value)
    case _ => None
  }

  /** `_get_sport_api_config`: a missing row or keyword is an error; the
      keyword and base URL are passed on as they are. */
  function SportConfig(row: Option<SportRow>, parseJson: string -> Option<PyValue>): (r: Result<(PyValue, seq<int>, PyValue), ConfigError>)
    ensures r == Err(MissingKeyword) <==> row.None? || row.value.keyword.NoneVal?
    ensures r.Ok? ==> (GroupIds(row.value.groups, parseJson) == Some(r.value.1) &&
      r.value.0 == row.value.keyword && r.value.2 == row.value.baseUrl)
  {
    if row.None? || row.value.keyword.NoneVal? then Err(MissingKeyword)
    else
      var ids :- GroupIds(row.value.groups, parseJson).ToResult(BadGroupIds);
      Ok((row.value.keyword, ids, row.value.baseUrl))
  }

  /** The printed ids. */
  function Shown(ns: seq<int>): (r: seq<string>)
    ensures |r| == |ns|
    ensures forall i :: 0 <= i < |ns| ==> r[i] == ShowInt(ns[i])
  {
    seq(|ns|, i requires 0 <= i < |ns| => ShowInt(ns[i]))
  }

  /** A character of a printed integer or of a comma-separated list of them. */
  predicate IdChar(c: char) {
    IsDigit(c) || c == '-' || c == ','
  }

  lemma ShowIntChars(n: int)
    ensures forall i :: 0 <= i < |ShowInt(n)| ==> IdChar(ShowInt(n)[i]) && ShowInt(n)[i] != ','
    ensures |ShowInt(n)| > 0
  {
    if n < 0 {
      var d := ShowNat(-n);
      assert forall i :: 1 <= i < |ShowInt(n)| ==> ShowInt(n)[i] == d[i - 1];
    }
  }

  lemma {:induction false} JoinIdChars(pieces: seq<string>)
    requires |pieces| >= 1
    requires forall i, j :: 0 <= i < |pieces| && 0 <= j < |pieces[i]| ==> IdChar(pieces[i][j])
    ensures forall j :: 0 <= j < |Join(pieces, ',')| ==> IdChar(Join(pieces, ',')[j])
    decreases |pieces|
  {
    if |pieces| > 1 {
      JoinIdChars(pieces[1..]);
      var rest := Join(pieces[1..], ',');
      var s := Join(pieces, ',');
      assert s == pieces[0] + [','] + rest;
      forall j | 0 <= j < |s|
        ensures IdChar(s[j])
      {
        if j < |pieces[0]| {
          assert s[j] == pieces[0][j];
        } else if j > |pieces[0]| {
          assert s[j] == rest[j - |pieces[0]| - 1];
        }
      }
    }
  }

  lemma StripWithoutSpaces(s: string)
    requires forall i :: 0 <= i < |s| ==> !IsSpace(s[i])
    ensures Strip(s) == s
  {
    var l := StripLeft(s);
    assert |l| == |s|;
    var r := StripRight(l);
    assert |r| == |l|;
  }

  /** A printed integer is a piece that reads back as that integer. */
  lemma PieceOfShowInt(n: int)
    ensures PieceOk(ShowInt(n)) && PieceIds(ShowInt(n)) == [n]
  {
    var s := ShowInt(n);
    assert Strip(s) == s by {
      ShowIntChars(n);
      StripWithoutSpaces(s);
    }
    assert ParseInt(s) == Some(n) by {
      ParseIntShowInt(n);
    }
  }

  /** Pieces that each read back as one id read back as those ids. */
  lemma {:induction false} CommaIdsOfPieces(pieces: seq<string>, ns: seq<int>)
    requires |pieces| == |ns|
    requires forall i :: 0 <= i < |pieces| ==> PieceOk(pieces[i]) && PieceIds(pieces[i]) == [ns[i]]
    ensures CommaIds(pieces) == Some(ns)
    decreases |pieces|
  {
    if |pieces| > 0 {
      CommaIdsOfPieces(pieces[1..], ns[1..]);
      assert ns == [ns[0]] + ns[1..];
    }
  }

  /** The comma-separated text of some ids consists of digits, signs and
      commas only. */
  lemma ShownChars(ns: seq<int>)
    requires |ns| >= 1
    ensures forall j :: 0 <= j < |Join(Shown(ns), ',')| ==> IdChar(Join(Shown(ns), ',')[j])
  {
    var pieces := Shown(ns);
    forall i | 0 <= i < |pieces|
      ensures forall j :: 0 <= j < |pieces[i]| ==> IdChar(pieces[i][j])
    {
      ShowIntChars(ns[i]);
    }
    JoinIdChars(pieces);
  }

  /** The comma-separated text of some ids splits into the printed ids. */
  lemma ShownSplit(ns: seq<int>)
    requires |ns| >= 1
    ensures Split(Join(Shown(ns), ','), ',') == Shown(ns)
  {
    var pieces := Shown(ns);
    forall i | 0 <= i < |pieces|
      ensures ',' !in pieces[i]
    {
      ShowIntChars(ns[i]);
    }
    SplitJoin(pieces, ',');
  }

  /** Text of id characters only has no surrounding blanks and does not
      start with `[`. */
  lemma IdTextPlain(s: string)
    requires forall c :: c in s ==> IdChar(c)
    ensures Strip(s) == s && !StartsWith(s, "[")
  {
    forall j | 0 <= j < |s|
      ensures !IsSpace(s[j])
    {
      assert s[j] in s;
    }
    StripWithoutSpaces(s);
    assert |s| > 0 ==> IdChar(s[0]);
  }

  /** The printed ids read back piece by piece as the ids. */
  lemma ShownPieces(ns: seq<int>)
    ensures CommaIds(Shown(ns)) == Some(ns)
  {
    var pieces := Shown(ns);
    forall i | 0 <= i < |pieces|
      ensures PieceOk(pieces[i]) && PieceIds(pieces[i]) == [ns[i]]
    {
      PieceOfShowInt(ns[i]);
    }
    CommaIdsOfPieces(pieces, ns);
  }

  /** Ids written as comma-separated text are read back as the same ids. */
  lemma GroupIdsCommaRoundTrip(ns: seq<int>, parseJson: string -> Option<PyValue>)
    requires |ns| >= 1
    ensures GroupIds(StrVal(Join(Shown(ns), ',')), parseJson) == Some(ns)
  {
    var s := Join(Shown(ns), ',');
    ShownChars(ns);
    IdTextPlain(s);
    ShownSplit(ns);
    ShownPieces(ns);
    GroupIdsOfText(s, parseJson);
  }

  lemma GroupIdsOfText(s: string, parseJson: string -> Option<PyValue>)
    requires !StartsWith(Strip(s), "[")
    ensures GroupIds(StrVal(s), parseJson) == CommaIds(Split(Strip(s), ','))
  {
  }

  /** Blank text (empty, or whitespace only) names no groups. */
  lemma GroupIdsBlank(s: string, parseJson: string -> Option<PyValue>)
    requires forall i :: 0 <= i < |s| ==> IsSpace(s[i])
    ensures GroupIds(StrVal(s), parseJson) == Some([])
  {
    StripBlank(s);
    GroupIdsOfText(s, parseJson);
    SplitEmpty();
    CommaIdsBlank();
  }

  /** Whitespace-only text strips to nothing. */
  lemma StripBlank(s: string)
    requires forall i :: 0 <= i < |s| ==> IsSpace(s[i])
    ensures Strip(s) == ""
  {
  }

  lemma SplitEmpty()
    ensures Split("", ',') == [""]
  {
  }

  lemma CommaIdsBlank()
    ensures CommaIds([""]) == Some([])
  {
    assert Strip("") == "";
    assert PieceOk("") && PieceIds("") == [];
    assert [""][1..] == [];
  }

  // ---------------------------------------------------------------------------
  // Week rows
  // ---------------------------------------------------------------------------

  datatype ScheduleError = NoSportSeason

  /** The inserted rows of a plan, with consecutive ids from `firstId`,
      unlocked and unscored. */
  function PlanWeeks(rows: seq<WeekRow>, firstId: int): (r: seq<Week>)
    ensures |r| == |rows|
    ensures forall i :: 0 <= i < |rows| ==>
      r[i] == Week(firstId + i, rows[i].number, rows[i].start, Some(rows[i].end), false, false)
  {
    seq(|rows|, i requires 0 <= i < |rows| => Week(firstId + i, rows[i].number, rows[i].start, Some(rows[i].end), false, false))
  }

  /** `ensure_weeks_for_league`: a league that has week rows keeps them;
      otherwise it gets week 0, its regular weeks from 1 and its playoff
      weeks after them.  A league without a sport season is an error. */
  function EnsureWeeks(existing: seq<Week>, season: Option<SeasonDates>, firstId: int): (r: Result<seq<Week>, ScheduleError>)
    ensures |existing| > 0 ==> r == Ok(existing)
    ensures |existing| == 0 ==> (r.Ok? <==> season.Some?)
    ensures r.Ok? && |existing| == 0 ==> (|r.value| >= 1 &&
      r.value[0] == Week(firstId, 0, None, Some(season.value.regStart - 1), false, false) &&
      forall i :: 0 <= i < |r.value| ==> (r.value[i].number == i && r.value[i].id == firstId + i &&
        !r.value[i].isLocked && !r.value[i].scoringComplete && (i >= 1 ==> r.value[i].start.Some?)))
  {
    if |existing| > 0 then Ok(existing)
    else if season.None? then Err(NoSportSeason)
    else Ok(PlanWeeks(WeekPlan(season.value.regStart, season.value.regEnd, season.value.playoffs), firstId))
  }

  /** Ensuring the weeks twice creates nothing the second time. */
  lemma EnsureWeeksIdempotent(existing: seq<Week>, season: Option<SeasonDates>, firstId: int,
                              season2: Option<SeasonDates>, firstId2: int)
    requires |existing| > 0 || season.Some?
    ensures EnsureWeeks(EnsureWeeks(existing, season, firstId).value, season2, firstId2) == EnsureWeeks(existing, season, firstId)
  {
  }

  /** Every created week is found by its number, and week 0 ends the day
      before the regular season starts. */
  lemma EnsureWeeksFindable(season: SeasonDates, firstId: int, n: int)
    ensures var r := EnsureWeeks([], Some(season), firstId).value;
      (FindWeek(r, n).Some? <==> 0 <= n < |r|) &&
      (0 <= n < |r| ==> FindWeek(r, n).value.id == firstId + n)
  {
    var r := EnsureWeeks([], Some(season), firstId).value;
    if 0 <= n < |r| {
      assert r[n].number == n;
      var w := FindWeek(r, n).value;
      var k :| 0 <= k < |r| && r[k] == w;
    }
  }

  // ---------------------------------------------------------------------------
  // Scoreboard ingest
  // ---------------------------------------------------------------------------

  /** The events of every group whose fetch succeeded, group by group; a
      failed fetch is skipped. */
  function GroupEvents(groups: seq<int>, fetch: int -> Option<seq<PyValue>>): (r: seq<PyValue>)
    ensures forall e :: e in r <==> exists i :: 0 <= i < |groups| && fetch(groups[i]).Some? && e in fetch(groups[i]).value
  {
    if |groups| == 0 then []
    else
      var rest := GroupEvents(groups[1..], fetch);
      assert forall i :: 1 <= i < |groups| ==> groups[i] == groups[1..][i - 1];
      var here := if fetch(groups[0]).Some? then fetch(groups[0]).value else [];
      assert forall e :: e in here + rest <==> e in here || e in rest;
      here + rest
  }

  /** The game each event yields (`None` for one that yields none), or
      `None` overall when an event is not a dict: the extraction's failure
      handler itself raises on such an event, and the ingest with it. */
  function ExtractAll(events: seq<PyValue>, fromIso: string -> Option<Stamp>, other: PyValue -> string): (r: Option<seq<Option<Game>>>)
    ensures r.Some? <==> forall i :: 0 <= i < |events| ==> events[i].DictVal?
    ensures r.Some? ==> (|r.value| == |events| &&
      forall i :: 0 <= i < |events| ==> r.value[i] == ExtractGame(events[i], fromIso, other))
  {
    if |events| == 0 then Some([])
    else
      assert forall i :: 1 <= i < |events| ==> events[i] == events[1..][i - 1];
      if !events[0].DictVal? then None
      else
        var rest :- ExtractAll(events[1..], fromIso, other);
        Some([ExtractGame(events[0], fromIso, other)] + rest)
  }

  /** A game whose id is truthy and not yet seen. */
  predicate Fresh(g: Game, seen: seq<PyValue>) {
    Truthy(g.externalId) && g.externalId !in seen
  }

  /** No two games share an id. */
  predicate DistinctIds(games: seq<Game>) {
    forall k, l :: 0 <= k < l < |games| ==> games[k].externalId != games[l].externalId
  }

  /** The games to upsert, in order: each found game unless its id is falsy
      or was already seen. */
  function Dedupe(found: seq<Option<Game>>, seen: seq<PyValue>): (r: seq<Game>)
    ensures |r| <= |found|
    ensures forall k :: 0 <= k < |r| ==> Fresh(r[k], seen)
    ensures DistinctIds(r)
  {
    if |found| == 0 then []
    else if found[0].Some? && Fresh(found[0].value, seen) then
      var g := found[0].value;
      var rest := Dedupe(found[1..], seen + [g.externalId]);
      assert forall x :: x in seen + [g.externalId] <==> x in seen || x == g.externalId;
      var r := [g] + rest;
      assert forall k :: 1 <= k < |r| ==> r[k] == rest[k - 1];
      r
    else
      Dedupe(found[1..], seen)
  }

  /** Every upserted game is one of the games found. */
  lemma {:induction false} DedupeFound(found: seq<Option<Game>>, seen: seq<PyValue>, g: Game)
    requires g in Dedupe(found, seen)
    ensures Some(g) in found
    decreases |found|
  {
    if found[0].Some? && Fresh(found[0].value, seen) {
      if g != found[0].value {
        DedupeFound(found[1..], seen + [found[0].value.externalId], g);
      }
    } else {
      DedupeFound(found[1..], seen, g);
    }
  }

  /** Some game of the list has id `id`. */
  predicate HasId(games: seq<Game>, id: PyValue) {
    exists k :: 0 <= k < |games| && games[k].externalId == id
  }

  lemma HasIdCons(g: Game, rest: seq<Game>, id: PyValue)
    ensures HasId([g] + rest, id) <==> g.externalId == id || HasId(rest, id)
  {
    var r := [g] + rest;
    if HasId(rest, id) {
      var k :| 0 <= k < |rest| && rest[k].externalId == id;
      assert r[k + 1] == rest[k];
    }
    if g.externalId == id {
      assert r[0] == g;
    }
    if HasId(r, id) {
      var k :| 0 <= k < |r| && r[k].externalId == id;
      if k > 0 {
        assert rest[k - 1] == r[k];
      }
    }
  }

  /** Every found game with a truthy id was seen before or has its id among
      the upserted games. */
  lemma {:induction false} DedupeComplete(found: seq<Option<Game>>, seen: seq<PyValue>, i: int)
    requires 0 <= i < |found| && found[i].Some? && Truthy(found[i].value.externalId)
    ensures found[i].value.externalId in seen || HasId(Dedupe(found, seen), found[i].value.externalId)
    decreases |found|
  {
    var id := found[i].value.externalId;
    if found[0].Some? && Fresh(found[0].value, seen) {
      var g := found[0].value;
      var seen2 := seen + [g.externalId];
      var rest := Dedupe(found[1..], seen2);
      assert Dedupe(found, seen) == [g] + rest;
      HasIdCons(g, rest, id);
      if i > 0 {
        assert found[1..][i - 1] == found[i];
        DedupeComplete(found[1..], seen2, i - 1);
        assert id in seen2 <==> id in seen || id == g.externalId;
      }
    } else if i > 0 {
      assert found[1..][i - 1] == found[i];
      assert Dedupe(found, seen) == Dedupe(found[1..], seen);
      DedupeComplete(found[1..], seen, i - 1);
    }
  }

  datatype Ingested = Ingested(games: seq<Game>, eventsSeen: nat, gamesUpserted: nat)

  /** `ingest_scoreboard_for_date_for_sport_season` for one day, given the
      sport's group ids and how each group's fetch turned out.  This is the
      intended behaviour: the ESPN client has no `iter_scoreboard_events`, and
      the model reads a fetched scoreboard's `events` list the way
      `iter_team_events` reads a team schedule's.  A truthy game id that is
      unhashable (a list, say) makes the `in seen_external_game_ids` test
      raise `TypeError`, and the day fails. */
  function IngestDay(groups: seq<int>, fetch: int -> Option<seq<PyValue>>, fromIso: string -> Option<Stamp>, other: PyValue -> string): (r: Option<Ingested>)
    ensures r.Some? <==> (forall e :: e in GroupEvents(groups, fetch) ==> e.DictVal?) &&
                         forall e :: e in GroupEvents(groups, fetch) && e.DictVal? ==> IdSettable(ExtractGame(e, fromIso, other))
    ensures r.Some? ==> r.value.eventsSeen == r.value.gamesUpserted == |r.value.games|
    ensures r.Some? ==> DistinctIds(r.value.games)
    ensures r.Some? ==> forall k :: 0 <= k < |r.value.games| ==>
      Truthy(r.value.games[k].externalId) && Hashable(r.value.games[k].externalId)
  {
    var events := GroupEvents(groups, fetch);
    var found :- ExtractAll(events, fromIso, other);
    ExtractedSettable(events, fromIso, other, found);
    if exists k :: 0 <= k < |found| && !IdSettable(found[k]) then None
    else
      var games := Dedupe(found, []);
      assert forall g :: g in games ==> Hashable(g.externalId) by {
        forall g | g in games ensures Hashable(g.externalId) {
          DedupeHashable(found, [], g);
        }
      }
      Some(Ingested(games, |games|, |games|))
  }

  /** The found games are settable exactly when the games of the dict events
      are. */
  lemma ExtractedSettable(events: seq<PyValue>, fromIso: string -> Option<Stamp>, other: PyValue -> string,
                          found: seq<Option<Game>>)
    requires ExtractAll(events, fromIso, other) == Some(found)
    ensures (forall k :: 0 <= k < |found| ==> IdSettable(found[k])) <==>
            forall e :: e in events && e.DictVal? ==> IdSettable(ExtractGame(e, fromIso, other))
  {
    if forall k :: 0 <= k < |found| ==> IdSettable(found[k]) {
      forall e | e in events && e.DictVal? ensures IdSettable(ExtractGame(e, fromIso, other)) {
        var k :| 0 <= k < |events| && events[k] == e;
        assert IdSettable(found[k]);
      }
    } else {
      var k :| 0 <= k < |found| && !IdSettable(found[k]);
      assert events[k] in events;
    }
  }

  /** Every upserted game's id went through the set, so it is hashable when
      every found game is settable. */
  lemma DedupeHashable(found: seq<Option<Game>>, seen: seq<PyValue>, g: Game)
    requires forall k :: 0 <= k < |found| ==> IdSettable(found[k])
    requires g in Dedupe(found, seen)
    ensures Hashable(g.externalId)
  {
    DedupeFound(found, seen, g);
    var j :| 0 <= j < |found| && found[j] == Some(g);
    assert IdSettable(found[j]);
    var r := Dedupe(found, seen);
    var k :| 0 <= k < |r| && r[k] == g;
    assert Fresh(r[k], seen);
  }

  /** The dedupe test can be run on a found game: no game, a falsy id (skipped
      before the test), or an id a set can hold. */
  predicate IdSettable(game: Option<Game>) {
    game.None? || !Truthy(game.value.externalId) || Hashable(game.value.externalId)
  }

  /** The day's ingest as written: the first group whose fetch succeeds calls
      `client.iter_scoreboard_events`, which the ESPN client does not define,
      so the ingest raises `AttributeError`.  It completes, with nothing
      seen or upserted, only when every fetch failed. */
  function IngestDayAsWritten(groups: seq<int>, fetch: int -> Option<seq<PyValue>>): (r: Option<Ingested>)
    ensures r.Some? <==> forall i :: 0 <= i < |groups| ==> fetch(groups[i]).None?
    ensures r.Some? ==> r.value == Ingested([], 0, 0)
  {
    if |groups| == 0 then Some(Ingested([], 0, 0))
    else if fetch(groups[0]).Some? then None
    else
      assert forall i :: 1 <= i < |groups| ==> groups[i] == groups[1..][i - 1];
      IngestDayAsWritten(groups[1..], fetch)
  }

  /** One group whose scoreboard fetch succeeds with no events: the ingest as
      written raises, while the intended ingest completes with nothing to
      upsert. */
  lemma IngestDayAsWrittenRaises(fromIso: string -> Option<Stamp>, other: PyValue -> string)
    ensures IngestDayAsWritten([50], (g: int) => Some([])).None?
    ensures IngestDay([50], (g: int) => Some([]), fromIso, other) == Some(Ingested([], 0, 0))
  {
  }

  /** Every game a successful group reported with a truthy id is upserted
      once, and every upserted game was reported by a successful group. */
  lemma IngestComplete(groups: seq<int>, fetch: int -> Option<seq<PyValue>>, fromIso: string -> Option<Stamp>, other: PyValue -> string,
                       i: int, e: PyValue)
    requires 0 <= i < |groups| && fetch(groups[i]).Some? && e in fetch(groups[i]).value
    ensures IngestDay(groups, fetch, fromIso, other).Some? &&
            ExtractGame(e, fromIso, other).Some? && Truthy(ExtractGame(e, fromIso, other).value.externalId) ==>
      HasId(IngestDay(groups, fetch, fromIso, other).value.games, ExtractGame(e, fromIso, other).value.externalId)
  {
    GroupEventAt(groups, fetch, i, e);
    var j :| 0 <= j < |GroupEvents(groups, fetch)| && GroupEvents(groups, fetch)[j] == e;
    IngestFound(groups, fetch, fromIso, other, j);
  }

  /** An event of a successful group has a place in the events. */
  lemma GroupEventAt(groups: seq<int>, fetch: int -> Option<seq<PyValue>>, i: int, e: PyValue)
    requires 0 <= i < |groups| && fetch(groups[i]).Some? && e in fetch(groups[i]).value
    ensures exists j :: 0 <= j < |GroupEvents(groups, fetch)| && GroupEvents(groups, fetch)[j] == e
  {
    assert e in GroupEvents(groups, fetch);
  }

  /** The upserted games are the deduplicated games of the fetched events;
      the `j`-th event's game, when its id is truthy, is among them. */
  lemma IngestFound(groups: seq<int>, fetch: int -> Option<seq<PyValue>>, fromIso: string -> Option<Stamp>, other: PyValue -> string,
                    j: int)
    requires 0 <= j < |GroupEvents(groups, fetch)|
    ensures IngestDay(groups, fetch, fromIso, other).Some? &&
            ExtractGame(GroupEvents(groups, fetch)[j], fromIso, other).Some? &&
            Truthy(ExtractGame(GroupEvents(groups, fetch)[j], fromIso, other).value.externalId) ==>
      HasId(IngestDay(groups, fetch, fromIso, other).value.games,
        ExtractGame(GroupEvents(groups, fetch)[j], fromIso, other).value.externalId)
  {
    if IngestDay(groups, fetch, fromIso, other).Some? &&
       ExtractGame(GroupEvents(groups, fetch)[j], fromIso, other).Some? &&
       Truthy(ExtractGame(GroupEvents(groups, fetch)[j], fromIso, other).value.externalId) {
      var found := ExtractAll(GroupEvents(groups, fetch), fromIso, other).value;
      assert IngestDay(groups, fetch, fromIso, other).value.games == Dedupe(found, []);
      DedupeComplete(found, [], j);
    }
  }

  /** Every upserted game comes from an event of a successful group. */
  lemma IngestSound(groups: seq<int>, fetch: int -> Option<seq<PyValue>>, fromIso: string -> Option<Stamp>, other: PyValue -> string,
                    g: Game)
    ensures IngestDay(groups, fetch, fromIso, other).Some? && g in IngestDay(groups, fetch, fromIso, other).value.games ==>
      exists i, e :: (0 <= i < |groups| && fetch(groups[i]).Some? && e in fetch(groups[i]).value &&
        ExtractGame(e, fromIso, other) == Some(g))
  {
    if IngestDay(groups, fetch, fromIso, other).Some? && g in IngestDay(groups, fetch, fromIso, other).value.games {
      var events := GroupEvents(groups, fetch);
      var found := ExtractAll(events, fromIso, other).value;
      DedupeFound(found, [], g);
      var j :| 0 <= j < |found| && found[j] == Some(g);
      assert events[j] in events;
    }
  }

  // ---------------------------------------------------------------------------
  // Season bootstrap
  // ---------------------------------------------------------------------------

  /** The `SportSeason` columns the bootstrap reads. */
  datatype SeasonRow = SeasonRow(sportId: int, bootstrapped: bool, regStart: Option<Day>, regEnd: Option<Day>)

  datatype BootstrapError = SeasonNotFound | MissingWindow | InvalidWindow

  /** The loop's counters. */
  datatype Totals = Totals(processed: nat, failed: nat, events: int, games: int)

  function AddTotals(a: Totals, b: Totals): Totals {
    Totals(a.processed + b.processed, a.failed + b.failed, a.events + b.events, a.games + b.games)
  }

  /** The loop over `n` days from `d`: a day whose ingest raises (`None`)
      counts as failed; every day counts as processed. */
  function DayLoop(d: Day, n: int, ingest: Day -> Option<(int, int)>): Totals
    decreases n
  {
    if n <= 0 then Totals(0, 0, 0, 0)
    else Count(ingest(d), DayLoop(d + 1, n - 1, ingest))
  }

  /** Every day of the loop is processed, and no more fail than that. */
  lemma {:induction false} DayLoopCounts(d: Day, n: int, ingest: Day -> Option<(int, int)>)
    ensures DayLoop(d, n, ingest).processed == if n <= 0 then 0 else n
    ensures DayLoop(d, n, ingest).failed <= DayLoop(d, n, ingest).processed
    decreases n
  {
    if n > 0 {
      DayLoopCounts(d + 1, n - 1, ingest);
      DayLoopStep(d, n, ingest);
    }
  }

  /** One more day's outcome added to the counters. */
  function Count(o: Option<(int, int)>, t: Totals): Totals {
    match o
    case None => Totals(t.processed + 1, t.failed + 1, t.events, t.games)
    case Some(s) => Totals(t.processed + 1, t.failed, t.events + s.0, t.games + s.1)
  }

  /** With every day ingested, nothing fails. */
  lemma {:induction false} DayLoopAllIngested(d: Day, n: int, ingest: Day -> Option<(int, int)>)
    requires forall x :: d <= x < d + n ==> ingest(x).Some?
    ensures DayLoop(d, n, ingest).failed == 0
    decreases n
  {
    if n > 0 {
      DayLoopAllIngested(d + 1, n - 1, ingest);
      DayLoopStep(d, n, ingest);
    }
  }

  /** With every day failing, every day is counted as failed and nothing is
      seen or upserted. */
  lemma {:induction false} DayLoopAllFailed(d: Day, n: int, ingest: Day -> Option<(int, int)>)
    requires forall x :: d <= x < d + n ==> ingest(x).None?
    ensures var t := DayLoop(d, n, ingest);
      t.failed == t.processed && t.events == 0 && t.games == 0
    decreases n
  {
    if n > 0 {
      DayLoopAllFailed(d + 1, n - 1, ingest);
      DayLoopStep(d, n, ingest);
    }
  }

  /** When each day upserts every event it sees, so do the totals. */
  lemma {:induction false} DayLoopBalanced(d: Day, n: int, ingest: Day -> Option<(int, int)>)
    requires forall x :: d <= x < d + n && ingest(x).Some? ==> ingest(x).value.0 == ingest(x).value.1
    ensures DayLoop(d, n, ingest).events == DayLoop(d, n, ingest).games
    decreases n
  {
    if n > 0 {
      DayLoopBalanced(d + 1, n - 1, ingest);
      DayLoopStep(d, n, ingest);
    }
  }

  lemma DayLoopStep(d: Day, n: int, ingest: Day -> Option<(int, int)>)
    requires n > 0
    ensures DayLoop(d, n, ingest) == Count(ingest(d), DayLoop(d + 1, n - 1, ingest))
  {
  }

  lemma CountAdd(o: Option<(int, int)>, a: Totals, b: Totals)
    ensures Count(o, AddTotals(a, b)) == AddTotals(Count(o, a), b)
  {
  }

  /** The loop over `n + m` days is the loop over the first `n` followed by
      the loop over the remaining `m`. */
  lemma {:induction false} DayLoopSplit(d: Day, n: nat, m: nat, ingest: Day -> Option<(int, int)>)
    ensures DayLoop(d, n + m, ingest) == AddTotals(DayLoop(d, n, ingest), DayLoop(d + n, m, ingest))
    decreases n
  {
    if n > 0 {
      var a := DayLoop(d + 1, n - 1, ingest);
      var b := DayLoop(d + n, m, ingest);
      DayLoopSplit(d + 1, n - 1, m, ingest);
      DayLoopStep(d, n + m, ingest);
      DayLoopStep(d, n, ingest);
      CountAdd(ingest(d), a, b);
    }
  }

  datatype BootstrapOutcome = Skipped | Ran(first: Day, last: Day, totals: Totals)

  /** `bootstrap_sport_season_schedule_by_scoreboard`: a season already
      bootstrapped is skipped unless forced; otherwise every day of the
      regular season (at most `maxDays` of them) is ingested and the season
      is marked bootstrapped. */
  function BootstrapSeason(row: Option<SeasonRow>, force: bool, maxDays: Option<int>, ingest: Day -> Option<(int, int)>): (r: Result<(BootstrapOutcome, SeasonRow), BootstrapError>)
    ensures row.None? ==> r == Err(SeasonNotFound)
    ensures row.Some? && row.value.bootstrapped && !force ==> r == Ok((Skipped, row.value))
    ensures row.Some? && (!row.value.bootstrapped || force) ==> (r.Err? <==>
      (row.value.regStart.None? || row.value.regEnd.None? || row.value.regEnd.value < row.value.regStart.value))
    ensures r.Ok? && r.value.0.Ran? ==> (r.value.1 == row.value.(bootstrapped := true) &&
      var span := row.value.regEnd.value - row.value.regStart.value + 1;
      var limit := if maxDays.Some? then Min(span, maxDays.value) else span;
      r.value.0.totals.processed == (if limit <= 0 then 0 else limit) &&
      r.value.0.totals.failed <= r.value.0.totals.processed)
  {
    if row.None? then Err(SeasonNotFound)
    else if row.value.bootstrapped && !force then Ok((Skipped, row.value))
    else if row.value.regStart.None? || row.value.regEnd.None? then Err(MissingWindow)
    else if row.value.regEnd.value < row.value.regStart.value then Err(InvalidWindow)
    else
      var first := row.value.regStart.value;
      var last := row.value.regEnd.value;
      var total := last - first + 1;
      var n := if maxDays.Some? then Min(total, maxDays.value) else total;
      DayLoopCounts(first, n, ingest);
      Ok((Ran(first, last, DayLoop(first, n, ingest)), row.value.(bootstrapped := true)))
  }

  /** A second unforced bootstrap after one that ran is skipped. */
  lemma BootstrapOnce(row: Option<SeasonRow>, force: bool, maxDays: Option<int>, ingest: Day -> Option<(int, int)>,
                      maxDays2: Option<int>, ingest2: Day -> Option<(int, int)>)
    requires BootstrapSeason(row, force, maxDays, ingest).Ok?
    ensures var after := BootstrapSeason(row, force, maxDays, ingest).value.1;
      BootstrapSeason(Some(after), false, maxDays2, ingest2) == Ok((Skipped, after))
  {
  }

  /** When every day upserts every event it sees, so does the bootstrap. */
  lemma BootstrapBalanced(row: Option<SeasonRow>, force: bool, maxDays: Option<int>, ingest: Day -> Option<(int, int)>)
    requires BootstrapSeason(row, force, maxDays, ingest).Ok?
    requires forall d :: ingest(d).Some? ==> ingest(d).value.0 == ingest(d).value.1
    ensures var o := BootstrapSeason(row, force, maxDays, ingest).value.0;
      o.Ran? ==> o.totals.events == o.totals.games
  {
    var o := BootstrapSeason(row, force, maxDays, ingest).value.0;
    if o.Ran? {
      var first := row.value.regStart.value;
      var total := row.value.regEnd.value - first + 1;
      var n := if maxDays.Some? then Min(total, maxDays.value) else total;
      DayLoopBalanced(first, n, ingest);
    }
  }

  /** Each day's ingest upserts every event it counts. */
  lemma DayIngestBalanced(groups: seq<int>, fetch: (Day, int) -> Option<seq<PyValue>>,
                          fromIso: string -> Option<Stamp>, other: PyValue -> string)
    ensures var ingest := DayIngest(groups, fetch, fromIso, other);
      forall d :: ingest(d).Some? ==> ingest(d).value.0 == ingest(d).value.1
  {
    var ingest := DayIngest(groups, fetch, fromIso, other);
    forall d: Day | ingest(d).Some?
      ensures ingest(d).value.0 == ingest(d).value.1
    {
      var r := IngestDay(groups, g => fetch(d, g), fromIso, other);
      assert r.Some?;
    }
  }

  /** When each day is ingested by `IngestDay`, the bootstrap's event and
      game totals agree. */
  lemma BootstrapTotalsAgree(row: Option<SeasonRow>, force: bool, maxDays: Option<int>,
                             groups: seq<int>, fetch: (Day, int) -> Option<seq<PyValue>>,
                             fromIso: string -> Option<Stamp>, other: PyValue -> string)
    ensures BootstrapSeason(row, force, maxDays, DayIngest(groups, fetch, fromIso, other)).Ok? ==>
      var o := BootstrapSeason(row, force, maxDays, DayIngest(groups, fetch, fromIso, other)).value.0;
      o.Ran? ==> o.totals.events == o.totals.games
  {
    DayIngestBalanced(groups, fetch, fromIso, other);
    if BootstrapSeason(row, force, maxDays, DayIngest(groups, fetch, fromIso, other)).Ok? {
      BootstrapBalanced(row, force, maxDays, DayIngest(groups, fetch, fromIso, other));
    }
  }

  /** The per-day outcome the bootstrap sees when each day is one call of
      the ingest: its `eventsSeen` and `gamesUpserted`, or `None` when it
      raises. */
  function DayIngest(groups: seq<int>, fetch: (Day, int) -> Option<seq<PyValue>>,
                     fromIso: string -> Option<Stamp>, other: PyValue -> string): Day -> Option<(int, int)> {
    d => var r := IngestDay(groups, g => fetch(d, g), fromIso, other);
      if r.Some? then Some((r.value.eventsSeen as int, r.value.gamesUpserted as int)) else None
  }

  // ---------------------------------------------------------------------------
  // Season phase
  // ---------------------------------------------------------------------------

  /** A `SeasonPhase` row; times are instants on one clock. */
  datatype Phase = Phase(id: int, seasonId: int, start: int, end: int, priority: int)

  predicate PhaseMatches(p: Phase, seasonId: int, t: int) {
    p.seasonId == seasonId && p.start <= t < p.end
  }

  /** `ORDER BY priority ASC, startDate DESC, id DESC`. */
  function PhaseKey(p: Phase): Key {
    Key(p.priority as real, (-p.start) as real, -p.id)
  }

  /** The first phase in that order among those of the season whose window
      holds `t`. */
  function BestPhase(phases: seq<Phase>, seasonId: int, t: int): (r: Option<Phase>)
    ensures r.None? <==> forall i :: 0 <= i < |phases| ==> !PhaseMatches(phases[i], seasonId, t)
    ensures r.Some? ==> r.value in phases && PhaseMatches(r.value, seasonId, t)
    ensures r.Some? ==> forall i :: 0 <= i < |phases| && PhaseMatches(phases[i], seasonId, t) ==>
      KeyLe(PhaseKey(r.value), PhaseKey(phases[i]))
  {
    if |phases| == 0 then None
    else
      var rest := BestPhase(phases[1..], seasonId, t);
      assert forall i :: 1 <= i < |phases| ==> phases[i] == phases[1..][i - 1];
      if !PhaseMatches(phases[0], seasonId, t) then rest
      else if rest.None? then Some(phases[0])
      else if KeyLe(PhaseKey(phases[0]), PhaseKey(rest.value)) then
        assert forall i :: 1 <= i < |phases| && PhaseMatches(phases[i], seasonId, t) ==>
          KeyLe(PhaseKey(phases[0]), PhaseKey(phases[i])) by {
          forall i | 1 <= i < |phases| && PhaseMatches(phases[i], seasonId, t)
            ensures KeyLe(PhaseKey(phases[0]), PhaseKey(phases[i]))
          {
            KeyLeTransitive(PhaseKey(phases[0]), PhaseKey(rest.value), PhaseKey(phases[i]));
          }
        }
        Some(phases[0])
      else
        KeyLeTotal(PhaseKey(phases[0]), PhaseKey(rest.value));
        rest
  }

  /** `_lookup_season_phase_id_for_game`. */
  function PhaseIdFor(phases: seq<Phase>, seasonId: int, t: int): (r: Option<int>)
    ensures r.None? <==> forall i :: 0 <= i < |phases| ==> !PhaseMatches(phases[i], seasonId, t)
  {
    var p :- BestPhase(phases, seasonId, t);
    Some(p.id)
  }

  /** The chosen phase is the only matching one that comes first: any
      matching phase that sorts no later than every matching phase has the
      chosen id. */
  lemma PhaseChoiceUnique(phases: seq<Phase>, seasonId: int, t: int, q: Phase)
    requires q in phases && PhaseMatches(q, seasonId, t)
    requires forall i :: 0 <= i < |phases| && PhaseMatches(phases[i], seasonId, t) ==> KeyLe(PhaseKey(q), PhaseKey(phases[i]))
    ensures PhaseIdFor(phases, seasonId, t) == Some(q.id)
  {
    var p := BestPhase(phases, seasonId, t);
    var i :| 0 <= i < |phases| && phases[i] == q;
    var j :| 0 <= j < |phases| && phases[j] == p.value;
    KeyLeAntisymmetric(PhaseKey(q), PhaseKey(p.value));
  }
}
