/** The ESPN helpers: the client's URL builders, its timestamp rewriting, its
    calendar extraction, its score parsing and event extraction, and the
    older parser's date handling and side selection.  The HTTP fetches are
    not modelled; `datetime.fromisoformat` is the parameter `fromIso`. */
module Espn {
  import opened Wrappers
  import opened Text
  import opened Values
  import opened Calendar

  /** A parsed timestamp: the calendar day (what `.date()` keeps) and the
      second within it. */
  datatype Stamp = Stamp(day: Day, second: int)

  datatype EspnError =
    | NotIterable   // a `for` over a value that is not iterable
    | BadTimestamp  // a timestamp that is not text or that `fromisoformat` rejects
    | NoBounds      // the season's first or last day cannot be determined
    | MissingDate   // a game object whose `date` is missing or falsy
    | NotDict       // a `.get` on a value that is not a dict

  // ---------------------------------------------------------------------------
  // Client and URLs
  // ---------------------------------------------------------------------------

  predicate IsSlash(c: char) {
    c == '/'
  }

  predicate Slashes(s: string) {
    forall i :: 0 <= i < |s| ==> s[i] == '/'
  }

  /** The client's normalised configuration. */
  datatype Client = Client(base: string, keyword: string)

  /** `r` is `s` with some slashes taken off each end. */
  predicate Padded(s: string, r: string) {
    exists i :: 0 <= i <= |s| - |r| && s[i..i + |r|] == r && Slashes(s[..i]) && Slashes(s[i + |r|..])
  }

  /** `s.strip("/")`: the text between the leading and the trailing slashes. */
  function TrimSlashes(s: string): (r: string)
    ensures r == [] || (r[0] != '/' && r[|r| - 1] != '/')
    ensures Padded(s, r)
  {
    Trimmed(s);
    StripLeftBy(StripRightBy(s, IsSlash), IsSlash)
  }

  /** Stripping the slashes off the right and then off the left leaves text
      with no slash at either end, found inside `s` between slashes. */
  lemma Trimmed(s: string)
    ensures var k := StripLeftBy(StripRightBy(s, IsSlash), IsSlash);
      (k == [] || (k[0] != '/' && k[|k| - 1] != '/')) && Padded(s, k)
  {
    var t := StripRightBy(s, IsSlash);
    var k := StripLeftBy(t, IsSlash);
    if k != [] {
      SuffixLast(t, k);
    }
    PaddedAt(s, t, k);
  }

  lemma SuffixLast(t: string, k: string)
    requires 0 < |k| <= |t| && k == t[|t| - |k|..]
    ensures k[|k| - 1] == t[|t| - 1]
  {
  }

  /** Slashes stripped from the right of `s` (giving `t`), then from the left
      of `t` (giving `k`). */
  lemma PaddedAt(s: string, t: string, k: string)
    requires |t| <= |s| && t == s[..|t|] && Slashes(s[|t|..])
    requires |k| <= |t| && k == t[|t| - |k|..] && Slashes(t[..|t| - |k|])
    ensures Padded(s, k)
  {
    var i := |t| - |k|;
    assert s[i..i + |k|] == k;
    assert s[..i] == t[..i];
    assert s[i + |k|..] == s[|t|..];
  }

  /** The constructor: the base loses its trailing slashes and the keyword
      loses the slashes at both ends, so that the URLs join them with
      exactly one slash. */
  function NewClient(baseUrl: string, keyword: string): (c: Client)
    ensures c.base == [] || c.base[|c.base| - 1] != '/'
    ensures c.keyword == [] || (c.keyword[0] != '/' && c.keyword[|c.keyword| - 1] != '/')
    ensures StartsWith(baseUrl, c.base) && Slashes(baseUrl[|c.base|..])
    ensures Padded(keyword, c.keyword)
  {
    var base := StripRightBy(baseUrl, IsSlash);
    assert baseUrl[..|base|] == base;
    Client(base, TrimSlashes(keyword))
  }

  function ScoreboardUrl(c: Client, date: string): string {
    c.base + "/" + c.keyword + "/scoreboard?dates=" + date
  }

  function ScheduleUrl(c: Client, teamId: string): string {
    c.base + "/" + c.keyword + "/teams/" + teamId + "/schedule"
  }

  /** Slashes after the configured base make no difference: the client
      keeps the same base and keyword, and hence builds the same URLs. */
  lemma BaseSlashInsensitive(baseUrl: string, tail: string, keyword: string)
    requires Slashes(tail)
    ensures NewClient(baseUrl + tail, keyword).base == NewClient(baseUrl, keyword).base
    ensures NewClient(baseUrl + tail, keyword).keyword == NewClient(baseUrl, keyword).keyword
  {
    StripRightAppend(baseUrl, tail, IsSlash);
  }

  /** Slashes around the configured keyword make no difference: the client,
      and hence every URL it builds, is the same. */
  lemma KeywordSlashInsensitive(baseUrl: string, pre: string, keyword: string, post: string)
    requires Slashes(pre) && Slashes(post)
    ensures NewClient(baseUrl, pre + keyword + post) == NewClient(baseUrl, keyword)
  {
    TrimSlashesAround(pre, keyword, post);
  }

  lemma TrimSlashesAround(pre: string, k: string, post: string)
    requires Slashes(pre) && Slashes(post)
    ensures TrimSlashes(pre + k + post) == TrimSlashes(k)
  {
    StripRightAppend(pre + k, post, IsSlash);
    StripRightPrepend(pre, k, IsSlash);
    if StripRightBy(k, IsSlash) == [] {
      assert [] + pre == pre;
      StripRightAppend([], pre, IsSlash);
    } else {
      StripLeftPrepend(pre, StripRightBy(k, IsSlash), IsSlash);
    }
  }

  /** Building a client from a client's own settings changes nothing. */
  lemma NewClientIdempotent(baseUrl: string, keyword: string)
    ensures var c := NewClient(baseUrl, keyword); NewClient(c.base, c.keyword) == c
  {
    var c := NewClient(baseUrl, keyword);
    assert StripRightBy(c.base, IsSlash) == c.base;
    assert StripRightBy(c.keyword, IsSlash) == c.keyword;
    assert StripLeftBy(c.keyword, IsSlash) == c.keyword;
  }

  // ---------------------------------------------------------------------------
  // Timestamps
  // ---------------------------------------------------------------------------

  /** The client's rewrite: only a trailing `Z` becomes `+00:00`. */
  function IsoRewrite(s: string): string {
    if EndsWith(s, "Z") then s[..|s| - 1] + "+00:00" else s
  }

  /** The parser's rewrite: when the text ends in `Z`, EVERY `Z` becomes
      `+00:00`. */
  function ParserRewrite(s: string): string {
    if EndsWith(s, "Z") then ReplaceChar(s, 'Z', "+00:00") else s
  }

  /** The client's rewrite never leaves a trailing `Z` and is idempotent. */
  lemma IsoRewriteIdempotent(s: string)
    ensures !EndsWith(IsoRewrite(s), "Z")
    ensures IsoRewrite(IsoRewrite(s)) == IsoRewrite(s)
  {
    if EndsWith(s, "Z") {
      var r := IsoRewrite(s);
      assert r[|r| - 1] == '0';
    }
  }

  /** The two rewrites agree exactly when the text does not end in `Z` or its
      trailing `Z` is its only one. */
  lemma RewritesAgree(s: string)
    ensures ParserRewrite(s) == IsoRewrite(s) <==> (!EndsWith(s, "Z") || 'Z' !in s[..|s| - 1])
  {
    if EndsWith(s, "Z") {
      var p := s[..|s| - 1];
      assert s == p + "Z";
      ReplaceAppend(p, "Z", 'Z', "+00:00");
      assert ReplaceChar("Z", 'Z', "+00:00") == "+00:00";
      if 'Z' in p {
        assert 'Z' !in ParserRewrite(s);
        var i :| 0 <= i < |p| && p[i] == 'Z';
        assert IsoRewrite(s)[i] == 'Z';
      }
    }
  }

  /** `_parse_iso`: the client's rewrite, then `fromisoformat`; a value that
      is not text fails like a rejected one. */
  function ParseIso(v: PyValue, fromIso: string -> Option<Stamp>): Option<Stamp> {
    if v.StrVal? then fromIso(IsoRewrite(v.s)) else None
  }

  // ---------------------------------------------------------------------------
  // Calendar
  // ---------------------------------------------------------------------------

  predicate Increasing(xs: seq<Day>) {
    forall i, j :: 0 <= i < j < |xs| ==> xs[i] < xs[j]
  }

  /** Adds `x` to an increasing sequence, keeping it increasing. */
  function InsertUnique(x: Day, xs: seq<Day>): (r: seq<Day>)
    requires Increasing(xs)
    ensures Increasing(r)
    ensures forall y :: y in r <==> y == x || y in xs
  {
    if |xs| == 0 then [x]
    else if x < xs[0] then [x] + xs
    else if x == xs[0] then xs
    else
      var rest := InsertUnique(x, xs[1..]);
      assert forall y :: y in xs <==> y == xs[0] || y in xs[1..];
      assert forall j :: 0 <= j < |rest| ==> xs[0] < rest[j] by {
        forall j | 0 <= j < |rest|
          ensures xs[0] < rest[j]
        {
          assert rest[j] in rest;
          if rest[j] != x {
            var k :| 0 <= k < |xs[1..]| && xs[1..][k] == rest[j];
            assert xs[k + 1] == rest[j];
          }
        }
      }
      [xs[0]] + rest
  }

  /** `sorted(set(xs))`. */
  function SortedSet(xs: seq<Day>): (r: seq<Day>)
    ensures Increasing(r)
    ensures forall y :: y in r <==> y in xs
  {
    if |xs| == 0 then []
    else
      assert forall y :: y in xs <==> y == xs[0] || y in xs[1..];
      InsertUnique(xs[0], SortedSet(xs[1..]))
  }

  /** An increasing sequence is determined by its elements, so `SortedSet` is
      THE sorted, duplicate-free listing of its input. */
  lemma {:induction false} IncreasingUnique(a: seq<Day>, b: seq<Day>)
    requires Increasing(a) && Increasing(b)
    requires forall y :: y in a <==> y in b
    ensures a == b
    decreases |a|
  {
    assert |a| > 0 <==> |b| > 0 by {
      if |a| > 0 {
        assert a[0] in a;
      }
      if |b| > 0 {
        assert b[0] in b;
      }
    }
    if |a| > 0 {
      assert a[0] == b[0] by {
        assert a[0] in b && b[0] in a;
        var i :| 0 <= i < |b| && b[i] == a[0];
        var j :| 0 <= j < |a| && a[j] == b[0];
        assert b[0] <= a[0] && a[0] <= b[0];
      }
      assert forall y :: y in a[1..] <==> y in b[1..] by {
        forall y
          ensures y in a[1..] <==> y in b[1..]
        {
          assert y in a <==> y == a[0] || y in a[1..];
          assert y in b <==> y == b[0] || y in b[1..];
          if y in a[1..] {
            var i :| 0 <= i < |a[1..]| && a[1..][i] == y;
            assert a[0] < a[i + 1];
          }
          if y in b[1..] {
            var i :| 0 <= i < |b[1..]| && b[1..][i] == y;
            assert b[0] < b[i + 1];
          }
        }
      }
      IncreasingUnique(a[1..], b[1..]);
      assert a == [a[0]] + a[1..] && b == [b[0]] + b[1..];
    }
  }

  /** `x.get(key) or []` iterated, for `x` a dict. */
  function ItemsAt(d: PyValue, key: string): (r: Result<seq<PyValue>, EspnError>)
    ensures r.Err? <==> Iterate(Or(GetOrNone(d, key), ListVal([]))).None?
    ensures r.Err? ==> r.error == NotIterable
  {
    Iterate(Or(GetOrNone(d, key), ListVal([]))).ToResult(NotIterable)
  }

  /** The days of a list of timestamps, in order; the first unreadable one
      makes the whole list fail. */
  function ParseDays(items: seq<PyValue>, fromIso: string -> Option<Stamp>): (r: Result<seq<Day>, EspnError>)
    ensures r.Ok? <==> forall i :: 0 <= i < |items| ==> ParseIso(items[i], fromIso).Some?
    ensures r.Err? ==> r.error == BadTimestamp
    ensures r.Ok? ==> (|r.value| == |items| &&
      forall i :: 0 <= i < |items| ==> r.value[i] == ParseIso(items[i], fromIso).value.day)
  {
    if |items| == 0 then Ok([])
    else
      var t :- ParseIso(items[0], fromIso).ToResult(BadTimestamp);
      var rest :- ParseDays(items[1..], fromIso);
      assert forall i :: 1 <= i < |items| ==> items[i] == items[1..][i - 1];
      Ok([t.day] + rest)
  }

  /** `extract_calendar_dates`: the days of the league's calendar, sorted
      and without duplicates. */
  function CalendarDates(league: PyValue, fromIso: string -> Option<Stamp>): (r: Result<seq<Day>, EspnError>)
    requires league.DictVal?
    ensures r.Ok? <==> (ItemsAt(league, "calendar").Ok? &&
      forall i :: 0 <= i < |ItemsAt(league, "calendar").value| ==> ParseIso(ItemsAt(league, "calendar").value[i], fromIso).Some?)
    ensures r.Ok? ==> Increasing(r.value)
    ensures r.Ok? ==> var items := ItemsAt(league, "calendar").value;
      forall d :: d in r.value <==> exists i :: 0 <= i < |items| && ParseIso(items[i], fromIso).value.day == d
  {
    var items :- ItemsAt(league, "calendar");
    var days :- ParseDays(items, fromIso);
    Ok(SortedSet(days))
  }

  /** The result is the ONLY increasing listing of the calendar's days. */
  lemma CalendarDatesCanonical(league: PyValue, fromIso: string -> Option<Stamp>, s: seq<Day>)
    requires league.DictVal? && CalendarDates(league, fromIso).Ok?
    requires Increasing(s)
    requires forall d :: d in s <==> d in ParseDays(ItemsAt(league, "calendar").value, fromIso).value
    ensures s == CalendarDates(league, fromIso).value
  {
    IncreasingUnique(s, CalendarDates(league, fromIso).value);
  }

  function MinOf(xs: seq<Day>): (m: Day)
    requires |xs| > 0
    ensures m in xs && forall y :: y in xs ==> m <= y
  {
    if |xs| == 1 then xs[0]
    else
      assert forall y :: y in xs <==> y == xs[0] || y in xs[1..];
      var m := MinOf(xs[1..]);
      if xs[0] <= m then xs[0] else m
  }

  function MaxOf(xs: seq<Day>): (m: Day)
    requires |xs| > 0
    ensures m in xs && forall y :: y in xs ==> y <= m
  {
    if |xs| == 1 then xs[0]
    else
      assert forall y :: y in xs <==> y == xs[0] || y in xs[1..];
      var m := MaxOf(xs[1..]);
      if xs[0] >= m then xs[0] else m
  }

  predicate HasKey(d: PyValue, key: string) {
    Get(d, key).Some?
  }

  /** The day of an explicit bound field: absent gives `None`, present but
      unreadable is an error. */
  function ExplicitDay(league: PyValue, key: string, fromIso: string -> Option<Stamp>): (r: Result<Option<Day>, EspnError>)
    ensures r.Err? <==> HasKey(league, key) && ParseIso(Get(league, key).value, fromIso).None?
    ensures r.Ok? ==> (r.value.Some? <==> HasKey(league, key))
    ensures r.Ok? && r.value.Some? ==> r.value.value == ParseIso(Get(league, key).value, fromIso).value.day
  {
    match Get(league, key)
    case None => Ok(None)
    case Some(v) =>
      var t :- ParseIso(v, fromIso).ToResult(BadTimestamp);
      Ok(Some(t.day))
  }

  /** `lo` and `hi` are the first and the last of some days. */
  predicate SpanOf(days: seq<Day>, lo: Day, hi: Day) {
    |days| > 0 && lo == days[0] && hi == days[|days| - 1]
  }

  /** The earliest and the latest day of a truthy calendar (`min(dates)`,
      `max(dates)`): the first and the last of its sorted days. */
  function CalendarSpan(league: PyValue, fromIso: string -> Option<Stamp>): (r: Result<(Day, Day), EspnError>)
    requires league.DictVal? && Truthy(GetOrNone(league, "calendar"))
    ensures CalendarDates(league, fromIso).Ok? ==> r.Ok?
    ensures r.Ok? ==> CalendarDates(league, fromIso).Ok? && SpanOf(CalendarDates(league, fromIso).value, r.value.0, r.value.1)
    ensures r.Err? ==> r.error != NoBounds
  {
    var items :- ItemsAt(league, "calendar");
    var days :- ParseDays(items, fromIso);
    TruthyCalendarItems(league);
    var lo := MinOf(days);
    var hi := MaxOf(days);
    FirstIsMin(SortedSet(days), days, lo);
    LastIsMax(SortedSet(days), days, hi);
    Ok((lo, hi))
  }

  /** A truthy calendar value iterates to at least one item. */
  lemma TruthyCalendarItems(league: PyValue)
    requires league.DictVal? && Truthy(GetOrNone(league, "calendar"))
    ensures ItemsAt(league, "calendar").Ok? ==> |ItemsAt(league, "calendar").value| > 0
  {
    var v := GetOrNone(league, "calendar");
    assert Or(v, ListVal([])) == v;
  }

  /** The part of `get_calendar_bounds` after the explicit fields: a truthy
      calendar is always read in full, and fills the missing bounds. */
  function FillBounds(league: PyValue, start: Option<Day>, end: Option<Day>, fromIso: string -> Option<Stamp>): (r: Result<(Day, Day), EspnError>)
    requires league.DictVal?
    ensures r == Err(NoBounds) <==> !Truthy(GetOrNone(league, "calendar")) && (start.None? || end.None?)
    ensures r.Ok? && start.Some? ==> r.value.0 == start.value
    ensures r.Ok? && end.Some? ==> r.value.1 == end.value
    ensures r.Ok? && (start.None? || end.None?) ==> Truthy(GetOrNone(league, "calendar")) && CalendarSpan(league, fromIso).Ok?
    ensures r.Ok? && start.None? ==> r.value.0 == CalendarSpan(league, fromIso).value.0
    ensures r.Ok? && end.None? ==> r.value.1 == CalendarSpan(league, fromIso).value.1
  {
    if Truthy(GetOrNone(league, "calendar")) then
      match CalendarSpan(league, fromIso)
      case Err(e) => Err(e)
      case Ok(span) => Ok((start.GetOr(span.0), end.GetOr(span.1)))
    else if start.None? || end.None? then Err(NoBounds)
    else Ok((start.value, end.value))
  }

  lemma FirstIsMin(s: seq<Day>, xs: seq<Day>, m: Day)
    requires Increasing(s) && (forall y :: y in s <==> y in xs)
    requires m in xs && forall y :: y in xs ==> m <= y
    ensures |s| > 0 && s[0] == m
  {
    var k :| 0 <= k < |s| && s[k] == m;
    assert s[0] in xs;
  }

  lemma LastIsMax(s: seq<Day>, xs: seq<Day>, m: Day)
    requires Increasing(s) && (forall y :: y in s <==> y in xs)
    requires m in xs && forall y :: y in xs ==> y <= m
    ensures |s| > 0 && s[|s| - 1] == m
  {
    var k :| 0 <= k < |s| && s[k] == m;
    assert s[|s| - 1] in xs;
  }

  /** `get_calendar_bounds`: each explicit field wins when present; a missing
      one falls back to the first or last calendar day; with neither it is
      an error. */
  function CalendarBounds(league: PyValue, fromIso: string -> Option<Stamp>): (r: Result<(Day, Day), EspnError>)
    requires league.DictVal?
    ensures r.Ok? ==> ExplicitDay(league, "calendarStartDate", fromIso).Ok? && ExplicitDay(league, "calendarEndDate", fromIso).Ok?
    ensures r.Ok? && HasKey(league, "calendarStartDate") ==>
      r.value.0 == ParseIso(Get(league, "calendarStartDate").value, fromIso).value.day
    ensures r.Ok? && HasKey(league, "calendarEndDate") ==>
      r.value.1 == ParseIso(Get(league, "calendarEndDate").value, fromIso).value.day
    ensures r.Ok? && !HasKey(league, "calendarStartDate") ==> (CalendarDates(league, fromIso).Ok? &&
      |CalendarDates(league, fromIso).value| > 0 && r.value.0 == CalendarDates(league, fromIso).value[0])
    ensures r.Ok? && !HasKey(league, "calendarEndDate") ==> (CalendarDates(league, fromIso).Ok? &&
      |CalendarDates(league, fromIso).value| > 0 &&
      r.value.1 == CalendarDates(league, fromIso).value[|CalendarDates(league, fromIso).value| - 1])
    ensures r == Err(NoBounds) <==> (ExplicitDay(league, "calendarStartDate", fromIso).Ok? &&
      ExplicitDay(league, "calendarEndDate", fromIso).Ok? && !Truthy(GetOrNone(league, "calendar")) &&
      (!HasKey(league, "calendarStartDate") || !HasKey(league, "calendarEndDate")))
  {
    var start :- ExplicitDay(league, "calendarStartDate", fromIso);
    var end :- ExplicitDay(league, "calendarEndDate", fromIso);
    FillBounds(league, start, end, fromIso)
  }

  // ---------------------------------------------------------------------------
  // Scores
  // ---------------------------------------------------------------------------

  /** The value of the first of `keys` present in the dict with a value
      other than `None`. */
  function FirstPresent(d: PyValue, keys: seq<string>): (r: Option<PyValue>)
    requires d.DictVal?
    ensures r.Some? ==> (r.value != NoneVal && exists i :: 0 <= i < |d.entries| && d.entries[i].1 == r.value)
    ensures r.None? <==> forall k :: k in keys ==> GetOrNone(d, k) == NoneVal
    ensures |keys| > 0 && GetOrNone(d, keys[0]) != NoneVal ==> r == Some(GetOrNone(d, keys[0]))
  {
    if |keys| == 0 then None
    else if GetOrNone(d, keys[0]) != NoneVal then Some(GetOrNone(d, keys[0]))
    else
      assert forall k :: k in keys <==> k == keys[0] || k in keys[1..];
      FirstPresent(d, keys[1..])
  }

  const ScoreKeys: seq<string> := ["value", "displayValue", "score"]

  /** `_parse_score`.  A bool is an `int` to Python; a float is truncated. */
  function ParseScore(raw: PyValue): (r: int)
    ensures raw.NoneVal? || raw == StrVal("") ==> r == 0
    ensures raw.IntVal? ==> r == raw.i
    ensures raw.StrVal? ==> r >= 0
    ensures raw.StrVal? && !AllDigits(Strip(raw.s)) ==> r == 0
    ensures (raw.ListVal? || raw.TupleVal? || raw.DateVal? || raw.DateTimeVal?) ==> r == 0
    decreases raw
  {
    match raw
    case NoneVal => 0
    case BoolVal(b) => if b then 1 else 0
    case IntVal(i) => i
    case FloatVal(x) => Truncate(x)
    case StrVal(s) =>
      var t := Strip(s);
      if AllDigits(t) then DigitsValue(t) else 0
    case DictVal(entries) =>
      (match FirstPresent(raw, ScoreKeys)
       case None => 0
       case Some(v) =>
         var i :| 0 <= i < |entries| && entries[i].1 == v;
         assert entries[i] in entries;
         ParseScore(entries[i].1))
    case _ => 0
  }

  /** A printed score, with or without surrounding spaces, reads back as
      that score. */
  lemma ParseScoreRoundTrip(n: nat)
    ensures ParseScore(StrVal(ShowNat(n))) == n
    ensures ParseScore(StrVal(" " + ShowNat(n) + " ")) == n
  {
    var s := ShowNat(n);
    StripOfDigits(s);
    ShowNatRoundTrip(n);
    StripPadded(s);
  }

  lemma StripPadded(s: string)
    requires AllDigits(s)
    ensures Strip(" " + s + " ") == s
  {
    var p := " " + s + " ";
    assert p[1..] == s + " ";
    assert !IsSpace((s + " ")[0]);
    assert StripLeft(s + " ") == s + " ";
    assert StripLeft(p) == s + " ";
    assert (s + " ")[..|s|] == s;
    assert StripRight(s + " ") == StripRight(s);
    assert !IsSpace(s[|s| - 1]);
    assert StripRight(s) == s;
  }

  /** A score wrapped in a `{"value": …}` object reads as the score. */
  lemma ParseScoreWrapped(n: nat)
    ensures ParseScore(DictVal([("value", StrVal(ShowNat(n)))])) == n
  {
    var d := DictVal([("value", StrVal(ShowNat(n)))]);
    assert GetOrNone(d, "value") == StrVal(ShowNat(n));
    ParseScoreOfObject(d);
    ParseScoreRoundTrip(n);
  }

  /** A score object is read through its first non-`None` field among
      `value`, `displayValue`, `score`; with none of them it scores 0. */
  lemma ParseScoreOfObject(raw: PyValue)
    requires raw.DictVal?
    ensures FirstPresent(raw, ScoreKeys).None? ==> ParseScore(raw) == 0
    ensures FirstPresent(raw, ScoreKeys).Some? ==> ParseScore(raw) == ParseScore(FirstPresent(raw, ScoreKeys).value)
    ensures GetOrNone(raw, "value") != NoneVal ==> ParseScore(raw) == ParseScore(GetOrNone(raw, "value"))
  {
    if GetOrNone(raw, "value") != NoneVal {
      assert FirstPresent(raw, ScoreKeys) == Get(raw, "value");
    }
  }

  // ---------------------------------------------------------------------------
  // Events
  // ---------------------------------------------------------------------------

  /** `v[0]`: the first item of a non-empty list or tuple, the first character
      of a non-empty string; anything else raises. */
  function Head(v: PyValue): (r: Option<PyValue>)
    ensures (v.ListVal? || v.TupleVal?) && |v.items| > 0 ==> r == Some(v.items[0])
    ensures r.Some? <==> ((v.ListVal? || v.TupleVal?) && |v.items| > 0) || (v.StrVal? && |v.s| > 0)
  {
    match v
    case ListVal(items) => if |items| > 0 then Some(items[0]) else None
    case TupleVal(items) => if |items| > 0 then Some(items[0]) else None
    case StrVal(s) => if |s| > 0 then Some(StrVal([s[0]])) else None
    case _ => None
  }

  /** The broadcast of a competition: its own `broadcast` when truthy, else
      the first name of its first `broadcasts` entry when that entry has
      names, else the falsy `broadcast` itself. */
  function Broadcast(comp: PyValue): (r: Option<PyValue>)
    requires comp.DictVal?
    ensures Truthy(GetOrNone(comp, "broadcast")) ==> r == Some(GetOrNone(comp, "broadcast"))
    ensures !Truthy(GetOrNone(comp, "broadcast")) && !Truthy(GetOrNone(comp, "broadcasts")) ==>
      r == Some(GetOrNone(comp, "broadcast"))
    ensures (!Truthy(GetOrNone(comp, "broadcast")) && Truthy(GetOrNone(comp, "broadcasts")) &&
      Head(GetOrNone(comp, "broadcasts")).Some? && Head(GetOrNone(comp, "broadcasts")).value.DictVal? &&
      Truthy(GetOrNone(Head(GetOrNone(comp, "broadcasts")).value, "names"))) ==>
      r == Head(GetOrNone(Head(GetOrNone(comp, "broadcasts")).value, "names"))
  {
    var b := GetOrNone(comp, "broadcast");
    if Truthy(b) then Some(b)
    else
      var bs := Or(GetOrNone(comp, "broadcasts"), ListVal([]));
      if !Truthy(bs) then Some(b)
      else
        var b0 :- Head(bs);
        if !b0.DictVal? then None
        else
          var names := GetOrNone(b0, "names");
          if !Truthy(names) then Some(b) else Head(names)
  }

  /** A competitor dict whose `homeAway` is `side`. */
  predicate IsSide(c: PyValue, side: string) {
    c.DictVal? && GetOrNone(c, "homeAway") == StrVal(side)
  }

  /** Every competitor before position `i` is a dict on another side. */
  predicate PassedOver(cs: seq<PyValue>, side: string, i: int)
    requires 0 <= i <= |cs|
  {
    forall j :: 0 <= j < i ==> cs[j].DictVal? && !IsSide(cs[j], side)
  }

  /** `next((c for c in cs if c.get("homeAway") == side), None)`, as the
      position found: `None` when the scan reaches a competitor that is not a
      dict (its `.get` raises), `Some(None)` when it runs out. */
  function FirstSide(cs: seq<PyValue>, side: string): (r: Option<Option<nat>>)
    ensures r.Some? && r.value.Some? ==> (r.value.value < |cs| && IsSide(cs[r.value.value], side) &&
      PassedOver(cs, side, r.value.value))
    ensures r == Some(None) <==> PassedOver(cs, side, |cs|)
    ensures r.None? ==> exists i :: 0 <= i < |cs| && !cs[i].DictVal? && PassedOver(cs, side, i)
  {
    if |cs| == 0 then Some(None)
    else if !cs[0].DictVal? then None
    else if IsSide(cs[0], side) then Some(Some(0))
    else
      var rest := FirstSide(cs[1..], side);
      assert forall j :: 1 <= j <= |cs| ==> (PassedOver(cs, side, j) <==> PassedOver(cs[1..], side, j - 1)) by {
        forall j | 1 <= j <= |cs|
          ensures PassedOver(cs, side, j) <==> PassedOver(cs[1..], side, j - 1)
        {
          assert forall k :: 1 <= k < j ==> cs[k] == cs[1..][k - 1];
        }
      }
      match rest
      case None =>
        var i :| 0 <= i < |cs[1..]| && !cs[1..][i].DictVal? && PassedOver(cs[1..], side, i);
        assert PassedOver(cs, side, i + 1);
        None
      case Some(None) => Some(None)
      case Some(Some(i)) => Some(Some(i + 1))
  }

  /** What `team_info` reads from a competitor: the team's id as text, its
      display name (short name, then `""`, as fallbacks), and the score. */
  datatype TeamInfo = TeamInfo(id: string, name: PyValue, score: int)

  /** `team_info`; `None` when the competitor's `team` is truthy but not a
      dict.  `str` of a value that is not text, a number, a bool or `None`
      is `other`'s. */
  function ReadTeam(c: PyValue, other: PyValue -> string): (r: Option<TeamInfo>)
    requires c.DictVal?
    ensures r.Some? ==> r.value.score == ParseScore(GetOrNone(c, "score"))
    ensures r.None? <==> (Truthy(GetOrNone(c, "team")) && !GetOrNone(c, "team").DictVal?)
  {
    var team := Or(GetOrNone(c, "team"), DictVal([]));
    if !team.DictVal? then None
    else
      var id := StrOf(GetOrNone(team, "id"), other);
      var name := Or(Or(GetOrNone(team, "displayName"), GetOrNone(team, "shortDisplayName")), StrVal(""));
      Some(TeamInfo(id, name, ParseScore(GetOrNone(c, "score"))))
  }

  /** The simple game record an event maps to. */
  datatype Game = Game(
    externalId: PyValue, date: Stamp,
    homeId: string, awayId: string, homeName: PyValue, awayName: PyValue,
    homeScore: int, awayScore: int, broadcast: PyValue)

  /** The competitors list of an event's first competition, and the
      competition itself; `None` when reading them raises or there is no
      competition. */
  function Competition(event: PyValue): (r: Option<(PyValue, seq<PyValue>)>)
    requires event.DictVal?
    ensures !Truthy(GetOrNone(event, "competitions")) ==> r.None?
    ensures r.Some? ==> r.value.0.DictVal? && Head(GetOrNone(event, "competitions")) == Some(r.value.0)
  {
    var comps := Or(GetOrNone(event, "competitions"), ListVal([]));
    if !Truthy(comps) then None
    else
      var comp :- Head(comps);
      if !comp.DictVal? then None
      else
        var items :- ItemsAt(comp, "competitors").ToOption();
        Some((comp, items))
  }

  /** The home and the away competitor's team information: each side is the
      first competitor marked with it. */
  function Sides(cs: seq<PyValue>, other: PyValue -> string): (r: Option<(TeamInfo, TeamInfo)>)
    ensures r.Some? ==> exists i, j :: (FirstSide(cs, "home") == Some(Some(i)) && FirstSide(cs, "away") == Some(Some(j)) &&
      ReadTeam(cs[i], other) == Some(r.value.0) && ReadTeam(cs[j], other) == Some(r.value.1))
    ensures FirstSide(cs, "home") == Some(None) || FirstSide(cs, "away") == Some(None) ==> r.None?
  {
    var h :- FirstSide(cs, "home");
    var a :- FirstSide(cs, "away");
    if h.None? || a.None? then None
    else
      var home :- ReadTeam(cs[h.value], other);
      var away :- ReadTeam(cs[a.value], other);
      Some((home, away))
  }

  /** `extract_game_from_event`: `None` when the event has no id or date, no
      competition, no home or no away competitor, or when reading any part
      of it raises. */
  function ExtractGame(event: PyValue, fromIso: string -> Option<Stamp>, other: PyValue -> string): (r: Option<Game>)
    requires event.DictVal?
    ensures r.Some? ==> Get(event, "id") == Some(r.value.externalId)
    ensures r.Some? ==> (HasKey(event, "date") && ParseIso(Get(event, "date").value, fromIso) == Some(r.value.date))
    ensures !Truthy(GetOrNone(event, "competitions")) ==> r.None?
    ensures r.Some? ==> (Competition(event).Some? &&
      Broadcast(Competition(event).value.0) == Some(r.value.broadcast) &&
      Sides(Competition(event).value.1, other) == Some((
        TeamInfo(r.value.homeId, r.value.homeName, r.value.homeScore),
        TeamInfo(r.value.awayId, r.value.awayName, r.value.awayScore))))
  {
    var id :- Get(event, "id");
    var dateText :- Get(event, "date");
    var date :- ParseIso(dateText, fromIso);
    var c :- Competition(event);
    var broadcast :- Broadcast(c.0);
    var sides :- Sides(c.1, other);
    var home := sides.0;
    var away := sides.1;
    Some(Game(id, date, home.id, away.id, home.name, away.name, home.score, away.score, broadcast))
  }

  /** A team object as the scoreboard sends it. */
  function TeamObj(teamId: string, name: string): PyValue {
    DictVal([("id", StrVal(teamId)), ("displayName", StrVal(name))])
  }

  /** A competitor object as the scoreboard sends it. */
  function CompetitorOf(side: string, teamId: string, name: string, score: nat): PyValue {
    DictVal([("homeAway", StrVal(side)), ("team", TeamObj(teamId, name)), ("score", StrVal(ShowNat(score)))])
  }

  /** A competition object with a broadcast and a competitors list. */
  function CompetitionOf(broadcast: string, cs: seq<PyValue>): PyValue {
    DictVal([("broadcast", StrVal(broadcast)), ("competitors", ListVal(cs))])
  }

  /** An event object with one competition whose competitors are `cs`. */
  function EventOf(id: string, date: string, broadcast: string, cs: seq<PyValue>): PyValue {
    DictVal([("id", StrVal(id)), ("date", StrVal(date)), ("competitions", ListVal([CompetitionOf(broadcast, cs)]))])
  }

  lemma TeamFields(teamId: string, name: string)
    ensures var t := TeamObj(teamId, name);
      GetOrNone(t, "id") == StrVal(teamId) && GetOrNone(t, "displayName") == StrVal(name) &&
      GetOrNone(t, "shortDisplayName") == NoneVal
  {
    var t := TeamObj(teamId, name);
    LookupUnique(t.entries, 0, "id");
    LookupUnique(t.entries, 1, "displayName");
  }

  lemma CompetitorFields(side: string, teamId: string, name: string, score: nat)
    ensures var c := CompetitorOf(side, teamId, name, score);
      GetOrNone(c, "homeAway") == StrVal(side) && GetOrNone(c, "team") == TeamObj(teamId, name) &&
      GetOrNone(c, "score") == StrVal(ShowNat(score))
  {
    var c := CompetitorOf(side, teamId, name, score);
    LookupUnique(c.entries, 0, "homeAway");
    LookupUnique(c.entries, 1, "team");
    LookupUnique(c.entries, 2, "score");
  }

  lemma CompetitionFields(broadcast: string, cs: seq<PyValue>)
    ensures var comp := CompetitionOf(broadcast, cs);
      GetOrNone(comp, "broadcast") == StrVal(broadcast) && GetOrNone(comp, "broadcasts") == NoneVal &&
      GetOrNone(comp, "competitors") == ListVal(cs)
  {
    var comp := CompetitionOf(broadcast, cs);
    LookupUnique(comp.entries, 0, "broadcast");
    LookupUnique(comp.entries, 1, "competitors");
  }

  lemma EventFields(id: string, date: string, broadcast: string, cs: seq<PyValue>)
    ensures var event := EventOf(id, date, broadcast, cs);
      Get(event, "id") == Some(StrVal(id)) && Get(event, "date") == Some(StrVal(date)) &&
      GetOrNone(event, "competitions") == ListVal([CompetitionOf(broadcast, cs)])
  {
    var event := EventOf(id, date, broadcast, cs);
    LookupUnique(event.entries, 0, "id");
    LookupUnique(event.entries, 1, "date");
    LookupUnique(event.entries, 2, "competitions");
  }

  /** A competitor object reads back as its team's id, name and score. */
  lemma ReadCompetitor(side: string, teamId: string, name: string, score: nat, other: PyValue -> string)
    ensures IsSide(CompetitorOf(side, teamId, name, score), side)
    ensures ReadTeam(CompetitorOf(side, teamId, name, score), other) == Some(TeamInfo(teamId, StrVal(name), score))
  {
    CompetitorFields(side, teamId, name, score);
    TeamOfCompetitor(side, teamId, name, score, other);
    ParseScoreRoundTrip(score);
  }

  lemma TeamOfCompetitor(side: string, teamId: string, name: string, score: nat, other: PyValue -> string)
    ensures ReadTeam(CompetitorOf(side, teamId, name, score), other) ==
      Some(TeamInfo(teamId, StrVal(name), ParseScore(StrVal(ShowNat(score)))))
  {
    var c := CompetitorOf(side, teamId, name, score);
    var team := TeamObj(teamId, name);
    CompetitorFields(side, teamId, name, score);
    TeamFields(teamId, name);
    assert Or(GetOrNone(c, "team"), DictVal([])) == team;
    assert Or(Or(GetOrNone(team, "displayName"), GetOrNone(team, "shortDisplayName")), StrVal("")) == StrVal(name);
  }

  /** Whichever of a home and an away competitor comes first, the scan finds
      each by its marker. */
  lemma FindSides(h: PyValue, a: PyValue, homeFirst: bool)
    requires IsSide(h, "home") && IsSide(a, "away")
    ensures var cs := if homeFirst then [h, a] else [a, h];
      FirstSide(cs, "home") == Some(Some(if homeFirst then 0 else 1)) &&
      FirstSide(cs, "away") == Some(Some(if homeFirst then 1 else 0))
  {
    assert "home" != "away" by {
      assert "home"[0] != "away"[0];
    }
    assert !IsSide(h, "away") && !IsSide(a, "home");
    var cs := if homeFirst then [h, a] else [a, h];
    assert cs[1..] == [cs[1]];
  }

  lemma ExtractFromParts(event: PyValue, fromIso: string -> Option<Stamp>, other: PyValue -> string,
                         id: PyValue, dateText: PyValue, date: Stamp, comp: PyValue, cs: seq<PyValue>,
                         broadcast: PyValue, home: TeamInfo, away: TeamInfo)
    requires event.DictVal?
    requires Get(event, "id") == Some(id) && Get(event, "date") == Some(dateText)
    requires ParseIso(dateText, fromIso) == Some(date)
    requires Competition(event) == Some((comp, cs)) && Broadcast(comp) == Some(broadcast)
    requires Sides(cs, other) == Some((home, away))
    ensures ExtractGame(event, fromIso, other) ==
      Some(Game(id, date, home.id, away.id, home.name, away.name, home.score, away.score, broadcast))
  {
  }

  /** Two competitors marked home and away are read as the two sides,
      whichever comes first. */
  lemma SidesOf(h: PyValue, a: PyValue, home: TeamInfo, away: TeamInfo, homeFirst: bool, other: PyValue -> string)
    requires IsSide(h, "home") && IsSide(a, "away")
    requires ReadTeam(h, other) == Some(home) && ReadTeam(a, other) == Some(away)
    ensures Sides(if homeFirst then [h, a] else [a, h], other) == Some((home, away))
  {
    FindSides(h, a, homeFirst);
  }

  lemma CompetitionOfEvent(id: string, date: string, broadcast: string, cs: seq<PyValue>)
    ensures Competition(EventOf(id, date, broadcast, cs)) == Some((CompetitionOf(broadcast, cs), cs))
    ensures Broadcast(CompetitionOf(broadcast, cs)) == Some(StrVal(broadcast))
  {
    CompetitionRead(id, date, broadcast, cs);
    BroadcastRead(broadcast, cs);
  }

  lemma CompetitionRead(id: string, date: string, broadcast: string, cs: seq<PyValue>)
    ensures Competition(EventOf(id, date, broadcast, cs)) == Some((CompetitionOf(broadcast, cs), cs))
  {
    CompetitionFields(broadcast, cs);
    EventFields(id, date, broadcast, cs);
    OnlyCompetition(EventOf(id, date, broadcast, cs), CompetitionOf(broadcast, cs), cs);
  }

  /** An event whose competitions are the one dict `comp` listing `cs`. */
  lemma OnlyCompetition(event: PyValue, comp: PyValue, cs: seq<PyValue>)
    requires event.DictVal? && comp.DictVal?
    requires GetOrNone(event, "competitions") == ListVal([comp])
    requires GetOrNone(comp, "competitors") == ListVal(cs)
    ensures Competition(event) == Some((comp, cs))
  {
    assert ItemsAt(comp, "competitors") == Ok(cs);
  }

  lemma BroadcastRead(broadcast: string, cs: seq<PyValue>)
    ensures Broadcast(CompetitionOf(broadcast, cs)) == Some(StrVal(broadcast))
  {
    CompetitionFields(broadcast, cs);
  }

  /** Extraction reads back every field of a well-formed event, whichever of
      the two competitors comes first: the side is decided by the
      `homeAway` marker, not by the position. */
  lemma ExtractEventOf(id: string, date: string, broadcast: string,
                       homeId: string, homeName: string, homeScore: nat,
                       awayId: string, awayName: string, awayScore: nat, homeFirst: bool,
                       fromIso: string -> Option<Stamp>, other: PyValue -> string)
    requires fromIso(IsoRewrite(date)).Some?
    ensures var h := CompetitorOf("home", homeId, homeName, homeScore);
      var a := CompetitorOf("away", awayId, awayName, awayScore);
      ExtractGame(EventOf(id, date, broadcast, if homeFirst then [h, a] else [a, h]), fromIso, other) ==
        Some(Game(StrVal(id), fromIso(IsoRewrite(date)).value, homeId, awayId, StrVal(homeName), StrVal(awayName),
                  homeScore, awayScore, StrVal(broadcast)))
  {
    var h := CompetitorOf("home", homeId, homeName, homeScore);
    var a := CompetitorOf("away", awayId, awayName, awayScore);
    var cs := if homeFirst then [h, a] else [a, h];
    ReadCompetitor("home", homeId, homeName, homeScore, other);
    ReadCompetitor("away", awayId, awayName, awayScore, other);
    SidesOf(h, a, TeamInfo(homeId, StrVal(homeName), homeScore), TeamInfo(awayId, StrVal(awayName), awayScore), homeFirst, other);
    CompetitionOfEvent(id, date, broadcast, cs);
    EventFields(id, date, broadcast, cs);
    ExtractFromParts(EventOf(id, date, broadcast, cs), fromIso, other, StrVal(id), StrVal(date),
      fromIso(IsoRewrite(date)).value, CompetitionOf(broadcast, cs), cs, StrVal(broadcast),
      TeamInfo(homeId, StrVal(homeName), homeScore), TeamInfo(awayId, StrVal(awayName), awayScore));
  }

  // ---------------------------------------------------------------------------
  // The older parser
  // ---------------------------------------------------------------------------

  /** `parse_game_date`: a missing or falsy date is `MissingDate`; a date that
      is not text, or that `fromisoformat` rejects after the parser's
      rewrite, is `BadTimestamp`. */
  function ParseGameDate(raw: PyValue, fromIso: string -> Option<Stamp>): (r: Result<Stamp, EspnError>)
    requires raw.DictVal?
    ensures r == Err(MissingDate) <==> !Truthy(GetOrNone(raw, "date"))
    ensures r.Err? ==> r.error == MissingDate || r.error == BadTimestamp
    ensures r.Ok? ==> (GetOrNone(raw, "date").StrVal? &&
      fromIso(ParserRewrite(GetOrNone(raw, "date").s)) == Some(r.value))
  {
    var d := GetOrNone(raw, "date");
    if !Truthy(d) then Err(MissingDate)
    else if !d.StrVal? then Err(BadTimestamp)
    else fromIso(ParserRewrite(d.s)).ToResult(BadTimestamp)
  }

  /** On a date with at most one `Z`, the parser reads the same timestamp as
      the client does. */
  lemma ParseGameDateAgrees(raw: PyValue, fromIso: string -> Option<Stamp>)
    requires raw.DictVal? && GetOrNone(raw, "date").StrVal?
    requires var s := GetOrNone(raw, "date").s; |s| > 0 && (!EndsWith(s, "Z") || 'Z' !in s[..|s| - 1])
    ensures ParseGameDate(raw, fromIso).ToOption() == ParseIso(GetOrNone(raw, "date"), fromIso)
  {
    RewritesAgree(GetOrNone(raw, "date").s);
  }

  datatype Side = Home | Away

  /** What the parser reads from a `home` or `away` object. */
  datatype SideInfo = SideInfo(id: string, name: PyValue, score: PyValue)

  /** `raw_game.get(key, {})` and the reads from it: a missing object reads
      as id `""`, name `defaultName` and no score; an object that is not a
      dict raises. */
  function ReadSide(raw: PyValue, key: string, defaultName: string, other: PyValue -> string): (r: Result<SideInfo, EspnError>)
    requires raw.DictVal?
    ensures r.Err? <==> HasKey(raw, key) && !Get(raw, key).value.DictVal?
    ensures r.Err? ==> r.error == NotDict
    ensures !HasKey(raw, key) ==> r == Ok(SideInfo("", StrVal(defaultName), NoneVal))
  {
    var t := Get(raw, key).GetOr(DictVal([]));
    if !t.DictVal? then Err(NotDict)
    else Ok(SideInfo(StrOf(Get(t, "id").GetOr(StrVal("")), other), Get(t, "name").GetOr(StrVal(defaultName)), GetOrNone(t, "score")))
  }

  /** The parser's game record, from the point of view of one team. */
  datatype Mapped = Mapped(
    gameId: PyValue, date: Stamp, myTeam: string, mySide: Side,
    opponentId: string, opponentName: PyValue, homeScore: PyValue, awayScore: PyValue)

  /** `map_game`. */
  function MapGame(raw: PyValue, my: string, fromIso: string -> Option<Stamp>, other: PyValue -> string): (r: Result<Mapped, EspnError>)
    requires raw.DictVal?
    ensures r.Ok? <==> (ParseGameDate(raw, fromIso).Ok? &&
      ReadSide(raw, "home", "Home", other).Ok? && ReadSide(raw, "away", "Away", other).Ok?)
    ensures ParseGameDate(raw, fromIso).Err? ==> r == Err(ParseGameDate(raw, fromIso).error)
    ensures r.Ok? ==> (r.value.date == ParseGameDate(raw, fromIso).value && r.value.myTeam == my &&
      r.value.gameId == GetOrNone(raw, "id"))
    ensures r.Ok? ==> var h := ReadSide(raw, "home", "Home", other).value;
      var a := ReadSide(raw, "away", "Away", other).value;
      (r.value.mySide == Home <==> h.id == my) &&
      (r.value.mySide == Home ==> r.value.opponentId == a.id && r.value.opponentName == a.name) &&
      (r.value.mySide == Away ==> r.value.opponentId == h.id && r.value.opponentName == h.name) &&
      r.value.homeScore == h.score && r.value.awayScore == a.score
    ensures r.Ok? && r.value.opponentId == my ==>
      ReadSide(raw, "home", "Home", other).value.id == my && ReadSide(raw, "away", "Away", other).value.id == my
  {
    var date :- ParseGameDate(raw, fromIso);
    var h :- ReadSide(raw, "home", "Home", other);
    var a :- ReadSide(raw, "away", "Away", other);
    if h.id == my then Ok(Mapped(GetOrNone(raw, "id"), date, my, Home, a.id, a.name, h.score, a.score))
    else Ok(Mapped(GetOrNone(raw, "id"), date, my, Away, h.id, h.name, h.score, a.score))
  }

  /** Mapped for either of two distinct teams, each sees the other as its
      opponent; any other team is put on the away side facing the home
      team. */
  lemma MapGameEitherSide(raw: PyValue, x: string, fromIso: string -> Option<Stamp>, other: PyValue -> string)
    requires raw.DictVal? && MapGame(raw, x, fromIso, other).Ok?
    ensures var h := ReadSide(raw, "home", "Home", other).value;
      var a := ReadSide(raw, "away", "Away", other).value;
      h.id != a.id ==>
        MapGame(raw, h.id, fromIso, other).value.mySide == Home &&
        MapGame(raw, h.id, fromIso, other).value.opponentId == a.id &&
        MapGame(raw, a.id, fromIso, other).value.mySide == Away &&
        MapGame(raw, a.id, fromIso, other).value.opponentId == h.id
    ensures var h := ReadSide(raw, "home", "Home", other).value;
      var a := ReadSide(raw, "away", "Away", other).value;
      x != h.id && x != a.id ==>
        MapGame(raw, x, fromIso, other).value.mySide == Away &&
        MapGame(raw, x, fromIso, other).value.opponentId == h.id
  {
  }
}
