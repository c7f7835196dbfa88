/** Cutting a season into fantasy weeks.  Dates are day numbers (Python's
    `date.toordinal()`, where day 1 is Monday 1 January of year 1), so the
    weekday is a remainder and a `timedelta` of days is an addition. */
module Calendar {
  import opened Wrappers

  type Day = int

  /** `date.weekday()`: Monday is 0 and Sunday is 6. */
  function Weekday(d: Day): (r: int)
    ensures 0 <= r < 7
  {
    (d + 6) % 7
  }

  function Min(a: int, b: int): (m: int)
    ensures m <= a && m <= b && (m == a || m == b)
  {
    if a <= b then a else b
  }

  /** A week as an inclusive range of days. */
  datatype Range = Range(start: Day, end: Day) {
    predicate Contains(d: Day) {
      start <= d <= end
    }
  }

  /** Every week runs for seven days, or up to `last` when that comes sooner. */
  predicate FullWeeks(r: seq<Range>, last: Day) {
    forall i :: 0 <= i < |r| ==> r[i].start <= r[i].end == Min(r[i].start + 6, last)
  }

  /** Each week starts the day after the one before it ends. */
  predicate Consecutive(r: seq<Range>) {
    forall i :: 0 < i < |r| ==> r[i].start == r[i - 1].end + 1
  }

  /** No week is longer than seven days. */
  predicate AtMostSeven(r: seq<Range>) {
    forall i :: 0 <= i < |r| ==> r[i].end <= r[i].start + 6
  }

  /** The weeks after the first: each starts at `cur`, runs Monday to
      Sunday and is cut short at `last`. */
  function LaterWeeks(cur: Day, last: Day): (r: seq<Range>)
    ensures cur > last <==> r == []
    ensures r != [] ==> r[0].start == cur && r[|r| - 1].end == last
    ensures FullWeeks(r, last) && Consecutive(r)
    decreases last - cur
  {
    if cur > last then []
    else
      var end := Min(cur + 6, last);
      var rest := LaterWeeks(end + 1, last);
      WeeksCons(Range(cur, end), rest, last);
      [Range(cur, end)] + rest
  }

  /** A full week followed, from the next day on, by full consecutive weeks. */
  lemma WeeksCons(h: Range, rest: seq<Range>, last: Day)
    requires h.start <= h.end == Min(h.start + 6, last)
    requires rest != [] ==> rest[0].start == h.end + 1
    requires FullWeeks(rest, last) && Consecutive(rest)
    ensures FullWeeks([h] + rest, last) && Consecutive([h] + rest)
  {
    var r := [h] + rest;
    forall i | 0 < i < |r| ensures r[i] == rest[i - 1] {
    }
  }

  /** Started on a Monday, every later week starts on a Monday, and every one
      but the last ends on a Sunday. */
  lemma {:induction false} LaterWeeksMondays(cur: Day, last: Day)
    requires Weekday(cur) == 0
    ensures StartsOnMondays(LaterWeeks(cur, last), 0) && EndsOnSundays(LaterWeeks(cur, last))
    decreases last - cur
  {
    if cur <= last {
      var r := LaterWeeks(cur, last);
      var end := Min(cur + 6, last);
      var rest := LaterWeeks(end + 1, last);
      assert r == [Range(cur, end)] + rest;
      MondayToSunday(cur);
      if end < last {
        LaterWeeksMondays(end + 1, last);
      }
      MondaysAfterFirst(Range(cur, end), rest);
    }
  }

  /** Six days after a Monday is a Sunday, and seven days after it a Monday. */
  lemma MondayToSunday(d: Day)
    ensures Weekday(d) == 0 ==> Weekday(d + 6) == 6 && Weekday(d + 7) == 0
  {
  }

  /** The end of the first week: the Sunday on or after `first`, or `last`
      when that comes sooner. */
  function FirstWeekEnd(first: Day, last: Day): (e: Day)
    requires first <= last
    ensures first <= e <= first + 6 && e <= last
  {
    Min(first + (6 - Weekday(first)), last)
  }

  /** `compute_weeks_from_start`: the weeks tile `first..last`, none longer
      than seven days. The first week runs from `first` to the following
      Sunday (or `last`, whichever is earlier); every later week runs Monday
      to Sunday, except that the final week ends at `last`. */
  function ComputeWeeksFromStart(first: Day, last: Day): (r: seq<Range>)
    ensures first > last <==> r == []
    ensures r != [] ==> Tiles(r, first, last)
    ensures AtMostSeven(r)
    ensures r != [] ==> r[0] == Range(first, Min(first + (6 - Weekday(first)), last))
    ensures FullAfterFirst(r, last)
    ensures StartsOnMondays(r, 1) && EndsOnSundays(r)
  {
    if first > last then []
    else
      var end1 := FirstWeekEnd(first, last);
      var later := LaterWeeks(end1 + 1, last);
      FirstWeekThenLater(Range(first, end1), later, last);
      FirstWeekThenMondays(first, last);
      [Range(first, end1)] + later
  }

  /** Every week but the first runs for seven days or up to `last`. */
  predicate FullAfterFirst(r: seq<Range>, last: Day) {
    forall i :: 0 < i < |r| ==> r[i].end == Min(r[i].start + 6, last)
  }

  /** A first week of at most seven days ending by `last`, followed by the
      later weeks from the day after it. */
  lemma FirstWeekThenLater(h: Range, later: seq<Range>, last: Day)
    requires h.start <= h.end <= h.start + 6 && h.end <= last
    requires h.end == last <==> later == []
    requires later != [] ==> later[0].start == h.end + 1 && later[|later| - 1].end == last
    requires FullWeeks(later, last) && Consecutive(later)
    ensures Tiles([h] + later, h.start, last)
    ensures AtMostSeven([h] + later)
    ensures FullAfterFirst([h] + later, last)
  {
    var r := [h] + later;
    assert forall i :: 0 < i < |r| ==> r[i] == later[i - 1];
  }

  /** Every week from index `from` on starts on a Monday. */
  predicate StartsOnMondays(r: seq<Range>, from: nat) {
    forall i :: from <= i < |r| ==> Weekday(r[i].start) == 0
  }

  /** Every week but the last ends on a Sunday. */
  predicate EndsOnSundays(r: seq<Range>) {
    forall i :: 0 <= i < |r| - 1 ==> Weekday(r[i].end) == 6
  }

  /** After the first week, the weeks run Monday to Sunday. */
  lemma FirstWeekThenMondays(first: Day, last: Day)
    requires first <= last
    ensures var end1 := FirstWeekEnd(first, last);
      var r := [Range(first, end1)] + LaterWeeks(end1 + 1, last);
      StartsOnMondays(r, 1) && EndsOnSundays(r)
  {
    var end1 := FirstWeekEnd(first, last);
    if end1 < last {
      SundayThenMonday(first);
      LaterWeeksMondays(end1 + 1, last);
    }
    MondaysAfterFirst(Range(first, end1), LaterWeeks(end1 + 1, last));
  }

  /** A week ending on a Sunday, followed by weeks that start on Mondays and
      end on Sundays. */
  lemma MondaysAfterFirst(h: Range, later: seq<Range>)
    requires later != [] ==> Weekday(h.end) == 6 && StartsOnMondays(later, 0) && EndsOnSundays(later)
    ensures StartsOnMondays([h] + later, 1) && EndsOnSundays([h] + later)
    ensures Weekday(h.start) == 0 ==> StartsOnMondays([h] + later, 0)
  {
    var r := [h] + later;
    forall i | 0 < i < |r| ensures r[i] == later[i - 1] {
    }
  }

  /** The first week's end candidate is a Sunday, and the day after it a Monday. */
  lemma SundayThenMonday(d: Day)
    ensures Weekday(d + (6 - Weekday(d))) == 6
    ensures Weekday(d + (6 - Weekday(d)) + 1) == 0
  {
  }

  /** The ranges cover `first..last` one after another, without gaps or
      overlaps. */
  predicate Tiles(r: seq<Range>, first: Day, last: Day) {
    |r| > 0 && r[0].start == first && r[|r| - 1].end == last &&
    (forall i :: 0 <= i < |r| ==> r[i].start <= r[i].end) &&
    (forall i :: 0 < i < |r| ==> r[i].start == r[i - 1].end + 1)
  }

  /** In a tiling every day of the span lies in exactly one range. */
  lemma {:induction false} TilingCoversOnce(r: seq<Range>, first: Day, last: Day, d: Day)
    requires Tiles(r, first, last) && first <= d <= last
    ensures exists i :: 0 <= i < |r| && r[i].Contains(d)
    ensures forall i, j :: 0 <= i < |r| && 0 <= j < |r| && r[i].Contains(d) && r[j].Contains(d) ==> i == j
    decreases |r|
  {
    if |r| == 1 {
      assert r[0].Contains(d);
    } else {
      var tail := r[1..];
      assert Tiles(tail, r[1].start, last);
      TilingStartsAfter(tail, r[1].start, last);
      if d <= r[0].end {
        assert r[0].Contains(d);
      } else {
        TilingCoversOnce(tail, r[1].start, last, d);
        var k :| 0 <= k < |tail| && tail[k].Contains(d);
        assert r[k + 1].Contains(d);
      }
      forall i, j | 0 <= i < |r| && 0 <= j < |r| && r[i].Contains(d) && r[j].Contains(d)
        ensures i == j
      {
        if i > 0 && j > 0 {
          TilingCoversOnce(tail, r[1].start, last, d);
          assert tail[i - 1] == r[i] && tail[j - 1] == r[j];
        }
      }
    }
  }

  /** Every range of a tiling starts at or after the tiling's first day. */
  lemma {:induction false} TilingStartsAfter(r: seq<Range>, first: Day, last: Day)
    requires Tiles(r, first, last)
    ensures forall i :: 0 <= i < |r| ==> r[i].start >= first
    decreases |r|
  {
    if |r| > 1 {
      TilingStartsAfter(r[1..], r[1].start, last);
      assert forall i :: 1 <= i < |r| ==> r[i] == r[1..][i - 1];
    }
  }

  /** Each day from `first` to `last` falls in exactly one computed week. */
  lemma WeeksPartitionSeason(first: Day, last: Day, d: Day)
    requires first <= d <= last
    ensures var r := ComputeWeeksFromStart(first, last);
      (exists i :: 0 <= i < |r| && r[i].Contains(d)) &&
      (forall i, j :: 0 <= i < |r| && 0 <= j < |r| && r[i].Contains(d) && r[j].Contains(d) ==> i == j)
  {
    TilingCoversOnce(ComputeWeeksFromStart(first, last), first, last, d);
  }

  /** A `Week` row: week 0 has no start date. */
  datatype WeekRow = WeekRow(number: int, start: Option<Day>, end: Day)

  /** Rows numbered from `from`, one per range. */
  function NumberWeeks(ranges: seq<Range>, from: int): (r: seq<WeekRow>)
    ensures |r| == |ranges|
    ensures NumberedFrom(r, from)
    ensures forall i :: 0 <= i < |r| ==>
      r[i] == WeekRow(from + i, Some(ranges[i].start), ranges[i].end)
  {
    seq(|ranges|, i requires 0 <= i < |ranges| => WeekRow(from + i, Some(ranges[i].start), ranges[i].end))
  }

  /** Rows numbered `from, from + 1, …`, each with a start date. */
  predicate NumberedFrom(rows: seq<WeekRow>, from: int) {
    forall i :: 0 <= i < |rows| ==> rows[i].number == from + i && rows[i].start.Some?
  }

  lemma NumberedConcat(a: seq<WeekRow>, b: seq<WeekRow>, from: int)
    requires NumberedFrom(a, from) && NumberedFrom(b, from + |a|)
    ensures NumberedFrom(a + b, from)
  {
    forall i | 0 <= i < |a + b|
      ensures (a + b)[i].number == from + i && (a + b)[i].start.Some?
    {
      if i >= |a| {
        assert (a + b)[i] == b[i - |a|];
      }
    }
  }

  /** The `SportSeason` dates the week plan needs: the regular season and,
      when both playoff dates are set, the playoffs. */
  datatype SeasonDates = SeasonDates(regStart: Day, regEnd: Day, playoffs: Option<(Day, Day)>)

  /** The week rows a league gets: week 0 ending the day before the regular
      season, the regular weeks from 1, and, when the season has both playoff
      dates, the playoff weeks numbered on from the last regular week. */
  function WeekPlan(regStart: Day, regEnd: Day, playoffs: Option<(Day, Day)>): (r: seq<WeekRow>)
    ensures |r| >= 1 && r[0] == WeekRow(0, None, regStart - 1)
    ensures forall i :: 0 <= i < |r| ==> r[i].number == i
    ensures forall i :: 1 <= i < |r| ==> r[i].start.Some?
  {
    Layout(regStart, ComputeWeeksFromStart(regStart, regEnd), PlayoffRanges(playoffs))
  }

  /** Week 0 ending the day before `regStart`, then one row per range of `rr`
      numbered from 1, then one per range of `pr` numbered on. */
  function Layout(regStart: Day, rr: seq<Range>, pr: seq<Range>): (r: seq<WeekRow>)
    ensures |r| >= 1 && r[0] == WeekRow(0, None, regStart - 1)
    ensures forall i :: 0 <= i < |r| ==> r[i].number == i
    ensures forall i :: 1 <= i < |r| ==> r[i].start.Some?
  {
    var regular := NumberWeeks(rr, 1);
    var post := NumberWeeks(pr, |regular| + 1);
    NumberedConcat(regular, post, 1);
    var rest := regular + post;
    var r := [WeekRow(0, None, regStart - 1)] + rest;
    assert forall i :: 1 <= i < |r| ==> r[i] == rest[i - 1];
    r
  }

  /** The playoff ranges, when the season has both playoff dates. */
  function PlayoffRanges(playoffs: Option<(Day, Day)>): seq<Range> {
    if playoffs.Some? then ComputeWeeksFromStart(playoffs.value.0, playoffs.value.1) else []
  }

  /** The regular weeks occupy numbers `1..n` with the computed regular-season
      ranges, and the playoff weeks follow as `n+1..` with the playoff ranges. */
  lemma WeekPlanSections(regStart: Day, regEnd: Day, playoffs: Option<(Day, Day)>)
    ensures var r := WeekPlan(regStart, regEnd, playoffs);
      var regular := ComputeWeeksFromStart(regStart, regEnd);
      var post := PlayoffRanges(playoffs);
      |r| == 1 + |regular| + |post| &&
      (forall i :: 0 <= i < |regular| ==> r[1 + i] == WeekRow(1 + i, Some(regular[i].start), regular[i].end)) &&
      (forall i :: 0 <= i < |post| ==>
        r[1 + |regular| + i] == WeekRow(|regular| + 1 + i, Some(post[i].start), post[i].end))
  {
    LayoutSections(regStart, ComputeWeeksFromStart(regStart, regEnd), PlayoffRanges(playoffs));
  }

  /** Week 0, then the rows numbered from 1 for `rr`, then those numbered on
      for `pr`: each range lands at its own number. */
  lemma LayoutSections(regStart: Day, rr: seq<Range>, pr: seq<Range>)
    ensures var r := Layout(regStart, rr, pr);
      |r| == 1 + |rr| + |pr| &&
      (forall i :: 0 <= i < |rr| ==> r[1 + i] == WeekRow(1 + i, Some(rr[i].start), rr[i].end)) &&
      (forall i :: 0 <= i < |pr| ==>
        r[1 + |rr| + i] == WeekRow(|rr| + 1 + i, Some(pr[i].start), pr[i].end))
  {
    var regular := NumberWeeks(rr, 1);
    var post := NumberWeeks(pr, |rr| + 1);
    var r := [WeekRow(0, None, regStart - 1)] + (regular + post);
    forall i | 0 <= i < |rr|
      ensures r[1 + i] == WeekRow(1 + i, Some(rr[i].start), rr[i].end)
    {
      assert r[1 + i] == regular[i];
    }
    forall i | 0 <= i < |pr|
      ensures r[1 + |rr| + i] == WeekRow(|rr| + 1 + i, Some(pr[i].start), pr[i].end)
    {
      assert r[1 + |rr| + i] == post[i];
    }
  }
}
