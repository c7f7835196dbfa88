/** The `Week` table of one league and the two lookups every module makes on
    it: a week by its number, and the first unlocked week after a locked one. */
module Weeks {
  import opened Wrappers
  import opened Calendar

  /** A `Week` row.  Week 0 has no start date; `isLocked` closes the week to
      roster moves and `scoringComplete` records that it was scored. */
  datatype Week = Week(id: int, number: int, start: Option<Day>, end: Option<Day>,
                       isLocked: bool, scoringComplete: bool)

  /** `SELECT … WHERE weekNumber = :n LIMIT 1`: the first row with that number. */
  function FindWeek(weeks: seq<Week>, n: int): (r: Option<Week>)
    ensures r.Some? <==> exists i :: 0 <= i < |weeks| && weeks[i].number == n
    ensures r.Some? ==> r.value in weeks && r.value.number == n
  {
    if |weeks| == 0 then None
    else if weeks[0].number == n then Some(weeks[0])
    else
      var r := FindWeek(weeks[1..], n);
      assert forall i :: 1 <= i < |weeks| ==> weeks[i] == weeks[1..][i - 1];
      assert r.Some? ==> r.value in weeks;
      r
  }

  /** An unlocked week numbered after `n`. */
  predicate UnlockedAfter(w: Week, n: int) {
    w.number > n && !w.isLocked
  }

  /** `SELECT … WHERE id = :week_id`: the week row with that id. */
  function WeekById(weeks: seq<Week>, id: int): (r: Option<Week>)
    ensures r.Some? <==> exists i :: 0 <= i < |weeks| && weeks[i].id == id
    ensures r.Some? ==> r.value in weeks && r.value.id == id
  {
    if |weeks| == 0 then None
    else if weeks[0].id == id then Some(weeks[0])
    else
      var r := WeekById(weeks[1..], id);
      assert forall i :: 1 <= i < |weeks| ==> weeks[i] == weeks[1..][i - 1];
      assert r.Some? ==> r.value in weeks;
      r
  }

  /** `… WHERE weekNumber > :n AND isLocked = FALSE ORDER BY weekNumber LIMIT 1`:
      an unlocked week after `n` with the smallest number (the first such row
      among equals), or `None` where the code raises. */
  function NextUnlockedWeek(weeks: seq<Week>, n: int): (r: Option<Week>)
    ensures r.None? <==> forall i :: 0 <= i < |weeks| ==> !UnlockedAfter(weeks[i], n)
    ensures r.Some? ==> r.value in weeks && UnlockedAfter(r.value, n)
    ensures r.Some? ==> forall i :: 0 <= i < |weeks| && UnlockedAfter(weeks[i], n) ==> r.value.number <= weeks[i].number
  {
    if |weeks| == 0 then None
    else
      var rest := NextUnlockedWeek(weeks[1..], n);
      assert forall i :: 1 <= i < |weeks| ==> weeks[i] == weeks[1..][i - 1];
      assert rest.Some? ==> rest.value in weeks;
      if !UnlockedAfter(weeks[0], n) then rest
      else if rest.None? || weeks[0].number <= rest.value.number then Some(weeks[0])
      else rest
  }

  /** `_get_next_unlocked_week_number`: the number of that week. */
  function NextUnlocked(weeks: seq<Week>, n: int): (r: Option<int>)
    ensures r.None? <==> forall i :: 0 <= i < |weeks| ==> !UnlockedAfter(weeks[i], n)
    ensures r.Some? ==> exists i :: 0 <= i < |weeks| && UnlockedAfter(weeks[i], n) && weeks[i].number == r.value
    ensures r.Some? ==> forall i :: 0 <= i < |weeks| && UnlockedAfter(weeks[i], n) ==> r.value <= weeks[i].number
  {
    match NextUnlockedWeek(weeks, n)
    case None => None
    case Some(w) => assert w in weeks; Some(w.number)
  }

  datatype WeekError = NoUnlockedWeekAfter(n: int)

  /** The locked-week redirect: a move aimed at a locked week goes to the
      earliest unlocked week after it instead; any other week number (including one with no row)
      stays. */
  function EffectiveWeek(weeks: seq<Week>, n: int): (r: Result<int, WeekError>)
    ensures r.Err? <==> FindWeek(weeks, n).Some? && FindWeek(weeks, n).value.isLocked && NextUnlocked(weeks, n).None?
    ensures r.Ok? && r.value != n ==> r.value > n && FindWeek(weeks, n).Some? && FindWeek(weeks, n).value.isLocked
    ensures r.Ok? && r.value != n ==> exists i :: 0 <= i < |weeks| && weeks[i].number == r.value && !weeks[i].isLocked
    ensures r.Ok? && r.value != n ==> NextUnlocked(weeks, n) == Some(r.value)
    ensures r.Ok? && r.value != n ==> forall i :: 0 <= i < |weeks| && UnlockedAfter(weeks[i], n) ==> r.value <= weeks[i].number
  {
    var week := FindWeek(weeks, n);
    if week.Some? && week.value.isLocked then
      match NextUnlocked(weeks, n)
      case Some(m) => Ok(m)
      case None => Err(NoUnlockedWeekAfter(n))
    else Ok(n)
  }
}
