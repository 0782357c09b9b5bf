/** The Broadway week calendar of src/bway_dates.py.

    Dates are day ordinals: days since 1970-01-01, so one timedelta(days=1)
    is 1. The code only ever moves a date by whole days. */
module BwayDates {
  import opened Common

  type Day = int

  /** One row of the season table: the season label, the end date of its
      week 1, the week-number offset the season starts after, and the number
      of its last week. */
  datatype SeasonAnchor = SeasonAnchor(season: string, firstWeekEnd: Day, offset: int, numWeeks: int)

  /** One row of the calendar frame (season, week_num, week_start_date, week_end_date). */
  datatype Week = Week(season: string, weekNum: int, startDate: Day, endDate: Day)

  /** The season that is never emitted (no grosses were reported during the pandemic). */
  const ExcludedSeason: string := "2020-21"

  /** The hard-coded season table, in its source order. */
  const SeasonTable: seq<SeasonAnchor> := [
    SeasonAnchor("2017-18", 17314, 0, 53),   // 2017-05-28
    SeasonAnchor("2018-19", 17685, 0, 52),   // 2018-06-03
    SeasonAnchor("2019-20", 18049, 0, 41),   // 2019-06-02
    SeasonAnchor("2020-21", 18414, -1, 52),  // 2020-06-01
    SeasonAnchor("2021-22", 18777, 10, 52),  // 2021-05-30
    SeasonAnchor("2022-23", 19141, 0, 52),   // 2022-05-29
    SeasonAnchor("2023-24", 19505, 0, 52)    // 2023-05-28
  ]

  /** The record of week i of an anchor's season: its end date lies i - 1
      weeks after the anchor date, its start date six days before that. */
  function WeekOf(a: SeasonAnchor, i: int): Week {
    Week(a.season, i, a.firstWeekEnd + 7 * (i - 1) - 6, a.firstWeekEnd + 7 * (i - 1))
  }

  /** How many records range(offset + 1, numWeeks + 1) yields. */
  function SeasonLength(a: SeasonAnchor): nat {
    if a.numWeeks > a.offset then a.numWeeks - a.offset else 0
  }

  /** The first n weeks an anchor emits: week numbers offset + 1 .. offset + n. */
  function SeasonPrefix(a: SeasonAnchor, n: nat): seq<Week> {
    seq(n, k requires 0 <= k < n => WeekOf(a, a.offset + 1 + k))
  }

  /** What one table row contributes to the calendar. */
  function SeasonPart(a: SeasonAnchor): seq<Week> {
    if a.season == ExcludedSeason then [] else SeasonPrefix(a, SeasonLength(a))
  }

  /** The calendar a season table generates: the rows' parts in table order. */
  function CalendarOf(table: seq<SeasonAnchor>): seq<Week> {
    if table == [] then [] else CalendarOf(table[..|table| - 1]) + SeasonPart(table[|table| - 1])
  }

  /** The calendar of the hard-coded table. */
  function Calendar(): seq<Week> {
    CalendarOf(SeasonTable)
  }

  /** generate_week_data: the nested loop that walks the season table and
      appends one record per week, stepping the end date by seven days. */
  method GenerateWeekData(seasonWeeks: seq<SeasonAnchor>) returns (weekData: seq<Week>)
    ensures weekData == CalendarOf(seasonWeeks)
  {
    weekData := [];
    for r := 0 to |seasonWeeks|
      invariant weekData == CalendarOf(seasonWeeks[..r])
    {
      var row := seasonWeeks[r];
      var weekEndDate := row.firstWeekEnd + 7 * row.offset;
      ghost var before := weekData;
      if row.season != ExcludedSeason {
        var i := row.offset + 1;
        while i < row.numWeeks + 1
          invariant row.offset + 1 <= i
          invariant i <= row.numWeeks + 1 || i == row.offset + 1
          invariant weekEndDate == row.firstWeekEnd + 7 * (i - 1)
          invariant weekData == before + SeasonPrefix(row, i - row.offset - 1)
        {
          var weekStartDate := weekEndDate - 6;
          weekData := weekData + [Week(row.season, i, weekStartDate, weekEndDate)];
          assert SeasonPrefix(row, i - row.offset) == SeasonPrefix(row, i - row.offset - 1) + [WeekOf(row, i)];
          weekEndDate := weekEndDate + 7;
          i := i + 1;
        }
        assert i - row.offset - 1 == SeasonLength(row);
      }
      assert seasonWeeks[..r + 1][..r] == seasonWeeks[..r];
    }
    assert seasonWeeks[..|seasonWeeks|] == seasonWeeks;
  }

  // ----- Structure of the generated calendar -----

  predicate Included(a: SeasonAnchor) {
    a.season != ExcludedSeason
  }

  lemma {:induction false} CalendarAppend(t: seq<SeasonAnchor>, u: seq<SeasonAnchor>)
    ensures CalendarOf(t + u) == CalendarOf(t) + CalendarOf(u)
  {
    if u == [] {
      assert t + u == t;
    } else {
      var v, a := u[..|u| - 1], u[|u| - 1];
      assert (t + u)[..|t + u| - 1] == t + v && (t + u)[|t + u| - 1] == a;
      var before, mid, last := CalendarOf(t), CalendarOf(v), SeasonPart(a);
      assert CalendarOf(t + u) == CalendarOf(t + v) + last;
      CalendarAppend(t, v);
      assert CalendarOf(u) == mid + last;
      SeqAppendAssoc(before, mid, last);
    }
  }

  lemma SeqAppendAssoc<T>(a: seq<T>, b: seq<T>, c: seq<T>)
    ensures a + b + c == a + (b + c)
  {
  }

  /** Records are emitted season by season in table order: row j's weeks sit
      between the calendar of the rows before it and that of the rows after it. */
  lemma SeasonsInTableOrder(t: seq<SeasonAnchor>, j: nat)
    requires j < |t|
    ensures CalendarOf(t) == CalendarOf(t[..j]) + SeasonPart(t[j]) + CalendarOf(t[j + 1..])
  {
    var head, a, post := t[..j], t[j], t[j + 1..];
    var pre := t[..j + 1];
    SplitAround(t, j);
    CalendarAppend(pre, post);
    var before, part, after := CalendarOf(head), SeasonPart(a), CalendarOf(post);
    assert CalendarOf(pre) == before + part;
  }

  lemma SplitAround<T>(t: seq<T>, j: nat)
    requires j < |t|
    ensures t[..j + 1] + t[j + 1..] == t
    ensures t[..j + 1][..j] == t[..j] && t[..j + 1][j] == t[j] && |t[..j + 1]| == j + 1
  {
  }

  /** An included season contributes exactly numWeeks - offset records, with
      week numbers offset + 1, offset + 2, ... numWeeks, each a six-day span,
      each ending seven days after the one before. */
  lemma SeasonWeeksContiguous(a: SeasonAnchor)
    requires Included(a) && a.offset < a.numWeeks
    ensures |SeasonPart(a)| == a.numWeeks - a.offset
    ensures SeasonPart(a)[0].weekNum == a.offset + 1
    ensures SeasonPart(a)[|SeasonPart(a)| - 1].weekNum == a.numWeeks
    ensures forall k :: 0 <= k < |SeasonPart(a)| ==>
      SeasonPart(a)[k].season == a.season && SeasonPart(a)[k].startDate == SeasonPart(a)[k].endDate - 6
    ensures forall k :: 0 < k < |SeasonPart(a)| ==>
      SeasonPart(a)[k].weekNum == SeasonPart(a)[k - 1].weekNum + 1 &&
      SeasonPart(a)[k].endDate == SeasonPart(a)[k - 1].endDate + 7
  {
    var n := SeasonLength(a);
    assert n == a.numWeeks - a.offset;
    assert SeasonPart(a) == SeasonPrefix(a, n);
    assert SeasonPrefix(a, n)[0] == WeekOf(a, a.offset + 1);
    assert SeasonPrefix(a, n)[n - 1] == WeekOf(a, a.numWeeks);
    forall k | 0 <= k < n
      ensures SeasonPart(a)[k] == WeekOf(a, a.offset + 1 + k)
    {
    }
  }

  /** Where a calendar record comes from: row j of the table, week offset + 1 + m. */
  lemma {:induction false} CalendarOrigin(t: seq<SeasonAnchor>, k: nat) returns (j: nat, m: nat)
    requires k < |CalendarOf(t)|
    ensures j < |t| && Included(t[j]) && m < SeasonLength(t[j])
    ensures CalendarOf(t)[k] == WeekOf(t[j], t[j].offset + 1 + m)
  {
    var init := t[..|t| - 1];
    var c := CalendarOf(init);
    if k < |c| {
      j, m := CalendarOrigin(init, k);
      assert init[j] == t[j];
    } else {
      j, m := |t| - 1, k - |c|;
    }
  }

  /** Every record spans six days, is never of the excluded season, and is
      week i of its season's row, offset < i <= numWeeks, ending i - 1 weeks
      after the row's anchor date. */
  lemma CalendarRecord(t: seq<SeasonAnchor>, k: nat)
    requires k < |CalendarOf(t)|
    ensures CalendarOf(t)[k].startDate == CalendarOf(t)[k].endDate - 6
    ensures CalendarOf(t)[k].season != ExcludedSeason
    ensures exists j ::
              && 0 <= j < |t| && t[j].season == CalendarOf(t)[k].season
              && t[j].offset < CalendarOf(t)[k].weekNum <= t[j].numWeeks
              && CalendarOf(t)[k].endDate == t[j].firstWeekEnd + 7 * (CalendarOf(t)[k].weekNum - 1)
  {
    var j, m := CalendarOrigin(t, k);
  }

  /** The date of the last week a row emits, and of the first. */
  function LastEnd(a: SeasonAnchor): Day {
    a.firstWeekEnd + 7 * (a.numWeeks - 1)
  }

  function FirstEnd(a: SeasonAnchor): Day {
    a.firstWeekEnd + 7 * a.offset
  }

  /** Every included row's weeks end before any later included row's begin. */
  predicate Chronological(t: seq<SeasonAnchor>) {
    forall i, j :: 0 <= i < j < |t| && Included(t[i]) && Included(t[j]) ==> LastEnd(t[i]) < FirstEnd(t[j])
  }

  predicate DistinctSeasons(t: seq<SeasonAnchor>) {
    forall i, j :: 0 <= i < j < |t| ==> t[i].season != t[j].season
  }

  predicate StrictlyIncreasingEnds(cal: seq<Week>) {
    forall i, j :: 0 <= i < j < |cal| ==> cal[i].endDate < cal[j].endDate
  }

  lemma {:induction false} ChronologicalCalendarIncreasing(t: seq<SeasonAnchor>)
    requires Chronological(t)
    ensures StrictlyIncreasingEnds(CalendarOf(t))
  {
    if t != [] {
      var init, a := t[..|t| - 1], t[|t| - 1];
      assert Chronological(init) by {
        forall i, j | 0 <= i < j < |init| && Included(init[i]) && Included(init[j])
          ensures LastEnd(init[i]) < FirstEnd(init[j])
        {
          assert init[i] == t[i] && init[j] == t[j];
        }
      }
      ChronologicalCalendarIncreasing(init);
      var c, p := CalendarOf(init), SeasonPart(a);
      var cal: seq<Week> := CalendarOf(t);
      assert cal == c + p;
      forall i, j | 0 <= i < j < |cal|
        ensures cal[i].endDate < cal[j].endDate
      {
        if j < |c| {
          assert cal[i] == c[i] && cal[j] == c[j];
        } else if i >= |c| {
          assert p == SeasonPrefix(a, SeasonLength(a));
          assert p[i - |c|] == WeekOf(a, a.offset + 1 + (i - |c|));
          assert p[j - |c|] == WeekOf(a, a.offset + 1 + (j - |c|));
          assert cal[i] == p[i - |c|] && cal[j] == p[j - |c|];
        } else {
          var ji, m := CalendarOrigin(init, i);
          assert init[ji] == t[ji] && Included(a) && ji < |t| - 1;
          assert c[i].endDate <= LastEnd(t[ji]) < FirstEnd(a);
          assert p == SeasonPrefix(a, SeasonLength(a));
          assert p[j - |c|] == WeekOf(a, a.offset + 1 + (j - |c|));
          assert cal[i] == c[i] && cal[j] == p[j - |c|];
        }
      }
    }
  }

  /** With the season table in chronological order and its labels distinct,
      (season, week_num) is a key of the calendar. */
  lemma KeysUnique(t: seq<SeasonAnchor>, i: nat, k: nat)
    requires Chronological(t) && DistinctSeasons(t)
    requires i < |CalendarOf(t)| && k < |CalendarOf(t)|
    requires CalendarOf(t)[i].season == CalendarOf(t)[k].season
    requires CalendarOf(t)[i].weekNum == CalendarOf(t)[k].weekNum
    ensures i == k
  {
    ChronologicalCalendarIncreasing(t);
    var ji, mi := CalendarOrigin(t, i);
    var jk, mk := CalendarOrigin(t, k);
    assert ji == jk;
  }

  /** The hard-coded table is in chronological order and has distinct labels. */
  lemma SeasonTableOrdered()
    ensures Chronological(SeasonTable) && DistinctSeasons(SeasonTable)
  {
    SeasonTableChronological(SeasonTable);
    SeasonTableDistinct(SeasonTable);
  }

  lemma SeasonTableChronological(t: seq<SeasonAnchor>)
    requires t == SeasonTable
    ensures Chronological(t)
  {
  }

  lemma SeasonTableDistinct(t: seq<SeasonAnchor>)
    requires t == SeasonTable
    ensures DistinctSeasons(t)
  {
  }

  /** Over the hard-coded calendar, week_end_date strictly increases, so it
      and (season, week_num) are both unique keys. */
  lemma CalendarKeys()
    ensures StrictlyIncreasingEnds(Calendar())
    ensures forall i, k ::
              (&& 0 <= i < |Calendar()| && 0 <= k < |Calendar()|
               && Calendar()[i].season == Calendar()[k].season
               && Calendar()[i].weekNum == Calendar()[k].weekNum) ==> i == k
  {
    SeasonTableOrdered();
    ChronologicalCalendarIncreasing(SeasonTable);
    forall i, k | 0 <= i < |Calendar()| && 0 <= k < |Calendar()| &&
      Calendar()[i].season == Calendar()[k].season && Calendar()[i].weekNum == Calendar()[k].weekNum
      ensures i == k
    {
      KeysUnique(SeasonTable, i, k);
    }
  }

  // ----- get_most_recent_week -----

  /** A week counts as completed when "now" is at least one day past its end
      date. With now a datetime and end dates at midnight, this comparison
      is exact on day ordinals. */
  predicate Completed(w: Week, now: Day) {
    now - w.endDate >= 1
  }

  /** get_most_recent_week, with the calendar and "now" passed in: of the
      completed weeks, the one with the smallest age (the latest end date);
      no week when none is completed. */
  function LatestCompletedWeek(cal: seq<Week>, now: Day): (r: Option<Week>)
    ensures r.None? <==> forall w :: w in cal ==> !Completed(w, now)
    ensures r.Some? ==> r.value in cal && Completed(r.value, now)
    ensures r.Some? ==> forall w :: w in cal && Completed(w, now) ==> w.endDate <= r.value.endDate
  {
    if cal == [] then None
    else
      var rest := LatestCompletedWeek(cal[1..], now);
      if Completed(cal[0], now) && (rest.None? || rest.value.endDate <= cal[0].endDate) then Some(cal[0])
      else rest
  }

  /** On a calendar with strictly increasing end dates the choice is forced:
      any completed week that no completed week is closer to "now" than is
      the one returned. */
  lemma LatestCompletedWeekUnique(cal: seq<Week>, now: Day, w: Week)
    requires StrictlyIncreasingEnds(cal)
    requires w in cal && Completed(w, now)
    requires forall v :: v in cal && Completed(v, now) ==> v.endDate <= w.endDate
    ensures LatestCompletedWeek(cal, now) == Some(w)
  {
    var r := LatestCompletedWeek(cal, now);
    var i :| 0 <= i < |cal| && cal[i] == w;
    var k :| 0 <= k < |cal| && cal[k] == r.value;
    assert cal[i].endDate == cal[k].endDate;
  }

  // ----- get_historical_weeks_from_range -----

  predicate IsKey(w: Week, season: string, weekNum: int) {
    w.season == season && w.weekNum == weekNum
  }

  /** df.loc[(season == s) & (week_num == n)].index[0]: the position of the
      first record with that key, IndexError when there is none. */
  function FirstIndexOf(cal: seq<Week>, season: string, weekNum: int): (r: Result<nat>)
    ensures r.Err? <==> forall k :: 0 <= k < |cal| ==> !IsKey(cal[k], season, weekNum)
    ensures r.Err? ==> r.error == IndexError
    ensures r.Ok? ==> r.value < |cal| && IsKey(cal[r.value], season, weekNum)
    ensures r.Ok? ==> forall k :: 0 <= k < r.value ==> !IsKey(cal[k], season, weekNum)
  {
    if cal == [] then Err(IndexError)
    else if IsKey(cal[0], season, weekNum) then Ok(0)
    else match FirstIndexOf(cal[1..], season, weekNum)
      case Err(e) => Err(e)
      case Ok(k) => Ok(k + 1)
  }

  /** get_historical_weeks_from_range, on the calendar passed in: the slice
      df[index_start:index_end + 1] between the first records with the two
      keys. A missing key raises IndexError; a start after the end gives the
      empty slice. */
  function GetHistoricalWeeksFromRange(cal: seq<Week>, seasonStart: string, weekStart: int,
                                       seasonEnd: string, weekEnd: int): (r: Result<seq<Week>>)
    ensures r.Err? <==>
              || (forall k :: 0 <= k < |cal| ==> !IsKey(cal[k], seasonStart, weekStart))
              || (forall k :: 0 <= k < |cal| ==> !IsKey(cal[k], seasonEnd, weekEnd))
    ensures r.Err? ==> r.error == IndexError
    ensures r.Ok? ==> exists i :: 0 <= i <= |cal| && r.value <= cal[i..]
    ensures r.Ok? && r.value != [] ==>
              IsKey(r.value[0], seasonStart, weekStart) && IsKey(r.value[|r.value| - 1], seasonEnd, weekEnd)
    ensures r.Ok? <==> FirstIndexOf(cal, seasonStart, weekStart).Ok? && FirstIndexOf(cal, seasonEnd, weekEnd).Ok?
    ensures r.Ok? ==>
              (r.value == [] <==> FirstIndexOf(cal, seasonEnd, weekEnd).value < FirstIndexOf(cal, seasonStart, weekStart).value)
  {
    var start := FirstIndexOf(cal, seasonStart, weekStart);
    var end := FirstIndexOf(cal, seasonEnd, weekEnd);
    if start.Err? then Err(start.error)
    else if end.Err? then Err(end.error)
    else
      var indexStart, indexEnd := start.value, end.value;
      if indexStart <= indexEnd then
        SliceEnds(cal, indexStart, indexEnd);
        Ok(cal[indexStart..indexEnd + 1])
      else
        assert [] <= cal[indexStart..];
        Ok([])
  }

  /** The slice t[s..e + 1] starts at t[s], ends at t[e] and begins t[s..]. */
  lemma SliceEnds<T>(t: seq<T>, s: nat, e: nat)
    requires s <= e < |t|
    ensures var u := t[s..e + 1];
      |u| == e - s + 1 && u[0] == t[s] && u[e - s] == t[e] && u <= t[s..]
  {
  }

  /** A successful lookup is the slice from the first record with the start
      key to the first record with the end key, both included, and empty when
      the start comes after the end. */
  lemma RangeIsSlice(cal: seq<Week>, seasonStart: string, weekStart: int, seasonEnd: string, weekEnd: int)
    requires FirstIndexOf(cal, seasonStart, weekStart).Ok? && FirstIndexOf(cal, seasonEnd, weekEnd).Ok?
    ensures var s, e := FirstIndexOf(cal, seasonStart, weekStart).value, FirstIndexOf(cal, seasonEnd, weekEnd).value;
      GetHistoricalWeeksFromRange(cal, seasonStart, weekStart, seasonEnd, weekEnd)
        == Ok(if s <= e then cal[s..e + 1] else [])
  {
    var start, end := FirstIndexOf(cal, seasonStart, weekStart), FirstIndexOf(cal, seasonEnd, weekEnd);
    var r := GetHistoricalWeeksFromRange(cal, seasonStart, weekStart, seasonEnd, weekEnd);
    assert r == if start.value <= end.value then Ok(cal[start.value..end.value + 1]) else Ok([]);
  }

  /** Asking for a whole season, from week offset + 1 to its last week,
      returns exactly that season's numWeeks - offset records. */
  lemma WholeSeasonRange(t: seq<SeasonAnchor>, j: nat)
    requires Chronological(t) && DistinctSeasons(t)
    requires j < |t| && Included(t[j]) && t[j].offset < t[j].numWeeks
    ensures GetHistoricalWeeksFromRange(CalendarOf(t), t[j].season, t[j].offset + 1, t[j].season, t[j].numWeeks)
            == Ok(SeasonPart(t[j]))
    ensures |SeasonPart(t[j])| == t[j].numWeeks - t[j].offset
  {
    var a := t[j];
    var cal := CalendarOf(t);
    var before := CalendarOf(t[..j]);
    SeasonsInTableOrder(t, j);
    SeasonWeeksContiguous(a);
    var n := |SeasonPart(a)|;
    var s, e := |before|, |before| + n - 1;
    assert cal[s] == SeasonPart(a)[0];
    assert cal[e] == SeasonPart(a)[n - 1];
    assert cal[s..e + 1] == SeasonPart(a);
    RangeBetween(t, s, e);
  }

  /** On the real calendar, asking for the range between records s and e
      returns exactly the records s to e, or nothing when s comes after e. */
  lemma RangeBetween(t: seq<SeasonAnchor>, s: nat, e: nat)
    requires Chronological(t) && DistinctSeasons(t)
    requires s < |CalendarOf(t)| && e < |CalendarOf(t)|
    ensures var cal := CalendarOf(t);
      GetHistoricalWeeksFromRange(cal, cal[s].season, cal[s].weekNum, cal[e].season, cal[e].weekNum)
        == Ok(if s <= e then cal[s..e + 1] else [])
  {
    var cal := CalendarOf(t);
    FirstIndexAt(t, s);
    FirstIndexAt(t, e);
    var a, b := cal[s], cal[e];
    var r := GetHistoricalWeeksFromRange(cal, a.season, a.weekNum, b.season, b.weekNum);
    assert IsKey(cal[s], a.season, a.weekNum) && IsKey(cal[e], b.season, b.weekNum);
    assert r.Ok?;
  }

  /** With unique keys, looking up a record's key finds that record. */
  lemma FirstIndexAt(t: seq<SeasonAnchor>, s: nat)
    requires Chronological(t) && DistinctSeasons(t) && s < |CalendarOf(t)|
    ensures FirstIndexOf(CalendarOf(t), CalendarOf(t)[s].season, CalendarOf(t)[s].weekNum) == Ok(s)
  {
    var cal := CalendarOf(t);
    var r := FirstIndexOf(cal, cal[s].season, cal[s].weekNum);
    KeysUnique(t, r.value, s);
  }

  /** Any week of the excluded season is absent: asking for it raises. */
  lemma ExcludedSeasonRaises(t: seq<SeasonAnchor>, weekStart: int, seasonEnd: string, weekEnd: int)
    ensures GetHistoricalWeeksFromRange(CalendarOf(t), ExcludedSeason, weekStart, seasonEnd, weekEnd) == Err(IndexError)
  {
    forall k | 0 <= k < |CalendarOf(t)|
      ensures !IsKey(CalendarOf(t)[k], ExcludedSeason, weekStart)
    {
      CalendarRecord(t, k);
    }
  }

  /** A week number at or below a season's offset is absent too. */
  lemma WeekBeforeOffsetRaises(t: seq<SeasonAnchor>, j: nat, weekStart: int, seasonEnd: string, weekEnd: int)
    requires DistinctSeasons(t) && j < |t| && weekStart <= t[j].offset
    ensures GetHistoricalWeeksFromRange(CalendarOf(t), t[j].season, weekStart, seasonEnd, weekEnd) == Err(IndexError)
  {
    WeekBeforeOffsetAbsent(t, j, weekStart);
  }

  lemma WeekBeforeOffsetAbsent(t: seq<SeasonAnchor>, j: nat, n: int)
    requires DistinctSeasons(t) && j < |t| && n <= t[j].offset
    ensures forall k :: 0 <= k < |CalendarOf(t)| ==> !IsKey(CalendarOf(t)[k], t[j].season, n)
  {
    forall k | 0 <= k < |CalendarOf(t)|
      ensures !IsKey(CalendarOf(t)[k], t[j].season, n)
    {
      var jk, m := CalendarOrigin(t, k);
      if CalendarOf(t)[k].season == t[j].season {
        assert !(jk < j) && !(j < jk);
      }
    }
  }

  /** On the hard-coded calendar: week 1 of 2021-22 does not exist (that
      season's weeks start at 11), and 2022-23 runs from week 1 to week 52. */
  lemma MissingWeekExample()
    ensures GetHistoricalWeeksFromRange(Calendar(), "2021-22", 1, "2021-22", 52) == Err(IndexError)
  {
    SeasonTableOrdered();
    WeekBeforeOffsetRaises(SeasonTable, 4, 1, "2021-22", 52);
  }

  lemma WholeSeasonExample()
    ensures GetHistoricalWeeksFromRange(Calendar(), "2022-23", 1, "2022-23", 52).Ok?
    ensures |GetHistoricalWeeksFromRange(Calendar(), "2022-23", 1, "2022-23", 52).value| == 52
  {
    SeasonTableOrdered();
    WholeSeasonRange(SeasonTable, 5);
  }

  /** Week i of an included row, offset < i <= numWeeks, is in the calendar. */
  lemma WeekInCalendar(t: seq<SeasonAnchor>, j: nat, i: int)
    requires j < |t| && Included(t[j]) && t[j].offset < i <= t[j].numWeeks
    ensures WeekOf(t[j], i) in CalendarOf(t)
  {
    var a := t[j];
    var before, part, after := CalendarOf(t[..j]), SeasonPart(a), CalendarOf(t[j + 1..]);
    var m := i - a.offset - 1;
    assert part[m] == WeekOf(a, i) by {
      assert part == SeasonPrefix(a, SeasonLength(a));
    }
    assert CalendarOf(t)[|before| + m] == part[m] by {
      SeasonsInTableOrder(t, j);
    }
  }

  /** Dates of the hard-coded calendar: 2022-23 week 1 is 2022-05-23 ..
      2022-05-29 and week 2 ends 2022-06-05; 2021-22 week 11 ends 70 days
      after that row's anchor 2021-05-30. */
  lemma CalendarDates()
    ensures Week("2022-23", 1, 19135, 19141) in Calendar()
    ensures Week("2022-23", 2, 19142, 19148) in Calendar()
    ensures Week("2021-22", 11, 18777 + 64, 18777 + 70) in Calendar()
  {
    WeekInCalendar(SeasonTable, 5, 1);
    WeekInCalendar(SeasonTable, 5, 2);
    WeekInCalendar(SeasonTable, 4, 11);
  }

  /** On 2022-06-06 the most recent completed week is 2022-23 week 2. */
  lemma MostRecentWeekExample()
    ensures LatestCompletedWeek(Calendar(), 19149) == Some(Week("2022-23", 2, 19142, 19148))
  {
    WeekInCalendar(SeasonTable, 5, 2);
    CalendarKeys();
    LatestCompletedWeekUnique(Calendar(), 19149, Week("2022-23", 2, 19142, 19148));
  }
}
