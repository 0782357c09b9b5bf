/** The command line of main.py: the two argument validators, the
    argument-checking sequence that picks the weeks to run, and the loop that
    concatenates each week's transformed frame.

    argv is the whole of sys.argv (argv[0] is the program name). The calendar
    and "now" are passed in; what a week's extraction and transformation
    return is a function parameter, since those fetch and parse web pages. */
module Cli {
  import opened Common
  import opened BwayDates
  import opened Transform
  import opened Load

  // ----- The validators -----

  /** The part of s that re.match's pattern must cover before `$`: `$`
      matches at the very end, or just before one final newline. */
  function Anchored(s: string): (b: string)
    ensures b == s || b + "\n" == s
    ensures b <= s
  {
    if |s| > 0 && s[|s| - 1] == '\n' then s[..|s| - 1] else s
  }

  /** check_season_format: re.match(r'^\d{4}-\d{2}$', season). */
  predicate CheckSeasonFormat(season: string): (ok: bool)
    ensures ok ==> 7 <= |season| <= 8 && AllDigits(season[..4]) && season[4] == '-'
  {
    var b := Anchored(season);
    |b| == 7 && AllDigits(b[..4]) && b[4] == '-' && AllDigits(b[5..])
  }

  /** check_week_num_format: re.match(r'^(?:[1-9]|[1-4][0-9]|5[0-3])$', week_num). */
  predicate CheckWeekNumFormat(weekNum: string): (ok: bool)
    ensures ok ==> 1 <= |weekNum| <= 3 && '1' <= weekNum[0] <= '9'
  {
    var b := Anchored(weekNum);
    || (|b| == 1 && '1' <= b[0] <= '9')
    || (|b| == 2 && '1' <= b[0] <= '4' && IsDigit(b[1]))
    || (|b| == 2 && b[0] == '5' && '0' <= b[1] <= '3')
  }

  /** Four digits, a dash, two digits, and optionally a final newline, are
      accepted as a season. */
  lemma SeasonFormatComplete(year: string, tail: string, newline: bool)
    requires |year| == 4 && |tail| == 2 && AllDigits(year) && AllDigits(tail)
    ensures CheckSeasonFormat(year + "-" + tail + (if newline then "\n" else ""))
  {
    var b := year + "-" + tail;
    var s := b + (if newline then "\n" else "");
    assert Anchored(s) == b by {
      if newline {
        assert s[..|s| - 1] == b;
      } else {
        assert s == b;
      }
    }
    assert b[..4] == year && b[5..] == tail;
  }

  /** An accepted season is four digits, a dash and two digits, optionally
      followed by one newline: nothing else gets through. */
  lemma SeasonFormatSound(season: string) returns (year: string, tail: string)
    requires CheckSeasonFormat(season)
    ensures |year| == 4 && |tail| == 2 && AllDigits(year) && AllDigits(tail)
    ensures season == year + "-" + tail || season == year + "-" + tail + "\n"
  {
    var b := Anchored(season);
    year, tail := b[..4], b[5..];
    assert b == year + "-" + tail;
  }

  /** Every season label of the hard-coded calendar passes the check. */
  lemma CalendarSeasonsAccepted()
    ensures forall k :: 0 <= k < |SeasonTable| ==> CheckSeasonFormat(SeasonTable[k].season)
  {
    forall k | 0 <= k < |SeasonTable|
      ensures CheckSeasonFormat(SeasonTable[k].season)
    {
      var s := SeasonTable[k].season;
      assert s == s[..4] + "-" + s[5..];
      SeasonFormatComplete(s[..4], s[5..], false);
    }
  }

  /** int(week_num) for an accepted week argument (int() ignores the final
      newline the check lets through). */
  function WeekNumValue(weekNum: string): int
    requires CheckWeekNumFormat(weekNum)
  {
    DigitsValue(Anchored(weekNum))
  }

  /** An accepted week argument is a number from 1 to 53 written the way
      str() writes it: no sign and no leading zero. */
  lemma WeekNumFormatSound(weekNum: string)
    requires CheckWeekNumFormat(weekNum)
    ensures 1 <= WeekNumValue(weekNum) <= 53
    ensures NatToDigits(WeekNumValue(weekNum)) == Anchored(weekNum)
  {
    var b := Anchored(weekNum);
    DigitCharValue(b[0]);
    if |b| == 1 {
      assert b == [b[0]];
      OneDigit(b[0]);
    } else {
      assert b == [b[0], b[1]];
      DigitCharValue(b[1]);
      TwoDigits(b[0], b[1]);
      var n := DigitsValue(b);
      assert n / 10 == DigitValue(b[0]) && n % 10 == DigitValue(b[1]);
      assert NatToDigits(n / 10) == [b[0]];
    }
  }

  lemma DigitCharValue(c: char)
    requires IsDigit(c)
    ensures DigitChar(DigitValue(c)) == c
  {
  }

  lemma OneDigit(c: char)
    requires IsDigit(c)
    ensures AllDigits([c]) && DigitsValue([c]) == DigitValue(c)
  {
    assert [c][..0] == [];
  }

  lemma TwoDigits(c: char, d: char)
    requires IsDigit(c) && IsDigit(d)
    ensures AllDigits([c, d]) && DigitsValue([c, d]) == DigitValue(c) * 10 + DigitValue(d)
  {
    assert [c, d][..1] == [c];
    OneDigit(c);
  }

  /** Every number from 1 to 53, written by str(), is accepted, also with a
      final newline. */
  lemma WeekNumFormatComplete(n: nat, newline: bool)
    requires 1 <= n <= 53
    ensures CheckWeekNumFormat(NatToDigits(n) + (if newline then "\n" else ""))
  {
    var b := NatToDigits(n);
    var s := b + (if newline then "\n" else "");
    assert Anchored(s) == b by {
      if newline {
        assert s[..|s| - 1] == b;
      } else {
        assert s == b;
      }
    }
    if n >= 10 {
      assert NatToDigits(n / 10) == [DigitChar(n / 10)];
      assert b == [DigitChar(n / 10), DigitChar(n % 10)];
    }
  }

  /** "0", "01", "54" and "+5" are rejected; "53" is accepted. */
  lemma WeekNumExamples()
    ensures !CheckWeekNumFormat("0") && !CheckWeekNumFormat("01")
    ensures !CheckWeekNumFormat("54") && !CheckWeekNumFormat("+5")
    ensures CheckWeekNumFormat("53") && CheckWeekNumFormat("7\n")
  {
    assert Anchored("7\n") == "7" by { assert "7\n"[..1] == "7"; }
  }

  // ----- Picking the weeks to run -----

  const SeasonStartMessage := "season_start format is incorrect.  Try dddd-dd"
  const WeekStartMessage := "week_num_start format is incorrect. Use number between 1 and 53"
  const SeasonEndMessage := "season_end format is incorrect.  Try dddd-dd"
  const WeekEndMessage := "week_num_end format is incorrect. Use number between 1 and 53"
  const MissingMessage := "Missing argument"

  /** Argument k (1 to 4) is a season at odd k and a week number at even k. */
  predicate ArgumentAccepted(k: nat, arg: string) {
    if k % 2 == 1 then CheckSeasonFormat(arg) else CheckWeekNumFormat(arg)
  }

  /** What main prints before exiting when argument k is malformed. */
  function RejectMessage(k: nat): string {
    if k == 1 then SeasonStartMessage
    else if k == 2 then WeekStartMessage
    else if k == 3 then SeasonEndMessage
    else WeekEndMessage
  }

  /** The outcome of reading and checking arguments k, k + 1, ..., 4 in that
      order: the first that is missing ends the run with "Missing argument"
      (the IndexError of sys.argv[k]), the first that is malformed ends it
      with its own message; None when all of them pass. */
  function FirstRejection(argv: seq<string>, k: nat): (r: Option<Error>)
    requires 1 <= k <= 5
    decreases 5 - k
  {
    if k == 5 then None
    else if k >= |argv| then Some(Exit(MissingMessage))
    else if !ArgumentAccepted(k, argv[k]) then Some(Exit(RejectMessage(k)))
    else FirstRejection(argv, k + 1)
  }

  /** The weeks main runs: with no argument, the most recent completed week
      (none when no week has ended a day before now); otherwise the checked
      range, where a missing endpoint's IndexError is reported as
      "Missing argument". */
  function WeeksToRun(argv: seq<string>, cal: seq<Week>, now: Day): (r: Result<seq<Week>>)
  {
    if |argv| <= 1 then
      match LatestCompletedWeek(cal, now)
      case None => Ok([])
      case Some(w) => Ok([w])
    else
      match FirstRejection(argv, 1)
      case Some(e) => Err(e)
      case None =>
        match GetHistoricalWeeksFromRange(cal, argv[1], WeekNumValue(argv[2]), argv[3], WeekNumValue(argv[4]))
        case Err(_) => Err(Exit(MissingMessage))
        case Ok(weeks) => Ok(weeks)
  }

  /** The argument handling of main, statement by statement: each argument
      is read and checked before the next one is read. */
  method SelectWeeks(argv: seq<string>, cal: seq<Week>, now: Day) returns (r: Result<seq<Week>>)
    ensures r == WeeksToRun(argv, cal, now)
  {
    if |argv| <= 1 {
      var latest := LatestCompletedWeek(cal, now);
      if latest.Some? {
        return Ok([latest.value]);
      }
      return Ok([]);
    }
    var seasonStart := argv[1];
    if !CheckSeasonFormat(seasonStart) {
      return Err(Exit(SeasonStartMessage));
    }
    if 2 >= |argv| {
      return Err(Exit(MissingMessage));
    }
    var weekNumStart := argv[2];
    if !CheckWeekNumFormat(weekNumStart) {
      return Err(Exit(WeekStartMessage));
    }
    if 3 >= |argv| {
      return Err(Exit(MissingMessage));
    }
    var seasonEnd := argv[3];
    if !CheckSeasonFormat(seasonEnd) {
      return Err(Exit(SeasonEndMessage));
    }
    if 4 >= |argv| {
      return Err(Exit(MissingMessage));
    }
    var weekNumEnd := argv[4];
    if !CheckWeekNumFormat(weekNumEnd) {
      return Err(Exit(WeekEndMessage));
    }
    var range := GetHistoricalWeeksFromRange(cal, seasonStart, WeekNumValue(weekNumStart),
                                             seasonEnd, WeekNumValue(weekNumEnd));
    if range.Err? {
      return Err(Exit(MissingMessage));
    }
    return Ok(range.value);
  }

  /** Without arguments at most one week runs: the completed week with the
      latest end date, or none when no week has ended a day before now. */
  lemma NoArgumentsRunsLatestWeek(argv: seq<string>, cal: seq<Week>, now: Day)
    requires |argv| <= 1
    ensures var r := WeeksToRun(argv, cal, now);
      && r.Ok? && |r.value| <= 1
      && (r.value == [] <==> forall w :: w in cal ==> !Completed(w, now))
      && (forall v :: v in r.value ==> v in cal && Completed(v, now))
      && (forall v, w :: v in r.value && w in cal && Completed(w, now) ==> w.endDate <= v.endDate)
  {
  }

  /** The arguments are checked in order: when the first k - 1 pass and
      argument k is malformed, the run ends with argument k's message,
      whatever follows it. */
  lemma {:induction false} FirstMalformedArgumentReported(argv: seq<string>, k: nat)
    requires 1 <= k <= 4 && k < |argv|
    requires forall m :: 1 <= m < k ==> ArgumentAccepted(m, argv[m])
    requires !ArgumentAccepted(k, argv[k])
    ensures FirstRejection(argv, 1) == Some(Exit(RejectMessage(k)))
  {
    FirstRejectionFrom(argv, 1, k);
  }

  /** When the arguments from j up to k - 1 are present and pass, checking
      from j reaches argument k. */
  lemma {:induction false} FirstRejectionFrom(argv: seq<string>, j: nat, k: nat)
    requires 1 <= j <= k <= 5
    requires k <= |argv| || k == j
    requires forall m :: j <= m < k ==> ArgumentAccepted(m, argv[m])
    ensures FirstRejection(argv, j) == FirstRejection(argv, k)
    decreases k - j
  {
    if j < k {
      assert FirstRejection(argv, j) == FirstRejection(argv, j + 1) by {
        assert j < |argv| && ArgumentAccepted(j, argv[j]);
      }
      FirstRejectionFrom(argv, j + 1, k);
    }
  }

  /** Fewer than four arguments whose present ones pass end the run with
      "Missing argument". */
  lemma MissingArgumentReported(argv: seq<string>)
    requires 2 <= |argv| < 5
    requires forall m :: 1 <= m < |argv| ==> ArgumentAccepted(m, argv[m])
    ensures WeeksToRun(argv, [], 0) == Err(Exit(MissingMessage))
    ensures forall cal, now :: WeeksToRun(argv, cal, now) == Err(Exit(MissingMessage))
  {
    FirstRejectionFrom(argv, 1, |argv|);
  }

  /** Arguments after the fourth are never read. */
  lemma {:induction false} ExtraArgumentsIgnored(argv: seq<string>, cal: seq<Week>, now: Day)
    requires |argv| > 5
    ensures WeeksToRun(argv, cal, now) == WeeksToRun(argv[..5], cal, now)
  {
    FirstRejectionPrefix(argv, argv[..5], 1);
  }

  lemma {:induction false} FirstRejectionPrefix(argv: seq<string>, prefix: seq<string>, k: nat)
    requires 1 <= k <= 5 && |argv| >= 5 && prefix == argv[..5]
    ensures FirstRejection(argv, k) == FirstRejection(prefix, k)
    decreases 5 - k
  {
    if k < 5 {
      assert prefix[k] == argv[k];
      FirstRejectionPrefix(argv, prefix, k + 1);
    }
  }

  /** With four well-formed arguments the run is the calendar range between
      the two endpoints; an endpoint missing from the calendar is reported as
      "Missing argument". Every failure is an exit with a message. */
  lemma WellFormedArgumentsRunRange(argv: seq<string>, cal: seq<Week>, now: Day)
    requires |argv| >= 5
    requires CheckSeasonFormat(argv[1]) && CheckWeekNumFormat(argv[2])
    requires CheckSeasonFormat(argv[3]) && CheckWeekNumFormat(argv[4])
    ensures var range := GetHistoricalWeeksFromRange(cal, argv[1], WeekNumValue(argv[2]),
                                                     argv[3], WeekNumValue(argv[4]));
      && (range.Ok? ==> WeeksToRun(argv, cal, now) == Ok(range.value))
      && (range.Err? ==> WeeksToRun(argv, cal, now) == Err(Exit(MissingMessage)))
  {
    assert FirstRejection(argv, 1) == None by {
      forall m | 1 <= m < 5
        ensures ArgumentAccepted(m, argv[m])
      {
        assert m == 1 || m == 2 || m == 3 || m == 4;
      }
      FirstRejectionFrom(argv, 1, 5);
    }
    var range := GetHistoricalWeeksFromRange(cal, argv[1], WeekNumValue(argv[2]), argv[3], WeekNumValue(argv[4]));
    if range.Ok? {
      assert WeeksToRun(argv, cal, now) == Ok(range.value);
    } else {
      assert WeeksToRun(argv, cal, now) == Err(Exit(MissingMessage));
    }
  }

  /** main never fails other than by sys.exit(1) after a message. */
  lemma OnlyExits(argv: seq<string>, cal: seq<Week>, now: Day)
    ensures WeeksToRun(argv, cal, now).Err? ==> WeeksToRun(argv, cal, now).error.Exit?
  {
    if |argv| > 1 {
      FirstRejectionExits(argv, 1);
    }
  }

  lemma {:induction false} FirstRejectionExits(argv: seq<string>, k: nat)
    requires 1 <= k <= 5
    ensures FirstRejection(argv, k).Some? ==> FirstRejection(argv, k).value.Exit?
    decreases 5 - k
  {
    if k < 5 && k < |argv| && ArgumentAccepted(k, argv[k]) {
      FirstRejectionExits(argv, k + 1);
    }
  }

  // ----- Accumulating the frames to load -----

  /** pd.concat([acc, next], ignore_index=True) for frames with the same
      labels; the initial pd.DataFrame() has neither labels nor rows and
      contributes nothing. */
  function Concat(acc: Frame, next: Frame): (r: Frame)
    ensures r.rows == acc.rows + next.rows
    ensures acc.columns != [] ==> r.columns == acc.columns
  {
    if acc.columns == [] && acc.rows == [] then next else Frame(acc.columns, acc.rows + next.rows)
  }

  /** The frame main hands to load_bway_data: the weeks' frames concatenated
      in weeks order. The first week whose extract or transform raises stops
      main with that exception, before anything is loaded. */
  function ConcatAll(weeks: seq<Week>, transformed: Week -> Result<Frame>): Result<Frame>
    decreases |weeks|
  {
    if weeks == [] then Ok(Frame([], []))
    else
      match ConcatAll(weeks[..|weeks| - 1], transformed)
      case Err(e) => Err(e)
      case Ok(acc) =>
        match transformed(weeks[|weeks| - 1])
        case Err(e) => Err(e)
        case Ok(next) => Ok(Concat(acc, next))
  }

  /** The rows a week's frame holds; a week that raises has none. */
  function RowsOf(r: Result<Frame>): seq<seq<Cell>> {
    if r.Ok? then r.value.rows else []
  }

  /** The rows of the weeks' frames, one week after the other. */
  function RowsInOrder(weeks: seq<Week>, transformed: Week -> Result<Frame>): seq<seq<Cell>>
    decreases |weeks|
  {
    if weeks == [] then [] else RowsOf(transformed(weeks[0])) + RowsInOrder(weeks[1..], transformed)
  }

  /** The for loop of main over weeks_to_run. */
  method AccumulateWeeks(weeks: seq<Week>, transformed: Week -> Result<Frame>) returns (r: Result<Frame>)
    ensures r == ConcatAll(weeks, transformed)
  {
    var dfToLoad := Frame([], []);
    var k := 0;
    while k < |weeks|
      invariant 0 <= k <= |weeks|
      invariant forall j :: 0 <= j < k ==> transformed(weeks[j]).Ok?
      invariant ConcatAll(weeks[..k], transformed) == Ok(dfToLoad)
    {
      var dfTransformed := transformed(weeks[k]);
      if dfTransformed.Err? {
        ConcatAllFirstError(weeks, transformed, k);
        return Err(dfTransformed.error);
      }
      assert weeks[..k + 1][..k] == weeks[..k];
      dfToLoad := Concat(dfToLoad, dfTransformed.value);
      k := k + 1;
    }
    assert weeks[..k] == weeks;
    return Ok(dfToLoad);
  }

  /** main succeeds in building the frame exactly when no week raises. */
  lemma {:induction false} ConcatAllOutcome(weeks: seq<Week>, transformed: Week -> Result<Frame>)
    ensures ConcatAll(weeks, transformed).Ok? <==> forall k :: 0 <= k < |weeks| ==> transformed(weeks[k]).Ok?
    decreases |weeks|
  {
    if weeks != [] {
      var n := |weeks| - 1;
      ConcatAllOutcome(weeks[..n], transformed);
      assert forall k :: 0 <= k < n ==> weeks[..n][k] == weeks[k];
    }
  }

  /** The first week that raises decides main's exception: the weeks after it
      are never fetched. */
  lemma {:induction false} ConcatAllFirstError(weeks: seq<Week>, transformed: Week -> Result<Frame>, k: nat)
    requires k < |weeks| && transformed(weeks[k]).Err?
    requires forall j :: 0 <= j < k ==> transformed(weeks[j]).Ok?
    ensures ConcatAll(weeks, transformed) == Err(transformed(weeks[k]).error)
    decreases |weeks|
  {
    var n := |weeks| - 1;
    var init := weeks[..n];
    assert forall j :: 0 <= j < n ==> init[j] == weeks[j];
    if k == n {
      ConcatAllOutcome(init, transformed);
    } else {
      ConcatAllFirstError(init, transformed, k);
    }
  }

  /** When every week's frame carries the same non-empty labels, the frame
      to load has those labels and every week's rows, in weeks order. With
      no weeks it is the empty pd.DataFrame(). */
  lemma {:induction false} ConcatAllRows(weeks: seq<Week>, transformed: Week -> Result<Frame>, columns: seq<string>)
    requires columns != []
    requires forall k :: 0 <= k < |weeks| ==> transformed(weeks[k]).Ok? && transformed(weeks[k]).value.columns == columns
    ensures weeks == [] ==> ConcatAll(weeks, transformed) == Ok(Frame([], []))
    ensures weeks != [] ==> ConcatAll(weeks, transformed) == Ok(Frame(columns, RowsInOrder(weeks, transformed)))
    decreases |weeks|
  {
    if weeks != [] {
      var init := weeks[..|weeks| - 1];
      var last := weeks[|weeks| - 1];
      assert forall k :: 0 <= k < |init| ==> init[k] == weeks[k];
      ConcatAllRows(init, transformed, columns);
      RowsInOrderAppend(init, last, transformed);
      assert init + [last] == weeks;
      var next := transformed(last).value;
      assert transformed(last) == Ok(next) && next.columns == columns;
      if init == [] {
        assert ConcatAll(weeks, transformed) == Ok(Concat(Frame([], []), next));
        assert RowsInOrder(weeks, transformed) == [] + next.rows == next.rows;
        assert next == Frame(columns, next.rows);
      } else {
        var acc := Frame(columns, RowsInOrder(init, transformed));
        assert ConcatAll(weeks, transformed) == Ok(Concat(acc, next));
      }
    }
  }

  lemma {:induction false} RowsInOrderAppend(weeks: seq<Week>, w: Week, transformed: Week -> Result<Frame>)
    ensures RowsInOrder(weeks + [w], transformed) == RowsInOrder(weeks, transformed) + RowsOf(transformed(w))
    decreases |weeks|
  {
    if weeks == [] {
      assert RowsInOrder([w], transformed) == RowsOf(transformed(w)) + RowsInOrder([], transformed);
    } else {
      assert (weeks + [w])[1..] == weeks[1..] + [w];
      RowsInOrderAppend(weeks[1..], w, transformed);
    }
  }

  /** Week k's rows sit right after the rows of the weeks before it. */
  lemma {:induction false} RowsOfWeek(weeks: seq<Week>, transformed: Week -> Result<Frame>, k: nat)
    requires k < |weeks|
    ensures var before := |RowsInOrder(weeks[..k], transformed)|;
      var rows := RowsOf(transformed(weeks[k]));
      && before + |rows| <= |RowsInOrder(weeks, transformed)|
      && RowsInOrder(weeks, transformed)[before..before + |rows|] == rows
  {
    var pre, post := weeks[..k], weeks[k + 1..];
    assert weeks == pre + [weeks[k]] + post;
    RowsInOrderConcat(pre + [weeks[k]], post, transformed);
    RowsInOrderAppend(pre, weeks[k], transformed);
  }

  lemma {:induction false} RowsInOrderConcat(u: seq<Week>, v: seq<Week>, transformed: Week -> Result<Frame>)
    ensures RowsInOrder(u + v, transformed) == RowsInOrder(u, transformed) + RowsInOrder(v, transformed)
    decreases |u|
  {
    if u == [] {
      assert u + v == v;
    } else {
      assert (u + v)[1..] == u[1..] + v;
      RowsInOrderConcat(u[1..], v, transformed);
    }
  }

  // ----- main -----

  /** main up to the load: pick the weeks, then fetch, transform and
      concatenate them in order. A rejected command line exits before any
      week is fetched. */
  method PrepareLoad(argv: seq<string>, cal: seq<Week>, now: Day, transformed: Week -> Result<Frame>)
    returns (r: Result<Frame>)
    ensures WeeksToRun(argv, cal, now).Err? ==> r == Err(WeeksToRun(argv, cal, now).error)
    ensures WeeksToRun(argv, cal, now).Ok? ==> r == ConcatAll(WeeksToRun(argv, cal, now).value, transformed)
  {
    var weeksToRun := SelectWeeks(argv, cal, now);
    if weeksToRun.Err? {
      return Err(weeksToRun.error);
    }
    r := AccumulateWeeks(weeksToRun.value, transformed);
  }

  /** When no week runs (no argument before any week has ended, or a range
      whose start comes after its end), main hands load_bway_data the empty
      pd.DataFrame(), which raises KeyError('season') before any request. */
  lemma NoWeeksNothingLoaded(transformed: Week -> Result<Frame>, projId: string, destTable: string)
    ensures ConcatAll([], transformed) == Ok(Frame([], []))
    ensures LoadPlan(Frame([], []), projId, destTable) == Err(KeyError(SeasonColumn))
  {
    EmptyFrameRaises(projId, destTable);
  }
}
