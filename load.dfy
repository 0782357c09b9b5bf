/** src/load.py: the purge-before-append order of load_bway_data, and the
    part of remove_season_weeks_if_exist that picks the (season, week_num)
    pairs already loaded and writes the query condition that removes them.

    The frame's row labels are its positions: main concatenates the weekly
    frames with ignore_index=True. BigQuery itself is not modelled; a load is
    the list of requests it sends, in order. */
module Load {
  import opened Common
  import opened Transform

  const SeasonColumn := "season"
  const WeekNumColumn := "week_num"

  /** The two cells that identify a week of data. */
  datatype SeasonWeek = SeasonWeek(season: Cell, weekNum: Cell)

  /** A row of df[['season', 'week_num']].drop_duplicates(): the label of the
      row it was kept from, and its pair. */
  datatype Labelled = Labelled(rowLabel: nat, key: SeasonWeek)

  /** The requests sent to BigQuery. */
  datatype Request =
    | Query(sql: string)                                        // client.query(qry)
    | Append(projId: string, destTable: string, frame: Frame)   // to_gbq(if_exists='append')

  /** Both key columns are there, so df[['season', 'week_num']] does not raise. */
  predicate HasKeyColumns(df: Frame) {
    SeasonColumn in df.columns && WeekNumColumn in df.columns
  }

  /** The (season, week_num) pair of every row, in row order. */
  function Keys(df: Frame): (keys: seq<SeasonWeek>)
    requires WellShaped(df) && HasKeyColumns(df)
    ensures |keys| == |df.rows|
  {
    seq(|df.rows|, i requires 0 <= i < |df.rows| =>
      SeasonWeek(CellUnder(df, i, SeasonColumn), CellUnder(df, i, WeekNumColumn)))
  }

  /** drop_duplicates(): the first row of each distinct pair, in row order,
      keeping its label. */
  function DropDuplicates(keys: seq<SeasonWeek>): (r: seq<Labelled>)
    ensures forall k :: 0 <= k < |r| ==> r[k].rowLabel < |keys|
  {
    if keys == [] then []
    else
      var n := |keys| - 1;
      DropDuplicates(keys[..n]) + (if keys[n] in keys[..n] then [] else [Labelled(n, keys[n])])
  }

  /** A kept row holds the pair of the row it is labelled with, that row is
      the pair's first, and the kept rows are in row order. */
  lemma {:induction false} DropDuplicatesKept(keys: seq<SeasonWeek>)
    ensures forall k :: 0 <= k < |DropDuplicates(keys)| ==>
      keys[DropDuplicates(keys)[k].rowLabel] == DropDuplicates(keys)[k].key
      && DropDuplicates(keys)[k].key !in keys[..DropDuplicates(keys)[k].rowLabel]
    ensures forall k, l :: 0 <= k < l < |DropDuplicates(keys)| ==>
      DropDuplicates(keys)[k].rowLabel < DropDuplicates(keys)[l].rowLabel
  {
    if keys != [] {
      var n := |keys| - 1;
      var init := keys[..n];
      var prev := DropDuplicates(init);
      DropDuplicatesKept(init);
      forall k | 0 <= k < |prev|
        ensures keys[prev[k].rowLabel] == prev[k].key && prev[k].key !in keys[..prev[k].rowLabel]
      {
        var j := prev[k].rowLabel;
        assert j < n;
        assert init[j] == prev[k].key && prev[k].key !in init[..j];
        assert init[j] == keys[j];
        assert init[..j] == keys[..j];
      }
      var r := DropDuplicates(keys);
      assert r == prev + (if keys[n] in init then [] else [Labelled(n, keys[n])]);
      forall k, l | 0 <= k < l < |r|
        ensures r[k].rowLabel < r[l].rowLabel
      {
        if l < |prev| {
          assert r[k] == prev[k] && r[l] == prev[l];
        } else {
          assert r[k] == prev[k] && r[l].rowLabel == n;
        }
      }
    }
  }

  /** The first row of each pair is kept. */
  lemma {:induction false} DropDuplicatesFirsts(keys: seq<SeasonWeek>, i: nat)
    requires i < |keys| && keys[i] !in keys[..i]
    ensures exists k :: 0 <= k < |DropDuplicates(keys)| && DropDuplicates(keys)[k].rowLabel == i
  {
    var n := |keys| - 1;
    var prev := DropDuplicates(keys[..n]);
    var r := DropDuplicates(keys);
    if i == n {
      assert r[|r| - 1].rowLabel == i;
    } else {
      assert keys[..n][i] == keys[i] && keys[..n][..i] == keys[..i];
      DropDuplicatesFirsts(keys[..n], i);
      var k :| 0 <= k < |prev| && prev[k].rowLabel == i;
      assert r[k] == prev[k];
    }
  }

  /** Each pair is kept at most once. */
  lemma DropDuplicatesDistinct(keys: seq<SeasonWeek>)
    ensures var r := DropDuplicates(keys);
      forall k, l :: 0 <= k < l < |r| ==> r[k].key != r[l].key
  {
    var r := DropDuplicates(keys);
    DropDuplicatesKept(keys);
    forall k, l | 0 <= k < l < |r|
      ensures r[k].key != r[l].key
    {
      assert keys[..r[l].rowLabel][r[k].rowLabel] == r[k].key;
    }
  }

  /** Every pair of the input is kept, under the label of its first row. */
  lemma DropDuplicatesComplete(keys: seq<SeasonWeek>, i: nat)
    requires i < |keys|
    ensures exists k :: 0 <= k < |DropDuplicates(keys)| && DropDuplicates(keys)[k].key == keys[i]
  {
    var j := FirstOccurrence(keys, i);
    var r := DropDuplicates(keys);
    DropDuplicatesFirsts(keys, j);
    DropDuplicatesKept(keys);
    var k :| 0 <= k < |r| && r[k].rowLabel == j;
    assert r[k].key == keys[i];
  }

  /** The first row whose pair equals that of row i. */
  lemma {:induction false} FirstOccurrence(keys: seq<SeasonWeek>, i: nat) returns (j: nat)
    requires i < |keys|
    ensures j <= i && keys[j] == keys[i] && keys[i] !in keys[..j]
    decreases i
  {
    if keys[i] in keys[..i] {
      var m :| 0 <= m < i && keys[..i][m] == keys[i];
      j := FirstOccurrence(keys, m);
    } else {
      j := i;
    }
  }

  /** The first kept row has label 0 and every later one a label above 0. */
  lemma DropDuplicatesFirstLabel(keys: seq<SeasonWeek>)
    requires keys != []
    ensures var r := DropDuplicates(keys);
      r != [] && r[0].rowLabel == 0 && forall k :: 0 < k < |r| ==> r[k].rowLabel != 0
  {
    var r := DropDuplicates(keys);
    DropDuplicatesKept(keys);
    assert keys[0] !in keys[..0];
    DropDuplicatesFirsts(keys, 0);
    var k :| 0 <= k < |r| && r[k].rowLabel == 0;
    assert r[0].rowLabel <= r[k].rowLabel;
  }

  // ----- The condition string -----

  /** A cell as an f-string writes it: a string as itself, an int by str(),
      a missing value as pandas' nan. */
  function CellText(c: Cell): string {
    match c
    case Text(s) => s
    case Whole(n) => IntToString(n)
    case _ => "nan"
  }

  /** The condition for one pair. */
  function Term(key: SeasonWeek): string {
    "(season='" + CellText(key.season) + "' and week_num=" + CellText(key.weekNum) + ")\n"
  }

  /** What the loop writes before a kept row's term: "or " unless the row's
      label is 0. */
  function OrPrefix(row: Labelled): string {
    if row.rowLabel != 0 then "or " else ""
  }

  /** The condition the loop builds, clause after clause. */
  function Condition(rows: seq<Labelled>): string {
    if rows == [] then ""
    else
      var last := rows[|rows| - 1];
      Condition(rows[..|rows| - 1]) + OrPrefix(last) + Term(last.key)
  }

  /** The loop of remove_season_weeks_if_exist over the kept rows. */
  method BuildCondition(rows: seq<Labelled>) returns (condition: string)
    ensures condition == Condition(rows)
  {
    condition := "";
    var k := 0;
    while k < |rows|
      invariant 0 <= k <= |rows|
      invariant condition == Condition(rows[..k])
    {
      if rows[k].rowLabel != 0 {
        condition := condition + "or ";
      }
      condition := condition + Term(rows[k].key);
      assert rows[..k + 1][..k] == rows[..k];
      k := k + 1;
    }
    assert rows[..k] == rows;
  }

  /** Terms joined by "or ": the first bare, each later one prefixed. */
  function OrJoin(terms: seq<string>): string {
    if |terms| <= 1 then (if terms == [] then "" else terms[0])
    else OrJoin(terms[..|terms| - 1]) + "or " + terms[|terms| - 1]
  }

  function Terms(rows: seq<Labelled>): (ts: seq<string>)
    ensures |ts| == |rows| && forall k :: 0 <= k < |rows| ==> ts[k] == Term(rows[k].key)
  {
    seq(|rows|, k requires 0 <= k < |rows| => Term(rows[k].key))
  }

  /** With label 0 first and no other 0, the loop writes the terms joined by
      "or ", one term per kept row. */
  lemma {:induction false} ConditionIsOrJoin(rows: seq<Labelled>)
    requires rows != [] ==> rows[0].rowLabel == 0
    requires forall k :: 0 < k < |rows| ==> rows[k].rowLabel != 0
    ensures Condition(rows) == OrJoin(Terms(rows))
    decreases |rows|
  {
    if |rows| > 1 {
      var n := |rows| - 1;
      var init := rows[..n];
      forall k | 0 < k < |init|
        ensures init[k].rowLabel != 0
      {
        assert init[k] == rows[k];
      }
      ConditionIsOrJoin(init);
      assert Terms(rows)[..n] == Terms(init);
    } else if |rows| == 1 {
      assert rows[..0] == [];
    }
  }

  /** The query remove_season_weeks_if_exist runs. */
  function PurgeQuery(projId: string, destTable: string, condition: string): string {
    "\n        CREATE OR REPLACE TABLE " + projId + "." + destTable + " AS\n        SELECT *\n        from "
      + projId + "." + destTable + "\n        where not ( " + condition + " )\n    "
  }

  /** remove_season_weeks_if_exist as a function of its arguments: KeyError
      when a key column is missing, otherwise the purge query. */
  function PurgeFor(df: Frame, projId: string, destTable: string): (r: Result<Request>)
    requires WellShaped(df)
    ensures r.Err? <==> !HasKeyColumns(df)
    ensures r.Err? ==> r.error.KeyError? && r.error.key in [SeasonColumn, WeekNumColumn]
  {
    match Project(df, [SeasonColumn, WeekNumColumn])
    case Err(e) => Err(e)
    case Ok(_) => Ok(Query(PurgeQuery(projId, destTable, Condition(DropDuplicates(Keys(df))))))
  }

  method RemoveSeasonWeeksIfExist(df: Frame, projId: string, destTable: string) returns (r: Result<Request>)
    requires WellShaped(df)
    ensures r == PurgeFor(df, projId, destTable)
  {
    var projected := Project(df, [SeasonColumn, WeekNumColumn]);
    if projected.Err? {
      return Err(projected.error);
    }
    var dfSeasonWks := DropDuplicates(Keys(df));
    var condition := BuildCondition(dfSeasonWks);
    return Ok(Query(PurgeQuery(projId, destTable, condition)));
  }

  /** load_bway_data as the requests it sends, in order. */
  function LoadPlan(df: Frame, projId: string, destTable: string): Result<seq<Request>>
    requires WellShaped(df)
  {
    match PurgeFor(df, projId, destTable)
    case Err(e) => Err(e)
    case Ok(purge) => Ok([purge, Append(projId, destTable, df)])
  }

  method LoadBwayData(df: Frame, projId: string, destTable: string) returns (r: Result<seq<Request>>)
    requires WellShaped(df)
    ensures r == LoadPlan(df, projId, destTable)
  {
    var purge := RemoveSeasonWeeksIfExist(df, projId, destTable);
    if purge.Err? {
      return Err(purge.error);
    }
    var append := Append(projId, destTable, df);
    return Ok([purge.value, append]);
  }

  /** The purge goes out before the append, and nothing is appended when the
      purge raises. */
  lemma PurgeBeforeAppend(df: Frame, projId: string, destTable: string)
    requires WellShaped(df)
    ensures var r := LoadPlan(df, projId, destTable);
      && (r.Ok? <==> HasKeyColumns(df))
      && (r.Ok? ==> |r.value| == 2 && r.value[0].Query? && r.value[1] == Append(projId, destTable, df))
      && (r.Err? ==> r.error.KeyError?)
  {
  }

  /** The frame main builds when no week ran has no columns: loading it
      raises KeyError('season') before any request is sent. */
  lemma EmptyFrameRaises(projId: string, destTable: string)
    ensures LoadPlan(Frame([], []), projId, destTable) == Err(KeyError(SeasonColumn))
  {
  }

  /** The purge condition of a frame with key columns is one term per kept
      row (one per distinct pair, by DropDuplicatesDistinct and
      DropDuplicatesComplete), in first-occurrence order, joined by "or ". */
  lemma PurgeCondition(df: Frame, projId: string, destTable: string)
    requires WellShaped(df) && HasKeyColumns(df)
    ensures PurgeFor(df, projId, destTable)
      == Ok(Query(PurgeQuery(projId, destTable, OrJoin(Terms(DropDuplicates(Keys(df)))))))
  {
    var keys := Keys(df);
    if keys != [] {
      DropDuplicatesFirstLabel(keys);
    }
    ConditionIsOrJoin(DropDuplicates(keys));
  }
}
