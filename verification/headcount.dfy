/** The team-size table behind the stacked headcount chart: sparse dated
    checkpoints of role counts, zero-filled against every role that appears
    anywhere, spread onto one row per calendar day by carrying each
    checkpoint forward, split at the cutover day into an actual and a
    projected segment, and stacked role by role into bands. Days are day
    numbers (see `Calendar.DayNumber`), so consecutive days differ by one. */
module Headcount {
  import opened Results

  type Role = string

  /** One dated row of role counts: a checkpoint of the input table, or one
      day of the daily series built from them. */
  datatype Row = Row(day: int, counts: map<Role, int>)

  /** A role's count in a row; a role the row does not mention counts 0. */
  function Value(counts: map<Role, int>, role: Role): int {
    if role in counts then counts[role] else 0
  }

  predicate NonNegative(rows: seq<Row>) {
    forall i, r :: 0 <= i < |rows| && r in rows[i].counts ==> rows[i].counts[r] >= 0
  }

  /** The table's columns: the union of the roles the checkpoints
      mention. */
  function Roles(rows: seq<Row>): set<Role> {
    if |rows| == 0 then {} else rows[0].counts.Keys + Roles(rows[1..])
  }

  /** A role is a column exactly when some checkpoint mentions it. */
  lemma {:induction false} RolesSpec(rows: seq<Row>)
    ensures forall r :: r in Roles(rows) <==> exists i :: 0 <= i < |rows| && r in rows[i].counts
  {
    if |rows| > 0 {
      RolesSpec(rows[1..]);
      RolesStep(rows, Roles(rows[1..]));
    }
  }

  lemma RolesStep(rows: seq<Row>, rest: set<Role>)
    requires |rows| > 0
    requires forall r :: r in rest <==> exists i :: 0 <= i < |rows[1..]| && r in rows[1..][i].counts
    ensures forall r :: r in rows[0].counts.Keys + rest <==> exists i :: 0 <= i < |rows| && r in rows[i].counts
  {
    forall r | r in rows[0].counts.Keys + rest
      ensures exists i :: 0 <= i < |rows| && r in rows[i].counts
    {
      if r !in rows[0].counts {
        var i :| 0 <= i < |rows[1..]| && r in rows[1..][i].counts;
        assert rows[i + 1] == rows[1..][i];
      }
    }
    forall r | exists i :: 0 <= i < |rows| && r in rows[i].counts
      ensures r in rows[0].counts.Keys + rest
    {
      var i :| 0 <= i < |rows| && r in rows[i].counts;
      if i > 0 {
        assert rows[1..][i - 1] == rows[i];
      }
    }
  }

  /** `fillna(0)` on one checkpoint: it gets a count for every column; the
      counts it had are kept and the roles it did not mention get 0. */
  function ZeroFill(counts: map<Role, int>, roles: set<Role>): (m: map<Role, int>)
    ensures m.Keys == roles
    ensures forall r :: r in roles && r in counts ==> m[r] == counts[r]
    ensures forall r :: r in roles && r !in counts ==> m[r] == 0
  {
    map r | r in roles :: Value(counts, r)
  }

  /** The table `build_dataset` returns: the checkpoints in input order, each
      zero-filled against the table's columns. */
  function Normalize(rows: seq<Row>): (table: seq<Row>)
    ensures |table| == |rows|
  {
    ZeroFillRows(rows, Roles(rows))
  }

  function ZeroFillRows(rows: seq<Row>, roles: set<Role>): (table: seq<Row>)
    ensures |table| == |rows|
  {
    if |rows| == 0 then []
    else [Row(rows[0].day, ZeroFill(rows[0].counts, roles))] + ZeroFillRows(rows[1..], roles)
  }

  lemma {:induction false} ZeroFillRowsAt(rows: seq<Row>, roles: set<Role>, i: int)
    requires 0 <= i < |rows|
    ensures ZeroFillRows(rows, roles)[i] == Row(rows[i].day, ZeroFill(rows[i].counts, roles))
  {
    if i > 0 {
      ZeroFillRowsAt(rows[1..], roles, i - 1);
    }
  }

  /** After normalisation a checkpoint keeps its day, has a count for every
      column and for nothing else, keeps the counts it had, and reads 0 for
      a role it did not mention. */
  lemma NormalizeRow(rows: seq<Row>, i: int)
    requires 0 <= i < |rows|
    ensures Normalize(rows)[i].day == rows[i].day
    ensures Normalize(rows)[i].counts.Keys == Roles(rows)
    ensures forall r :: r in rows[i].counts ==>
              r in Normalize(rows)[i].counts && Normalize(rows)[i].counts[r] == rows[i].counts[r]
    ensures forall r :: r in Roles(rows) && r !in rows[i].counts ==> Normalize(rows)[i].counts[r] == 0
  {
    ZeroFillRowsAt(rows, Roles(rows), i);
    RolesSpec(rows);
  }

  /** Every row has a count for exactly the given roles. */
  predicate EveryRowHas(table: seq<Row>, roles: set<Role>) {
    forall i :: 0 <= i < |table| ==> table[i].counts.Keys == roles
  }

  /** Normalisation completes the table and introduces no negative count. */
  lemma NormalizeIsComplete(rows: seq<Row>)
    ensures EveryRowHas(Normalize(rows), Roles(rows))
    ensures NonNegative(rows) ==> NonNegative(Normalize(rows))
  {
    var table := Normalize(rows);
    forall i | 0 <= i < |table|
      ensures table[i].counts.Keys == Roles(rows)
      ensures NonNegative(rows) ==> forall r :: r in table[i].counts ==> table[i].counts[r] >= 0
    {
      NormalizeRow(rows, i);
    }
  }

  /** A non-empty table whose rows all have the same roles has exactly
      those roles as its columns. */
  lemma {:induction false} UniformRoles(table: seq<Row>, roles: set<Role>)
    requires |table| > 0 && EveryRowHas(table, roles)
    ensures Roles(table) == roles
  {
    if |table| > 1 {
      UniformRoles(table[1..], roles);
    }
  }

  /** Normalisation leaves the columns as they were. */
  lemma NormalizeKeepsColumns(rows: seq<Row>)
    requires |rows| > 0
    ensures Roles(Normalize(rows)) == Roles(rows)
  {
    NormalizeIsComplete(rows);
    UniformRoles(Normalize(rows), Roles(rows));
  }

  /** Why the daily series cannot be built: there is no checkpoint (the
      date range has no start), or two checkpoints share a day (pandas
      refuses to reindex on duplicate labels). */
  datatype GridError = NoCheckpoints | DuplicateDays

  predicate DistinctDays(rows: seq<Row>) {
    forall i, j :: 0 <= i < j < |rows| ==> rows[i].day != rows[j].day
  }

  /** `team_df.index.min()`. */
  function FirstDay(rows: seq<Row>): int
    requires |rows| > 0
  {
    if |rows| == 1 then rows[0].day
    else
      var rest := FirstDay(rows[1..]);
      if rows[0].day <= rest then rows[0].day else rest
  }

  /** No checkpoint is dated before the first day ... */
  lemma {:induction false} FirstDayIsLeast(rows: seq<Row>, i: int)
    requires 0 <= i < |rows|
    ensures FirstDay(rows) <= rows[i].day
  {
    if i > 0 {
      FirstDayIsLeast(rows[1..], i - 1);
      assert rows[1..][i - 1] == rows[i];
    }
  }

  /** ... and some checkpoint is dated on it. */
  lemma {:induction false} FirstDayIsAttained(rows: seq<Row>) returns (i: int)
    requires |rows| > 0
    ensures 0 <= i < |rows| && rows[i].day == FirstDay(rows)
  {
    if |rows| == 1 {
      i := 0;
    } else {
      var j := FirstDayIsAttained(rows[1..]);
      i := if rows[0].day <= FirstDay(rows[1..]) then 0 else j + 1;
    }
  }

  /** `team_df.index.max()`. */
  function LastDay(rows: seq<Row>): int
    requires |rows| > 0
  {
    if |rows| == 1 then rows[0].day
    else
      var rest := LastDay(rows[1..]);
      if rows[0].day >= rest then rows[0].day else rest
  }

  /** No checkpoint is dated after the last day ... */
  lemma {:induction false} LastDayIsGreatest(rows: seq<Row>, i: int)
    requires 0 <= i < |rows|
    ensures rows[i].day <= LastDay(rows)
  {
    if i > 0 {
      LastDayIsGreatest(rows[1..], i - 1);
      assert rows[1..][i - 1] == rows[i];
    }
  }

  /** ... and some checkpoint is dated on it. */
  lemma {:induction false} LastDayIsAttained(rows: seq<Row>) returns (i: int)
    requires |rows| > 0
    ensures 0 <= i < |rows| && rows[i].day == LastDay(rows)
  {
    if |rows| == 1 {
      i := 0;
    } else {
      var j := LastDayIsAttained(rows[1..]);
      i := if rows[0].day >= LastDay(rows[1..]) then 0 else j + 1;
    }
  }

  /** The first position whose row is dated `d`, or `|rows|` when none is. */
  function FindDay(rows: seq<Row>, d: int): (i: nat)
    ensures i <= |rows|
    ensures i < |rows| ==> rows[i].day == d
  {
    if |rows| == 0 then 0
    else if rows[0].day == d then 0
    else
      var j := FindDay(rows[1..], d);
      assert j < |rows[1..]| ==> rows[j + 1] == rows[1..][j];
      j + 1
  }

  /** No row before the one `FindDay` picks is dated `d`. */
  lemma {:induction false} FindDayIsFirst(rows: seq<Row>, d: int, j: int)
    requires 0 <= j < |rows| && rows[j].day == d
    ensures FindDay(rows, d) <= j
  {
    if rows[0].day != d {
      FindDayIsFirst(rows[1..], d, j - 1);
      assert rows[1..][j - 1] == rows[j];
    }
  }

  /** `team_df.reindex(date_range)` at one day: the counts of the
      checkpoint dated that day, or missing. */
  function ExactAt(table: seq<Row>, d: int): Option<map<Role, int>> {
    var i := FindDay(table, d);
    if i < |table| then Some(table[i].counts) else None
  }

  /** The reindexed table: one entry per day from the first checkpoint day
      to the last, both included. */
  function Reindexed(table: seq<Row>): (xs: seq<Option<map<Role, int>>>)
    requires |table| > 0
    ensures |xs| == LastDay(table) - FirstDay(table) + 1
  {
    var lo := FirstDay(table);
    seq(LastDay(table) - lo + 1, k => ExactAt(table, lo + k))
  }

  lemma ReindexedAt(table: seq<Row>, k: int)
    requires |table| > 0
    requires 0 <= k < |Reindexed(table)|
    ensures Reindexed(table)[k] == ExactAt(table, FirstDay(table) + k)
  {
  }

  /** Pandas' `ffill`: a missing entry takes the nearest present entry
      above it; `last` is what stands above the first entry. */
  function FFill<T>(xs: seq<Option<T>>, last: Option<T>): (ys: seq<Option<T>>)
    ensures |ys| == |xs|
  {
    if |xs| == 0 then []
    else
      var cur := if xs[0].Some? then xs[0] else last;
      [cur] + FFill(xs[1..], cur)
  }

  /** The latest position at or before `k` that holds an entry, or -1. */
  function LatestPresent<T>(xs: seq<Option<T>>, k: int): (j: int)
    requires -1 <= k < |xs|
    ensures -1 <= j <= k
    ensures j >= 0 ==> xs[j].Some?
    ensures forall m :: j < m <= k ==> xs[m].None?
    decreases k + 1
  {
    if k < 0 then -1
    else if xs[k].Some? then k
    else LatestPresent(xs, k - 1)
  }

  /** Forward fill is step semantics: every entry is the latest present
      entry at or before it, or `last` when there is none. */
  lemma {:induction false} FFillTakesLatest<T>(xs: seq<Option<T>>, last: Option<T>, k: int)
    requires 0 <= k < |xs|
    ensures var j := LatestPresent(xs, k);
            FFill(xs, last)[k] == if j >= 0 then xs[j] else last
  {
    var cur := if xs[0].Some? then xs[0] else last;
    if k > 0 {
      FFillTakesLatest(xs[1..], cur, k - 1);
      LatestPresentShift(xs, k);
    }
  }

  /** Dropping the first entry shifts the latest present position by one,
      except that position 0 itself falls off. */
  lemma {:induction false} LatestPresentShift<T>(xs: seq<Option<T>>, k: int)
    requires 1 <= k < |xs|
    ensures var j := LatestPresent(xs, k);
            LatestPresent(xs[1..], k - 1) == if j >= 1 then j - 1 else -1
    decreases k
  {
    assert xs[1..][k - 1] == xs[k];
    if xs[k].None? && k > 1 {
      LatestPresentShift(xs, k - 1);
    }
  }

  /** `team_df.reindex(date_range).ffill().fillna(0)`, or why it fails. On
      success there is exactly one row per day from the first checkpoint
      day to the last, in order, and nothing before or after. */
  function Densify(table: seq<Row>): (r: Result<seq<Row>, GridError>)
    ensures r == Err(NoCheckpoints) <==> |table| == 0
    ensures r == Err(DuplicateDays) <==> |table| > 0 && !DistinctDays(table)
    ensures r.Ok? ==> |r.value| == LastDay(table) - FirstDay(table) + 1
    ensures r.Ok? ==> forall k :: 0 <= k < |r.value| ==> r.value[k].day == FirstDay(table) + k
  {
    if |table| == 0 then Err(NoCheckpoints)
    else if !DistinctDays(table) then Err(DuplicateDays)
    else Ok(Series(table))
  }

  /** The daily series itself: reindex, forward fill, then `fillna(0)`
      with a row of zeros over the table's columns. */
  function Series(table: seq<Row>): (series: seq<Row>)
    requires |table| > 0
    ensures |series| == LastDay(table) - FirstDay(table) + 1
    ensures forall k :: 0 <= k < |series| ==> series[k].day == FirstDay(table) + k
  {
    DatedRows(FFill(Reindexed(table), None), FirstDay(table), ZeroFill(map[], Roles(table)))
  }

  /** Dates consecutive entries from day `lo` on; a missing entry becomes
      `zero`. */
  function DatedRows(filled: seq<Option<map<Role, int>>>, lo: int, zero: map<Role, int>): (rows: seq<Row>)
    ensures |rows| == |filled|
    ensures forall k :: 0 <= k < |rows| ==> rows[k].day == lo + k
  {
    if |filled| == 0 then []
    else
      var rest := DatedRows(filled[1..], lo + 1, zero);
      [Row(lo, if filled[0].Some? then filled[0].value else zero)] + rest
  }

  lemma {:induction false} DatedRowAt(filled: seq<Option<map<Role, int>>>, lo: int, zero: map<Role, int>, k: int)
    requires 0 <= k < |filled|
    ensures DatedRows(filled, lo, zero)[k].counts == if filled[k].Some? then filled[k].value else zero
  {
    if k > 0 {
      DatedRowAt(filled[1..], lo + 1, zero, k - 1);
    }
  }

  /** `i` is the checkpoint with the latest day not after `d`. */
  predicate IsLatest(table: seq<Row>, d: int, i: int) {
    && 0 <= i < |table|
    && table[i].day <= d
    && forall j :: 0 <= j < |table| && table[j].day <= d ==> table[j].day <= table[i].day
  }

  /** Reference definition: the first of the checkpoints with the latest
      day not after `d`, or -1 when every checkpoint is later. */
  function LatestAtOrBefore(table: seq<Row>, d: int): (i: int)
    ensures -1 <= i < |table|
    ensures i == -1 ==> forall j :: 0 <= j < |table| ==> table[j].day > d
    ensures i >= 0 ==> IsLatest(table, d, i) && forall j :: 0 <= j < i ==> table[j].day != table[i].day
  {
    if |table| == 0 then -1
    else
      var j := LatestAtOrBefore(table[1..], d);
      assert forall m :: 1 <= m < |table| ==> table[m] == table[1..][m - 1];
      if table[0].day <= d && (j < 0 || table[1..][j].day <= table[0].day) then 0
      else if j < 0 then -1
      else j + 1
  }

  /** The trailing `fillna(0)` changes nothing: the first day of the range
      is a checkpoint day, so forward fill leaves no day missing. */
  lemma FillNaIsNoOp(table: seq<Row>)
    requires |table| > 0
    ensures forall k :: 0 <= k < |Reindexed(table)| ==> FFill(Reindexed(table), None)[k].Some?
  {
    var xs := Reindexed(table);
    FirstDayPresent(table);
    forall k | 0 <= k < |xs|
      ensures FFill(xs, None)[k].Some?
    {
      FFillTakesLatest(xs, None, k);
    }
  }

  lemma FirstDayPresent(table: seq<Row>)
    requires |table| > 0
    ensures |Reindexed(table)| > 0 && Reindexed(table)[0].Some?
  {
    var i := FirstDayIsAttained(table);
    LastDayIsGreatest(table, i);
    ReindexedAt(table, 0);
    FindDayIsFirst(table, FirstDay(table), i);
  }

  /** Every checkpoint's day has an entry in the reindexed table. */
  lemma CheckpointDayPresent(table: seq<Row>, m: int)
    requires 0 <= m < |table|
    ensures 0 <= table[m].day - FirstDay(table) < |Reindexed(table)|
    ensures Reindexed(table)[table[m].day - FirstDay(table)].Some?
  {
    FirstDayIsLeast(table, m);
    LastDayIsGreatest(table, m);
    ReindexedAt(table, table[m].day - FirstDay(table));
    FindDayIsFirst(table, table[m].day, m);
  }

  /** Forward fill never looks ahead: every day of the series holds the
      counts of the latest checkpoint dated on or before it. */
  lemma ForwardFillCausal(table: seq<Row>, k: int)
    requires Densify(table).Ok?
    requires 0 <= k < |Densify(table).value|
    ensures var i := LatestAtOrBefore(table, FirstDay(table) + k);
            i >= 0 && Densify(table).value[k].counts == table[i].counts
  {
    assert Densify(table).value == Series(table);
    SeriesIsCausal(table, k);
  }

  lemma SeriesIsCausal(table: seq<Row>, k: int)
    requires |table| > 0
    requires 0 <= k < |Series(table)|
    ensures var i := LatestAtOrBefore(table, FirstDay(table) + k);
            i >= 0 && Series(table)[k].counts == table[i].counts
  {
    var i := EntryCheckpointIsLatest(table, k);
    LatestIsReference(table, FirstDay(table) + k, i);
    FFillFindsEntry(Reindexed(table), k, table[i].counts);
    SeriesAt(table, k, table[i].counts);
  }

  /** A day of the series holds what forward fill put there. */
  lemma SeriesAt(table: seq<Row>, k: int, v: map<Role, int>)
    requires |table| > 0
    requires 0 <= k < |Reindexed(table)|
    requires FFill(Reindexed(table), None)[k] == Some(v)
    ensures Series(table)[k].counts == v
  {
    DatedRowAt(FFill(Reindexed(table), None), FirstDay(table), ZeroFill(map[], Roles(table)), k);
  }

  /** Forward fill at a position holds the latest present entry at or
      before it. */
  lemma FFillFindsEntry<T>(xs: seq<Option<T>>, k: int, v: T)
    requires 0 <= k < |xs|
    requires LatestPresent(xs, k) >= 0 && xs[LatestPresent(xs, k)] == Some(v)
    ensures FFill(xs, None)[k] == Some(v)
  {
    FFillTakesLatest(xs, None, k);
  }

  /** The checkpoint behind the latest entry at or before a day has the
      latest day not after it, and no checkpoint before it has its day. */
  lemma EntryCheckpointIsLatest(table: seq<Row>, k: int) returns (i: int)
    requires |table| > 0
    requires 0 <= k < |Reindexed(table)|
    ensures LatestPresent(Reindexed(table), k) >= 0
    ensures IsLatest(table, FirstDay(table) + k, i)
    ensures forall m :: 0 <= m < i ==> table[m].day != table[i].day
    ensures Reindexed(table)[LatestPresent(Reindexed(table), k)] == Some(table[i].counts)
  {
    var xs := Reindexed(table);
    var lo := FirstDay(table);
    FirstDayPresent(table);
    var j := LatestPresent(xs, k);
    ReindexedAt(table, j);
    i := FindDay(table, lo + j);
    forall m | 0 <= m < i
      ensures table[m].day != table[i].day
    {
      if table[m].day == table[i].day {
        FindDayIsFirst(table, lo + j, m);
      }
    }
    forall m | 0 <= m < |table| && table[m].day <= lo + k
      ensures table[m].day <= table[i].day
    {
      CheckpointDayPresent(table, m);
    }
  }

  /** The reference definition picks exactly the first of the latest
      checkpoints. */
  lemma LatestIsReference(table: seq<Row>, d: int, i: int)
    requires IsLatest(table, d, i)
    requires forall m :: 0 <= m < i ==> table[m].day != table[i].day
    ensures LatestAtOrBefore(table, d) == i
  {
    var i' := LatestAtOrBefore(table, d);
    assert i' >= 0 by {
      assert table[i].day <= d;
    }
    assert table[i'].day == table[i].day;
  }

  /** On a checkpoint day the series holds that checkpoint's counts
      exactly. */
  lemma CheckpointDayIsExact(table: seq<Row>, k: int, i: int)
    requires Densify(table).Ok?
    requires 0 <= k < |Densify(table).value|
    requires 0 <= i < |table| && table[i].day == Densify(table).value[k].day
    ensures Densify(table).value[k].counts == table[i].counts
  {
    assert Densify(table).value == Series(table);
    assert table[i].day == FirstDay(table) + k;
    SeriesAtCheckpoint(table, k, i);
  }

  lemma SeriesAtCheckpoint(table: seq<Row>, k: int, i: int)
    requires |table| > 0 && DistinctDays(table)
    requires 0 <= k < |Series(table)|
    requires 0 <= i < |table| && table[i].day == FirstDay(table) + k
    ensures Series(table)[k].counts == table[i].counts
  {
    CheckpointIsLatest(table, FirstDay(table) + k, i);
    SeriesIsCausal(table, k);
  }

  /** With distinct days, the checkpoint dated `d` is the latest one not
      after `d`. */
  lemma CheckpointIsLatest(table: seq<Row>, d: int, i: int)
    requires DistinctDays(table)
    requires 0 <= i < |table| && table[i].day == d
    ensures LatestAtOrBefore(table, d) == i
  {
    LatestIsReference(table, d, i);
  }

  /** Forward fill only copies rows: the series has the table's columns on
      every day, and no negative count unless the table has one. */
  lemma SeriesKeepsColumns(table: seq<Row>, roles: set<Role>, k: int)
    requires Densify(table).Ok?
    requires 0 <= k < |Densify(table).value|
    requires EveryRowHas(table, roles)
    ensures Densify(table).value[k].counts.Keys == roles
    ensures NonNegative(table) ==> NonNegative([Densify(table).value[k]])
  {
    ForwardFillCausal(table, k);
    var i := LatestAtOrBefore(table, FirstDay(table) + k);
    assert table[i].counts.Keys == roles;
    assert [Densify(table).value[k]][0] == Densify(table).value[k];
  }

  /** Built from a normalised table, every day of the series has a count
      for every column and for nothing else, and no count is negative when
      none of the checkpoints' counts is. */
  lemma SeriesRowsAreComplete(rows: seq<Row>, k: int)
    requires Densify(Normalize(rows)).Ok?
    requires 0 <= k < |Densify(Normalize(rows)).value|
    ensures Densify(Normalize(rows)).value[k].counts.Keys == Roles(rows)
    ensures NonNegative(rows) ==> NonNegative([Densify(Normalize(rows)).value[k]])
  {
    NormalizeIsComplete(rows);
    SeriesKeepsColumns(Normalize(rows), Roles(rows), k);
  }

  /** Three checkpoints two days apart, the first on day `d0`. */
  function StepTable(d0: int): seq<Row> {
    [Row(d0, map["A" := 0]), Row(d0 + 2, map["A" := 2]), Row(d0 + 4, map["A" := 1])]
  }

  lemma StepTableShape(d0: int)
    ensures |StepTable(d0)| == 3 && DistinctDays(StepTable(d0))
    ensures FirstDay(StepTable(d0)) == d0 && LastDay(StepTable(d0)) == d0 + 4
  {
    var table := StepTable(d0);
    var lo := FirstDayIsAttained(table);
    FirstDayIsLeast(table, 0);
    var hi := LastDayIsAttained(table);
    LastDayIsGreatest(table, 2);
  }

  /** Day `k` of the series holds checkpoint `i` when `i` is the last
      checkpoint not after that day. */
  lemma StepDay(d0: int, k: int, i: int)
    requires 0 <= k < 5 && 0 <= i < 3
    requires StepTable(d0)[i].day <= d0 + k
    requires i < 2 ==> d0 + k < StepTable(d0)[i + 1].day
    ensures Densify(StepTable(d0)).Ok? && |Densify(StepTable(d0)).value| == 5
    ensures Densify(StepTable(d0)).value[k] == Row(d0 + k, StepTable(d0)[i].counts)
  {
    var table := StepTable(d0);
    StepTableShape(d0);
    LatestIsReference(table, d0 + k, i);
    ForwardFillCausal(table, k);
  }

  /** A worked example of step semantics: a day between two checkpoints
      repeats the earlier one's counts and never blends in the later
      one's. */
  lemma StepScenario(d0: int)
    ensures var series := Densify(StepTable(d0));
            && series.Ok? && |series.value| == 5
            && series.value[0] == Row(d0, map["A" := 0])
            && series.value[1] == Row(d0 + 1, map["A" := 0])
            && series.value[2] == Row(d0 + 2, map["A" := 2])
            && series.value[3] == Row(d0 + 3, map["A" := 2])
            && series.value[4] == Row(d0 + 4, map["A" := 1])
  {
    StepDay(d0, 0, 0);
    StepDay(d0, 1, 0);
    StepDay(d0, 2, 1);
    StepDay(d0, 3, 1);
    StepDay(d0, 4, 2);
  }
}
