/** The stacked bands of one segment: the roles are drawn in the table's
    column order, each band starting where the previous one ended, the
    first one on zero. Each segment is stacked on its own. */
module Stacking {
  import opened Headcount
  import opened Segments

  /** What stands below role `k` of `columns` on one day: the counts of the
      roles before it, added up. */
  function Baseline(counts: map<Role, int>, columns: seq<Role>, k: nat): int
    requires k <= |columns|
  {
    if k == 0 then 0 else Baseline(counts, columns, k - 1) + Value(counts, columns[k - 1])
  }

  /** The sum of one day's counts over the listed columns; when `columns`
      lists each column of the frame once, this is `team_df.sum(axis=1)`. */
  function RowTotal(counts: map<Role, int>, columns: seq<Role>): int {
    if |columns| == 0 then 0 else Value(counts, columns[0]) + RowTotal(counts, columns[1..])
  }

  lemma {:induction false} RowTotalSnoc(counts: map<Role, int>, columns: seq<Role>, role: Role)
    ensures RowTotal(counts, columns + [role]) == RowTotal(counts, columns) + Value(counts, role)
  {
    if |columns| > 0 {
      assert (columns + [role])[1..] == columns[1..] + [role];
      RowTotalSnoc(counts, columns[1..], role);
    }
  }

  /** The baseline before role `k` is the total of the first `k` columns. */
  lemma {:induction false} BaselineIsPrefixTotal(counts: map<Role, int>, columns: seq<Role>, k: nat)
    requires k <= |columns|
    ensures Baseline(counts, columns, k) == RowTotal(counts, columns[..k])
  {
    if k > 0 {
      BaselineIsPrefixTotal(counts, columns, k - 1);
      assert columns[..k] == columns[..k - 1] + [columns[k - 1]];
      RowTotalSnoc(counts, columns[..k - 1], columns[k - 1]);
    }
  }

  /** After the last role the baseline is the day's total. */
  lemma BaselineEndsAtTotal(counts: map<Role, int>, columns: seq<Role>)
    ensures Baseline(counts, columns, |columns|) == RowTotal(counts, columns)
  {
    BaselineIsPrefixTotal(counts, columns, |columns|);
    assert columns[..|columns|] == columns;
  }

  /** With no negative count the baseline never goes down from one role to
      the next, so the bands do not overlap. */
  lemma {:induction false} BaselineIsMonotone(counts: map<Role, int>, columns: seq<Role>, j: nat, k: nat)
    requires j <= k <= |columns|
    requires forall r :: r in counts ==> counts[r] >= 0
    ensures 0 <= Baseline(counts, columns, j) <= Baseline(counts, columns, k)
    decreases k
  {
    if j < k {
      BaselineIsMonotone(counts, columns, j, k - 1);
    } else if k > 0 {
      BaselineIsMonotone(counts, columns, 0, k - 1);
    }
  }

  /** A role's colour in the chart: its entry in `role_colors`, or the grey
      default for a role the palette does not name. */
  const RoleColors: map<Role, string> :=
    map["EEST" := "#3498db", "EELS" := "#27ae60", "Consensus" := "#e67e22", "Intern" := "#9b59b6"]

  const DefaultColor: string := "#95a5a6"

  function RoleColor(role: Role): (c: string)
    ensures IsHexColor(c)
  {
    assert RoleColors.Keys == {"EEST", "EELS", "Consensus", "Intern"};
    if role in RoleColors then RoleColors[role] else DefaultColor
  }

  predicate IsHexDigit(c: char) {
    '0' <= c <= '9' || 'a' <= c <= 'f'
  }

  /** A colour in `#rrggbb` form. */
  predicate IsHexColor(s: string) {
    |s| == 7 && s[0] == '#' && forall i :: 1 <= i < 7 ==> IsHexDigit(s[i])
  }

  /** Every role gets a `#rrggbb` colour; the named roles each get their own
      and none of them gets the default, so a role outside the palette (such
      as "Grantee") is the only kind drawn in grey. */
  lemma RoleColorsAreDistinct(r1: Role, r2: Role)
    ensures IsHexColor(RoleColor(r1))
    ensures r1 in RoleColors && r2 in RoleColors && r1 != r2 ==> RoleColor(r1) != RoleColor(r2)
    ensures RoleColor(r1) == DefaultColor <==> r1 !in RoleColors
  {
    assert RoleColors.Keys == {"EEST", "EELS", "Consensus", "Intern"};
  }

  /** The role that joins last is outside the palette. */
  lemma GranteeIsGrey()
    ensures RoleColor("Grantee") == DefaultColor
  {
    assert "Grantee" !in RoleColors.Keys by {
      assert RoleColors.Keys == {"EEST", "EELS", "Consensus", "Intern"};
    }
  }

  /** One `fill_between` call: a role's band over the days of a segment,
      from `lower` to `upper` on each day, in the role's colour. */
  datatype Band = Band(role: Role, color: string, lower: seq<int>, upper: seq<int>)

  /** One day's counts for `role`, in segment order. */
  function Column(segment: seq<Row>, role: Role): seq<int>
  {
    seq(|segment|, d requires 0 <= d < |segment| => Value(segment[d].counts, role))
  }

  /** `bands` is the stack of `segment` in the order `columns`: one band per
      column, in the role's colour, each spanning the segment's days, and
      on every day role k's band runs from the total of the roles before it
      to that total plus its own count. */
  predicate StackedOn(bands: seq<Band>, segment: seq<Row>, columns: seq<Role>) {
    && |bands| == |columns|
    && (forall k :: 0 <= k < |columns| ==>
          && bands[k].role == columns[k]
          && bands[k].color == RoleColor(columns[k])
          && |bands[k].lower| == |segment| == |bands[k].upper|)
    && (forall k, d :: 0 <= k < |columns| && 0 <= d < |segment| ==>
          && bands[k].lower[d] == Baseline(segment[d].counts, columns, k)
          && bands[k].upper[d] == Baseline(segment[d].counts, columns, k + 1))
  }

  /** The stacking loop: a zero baseline per day, then for each column in
      order a band from the baseline to the baseline plus the column, after
      which the baseline moves up by the column. On return the bands are
      the stack of the segment and the final baseline is each day's
      total. */
  method Stack(segment: seq<Row>, columns: seq<Role>) returns (bands: seq<Band>, bottom: seq<int>)
    ensures StackedOn(bands, segment, columns)
    ensures |bottom| == |segment|
    ensures forall d :: 0 <= d < |segment| ==> bottom[d] == RowTotal(segment[d].counts, columns)
  {
    bottom := seq(|segment|, d => 0);
    bands := [];
    for k := 0 to |columns|
      invariant |bands| == k && |bottom| == |segment|
      invariant forall d :: 0 <= d < |segment| ==> bottom[d] == Baseline(segment[d].counts, columns, k)
      invariant forall j :: 0 <= j < k ==>
                  && bands[j].role == columns[j]
                  && bands[j].color == RoleColor(columns[j])
                  && |bands[j].lower| == |segment| == |bands[j].upper|
      invariant forall j, d :: 0 <= j < k && 0 <= d < |segment| ==>
                  && bands[j].lower[d] == Baseline(segment[d].counts, columns, j)
                  && bands[j].upper[d] == Baseline(segment[d].counts, columns, j + 1)
    {
      var col := Column(segment, columns[k]);
      var upper := seq(|segment|, d requires 0 <= d < |segment| => bottom[d] + col[d]);
      bands := bands + [Band(columns[k], RoleColor(columns[k]), bottom, upper)];
      bottom := upper;
    }
    forall d | 0 <= d < |segment|
      ensures bottom[d] == RowTotal(segment[d].counts, columns)
    {
      BaselineEndsAtTotal(segment[d].counts, columns);
    }
  }

  /** Two stacks over segments whose last and first rows are the same row
      meet there: every band ends in the first where it starts in the
      second. */
  lemma StacksMeet(a: seq<Row>, p: seq<Row>, columns: seq<Role>, actual: seq<Band>, projected: seq<Band>)
    requires StackedOn(actual, a, columns) && StackedOn(projected, p, columns)
    requires |a| > 0 && |p| > 0 && a[|a| - 1] == p[0]
    ensures forall k :: 0 <= k < |columns| ==>
              && actual[k].lower[|a| - 1] == projected[k].lower[0]
              && actual[k].upper[|a| - 1] == projected[k].upper[0]
  {
    var last := |a| - 1;
    forall k | 0 <= k < |columns|
      ensures actual[k].lower[last] == projected[k].lower[0]
      ensures actual[k].upper[last] == projected[k].upper[0]
    {
      assert actual[k].lower[last] == Baseline(a[last].counts, columns, k);
      assert projected[k].lower[0] == Baseline(p[0].counts, columns, k);
      assert actual[k].upper[last] == Baseline(a[last].counts, columns, k + 1);
      assert projected[k].upper[0] == Baseline(p[0].counts, columns, k + 1);
    }
  }

  /** Both stacking loops of the chart: the actual segment and the
      projected segment are each stacked from zero on their own rows. When
      the cutover day lies in a daily series, every role's band ends in the
      actual segment exactly where it starts in the projected one, so the
      solid and the hatched areas meet on that day. */
  method StackChart(series: seq<Row>, cutover: int, columns: seq<Role>)
    returns (actual: seq<Band>, projected: seq<Band>)
    ensures StackedOn(actual, Actual(series, cutover), columns)
    ensures StackedOn(projected, Projected(series, cutover), columns)
    ensures |series| > 0 && Daily(series) && series[0].day <= cutover <= series[|series| - 1].day ==>
              && |Actual(series, cutover)| > 0 && |Projected(series, cutover)| > 0
              && forall k :: 0 <= k < |columns| ==>
                   var last := |Actual(series, cutover)| - 1;
                   && actual[k].lower[last] == projected[k].lower[0]
                   && actual[k].upper[last] == projected[k].upper[0]
  {
    var a, p := Actual(series, cutover), Projected(series, cutover);
    var bottomActual, bottomProjected;
    actual, bottomActual := Stack(a, columns);
    projected, bottomProjected := Stack(p, columns);
    if |series| > 0 && Daily(series) && series[0].day <= cutover <= series[|series| - 1].day {
      SplitRebuildsSeries(series, cutover);
      StacksMeet(a, p, columns, actual, projected);
    }
  }
}
