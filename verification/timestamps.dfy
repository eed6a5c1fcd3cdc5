/** Release timestamps. The listing API reports `published_at` as
    `YYYY-MM-DDTHH:MM:SSZ`; the report turns it into a `datetime` with
    `datetime.fromisoformat(date_str.replace("Z", "+00:00"))`, sorts by it
    and prints it back with `strftime("%Y-%m-%d")`. This module models that
    parse for the fixed UTC layout (and for the same layout already written
    with `+00:00`), the date rendering, and the order Python compares such
    datetimes in. */
module Timestamps {
  import opened Results
  import opened Text
  import opened Calendar

  datatype DateTime = DateTime(year: nat, month: nat, day: nat, hour: nat, minute: nat, second: nat)

  /** The ranges Python's `datetime` enforces (`MINYEAR` is 1, `MAXYEAR` 9999). */
  predicate ValidDateTime(t: DateTime) {
    && 1 <= t.year <= 9999
    && ValidDate(t.year, t.month, t.day)
    && t.hour <= 23 && t.minute <= 59 && t.second <= 59
  }

  /** `str.replace("Z", "+00:00")`: every `Z` becomes `+00:00`. */
  function ReplaceZ(s: string): string {
    if |s| == 0 then ""
    else (if s[0] == 'Z' then "+00:00" else [s[0]]) + ReplaceZ(s[1..])
  }

  lemma {:induction false} ReplaceZAppend(a: string, b: string)
    ensures ReplaceZ(a + b) == ReplaceZ(a) + ReplaceZ(b)
  {
    if |a| == 0 {
      assert a + b == b;
    } else {
      assert (a + b)[0] == a[0];
      assert (a + b)[1..] == a[1..] + b;
      ReplaceZAppend(a[1..], b);
    }
  }

  lemma {:induction false} ReplaceZWithoutZ(s: string)
    requires 'Z' !in s
    ensures ReplaceZ(s) == s
  {
    if |s| > 0 {
      assert s == [s[0]] + s[1..];
      ReplaceZWithoutZ(s[1..]);
    }
  }

  /** Reading `ReplaceZ` backwards: a prefix of its output with no `+` in it
      came through unchanged. */
  lemma {:induction false} ReplaceZPrefix(s: string, p: string, t: string)
    requires ReplaceZ(s) == p + t
    requires '+' !in p
    ensures |p| <= |s| && s[..|p|] == p && ReplaceZ(s[|p|..]) == t
  {
    if |p| > 0 {
      assert |s| > 0;
      assert (p + t)[0] == p[0];
      assert ReplaceZ(s)[0] == (if s[0] == 'Z' then '+' else s[0]);
      assert s[0] != 'Z';
      assert ReplaceZ(s) == [s[0]] + ReplaceZ(s[1..]);
      assert (p + t)[1..] == p[1..] + t;
      assert ReplaceZ(s[1..]) == p[1..] + t;
      assert p == [p[0]] + p[1..];
      ReplaceZPrefix(s[1..], p[1..], t);
      assert s[1..][|p| - 1..] == s[|p|..];
    }
  }

  lemma {:induction false} ReplaceZLength(s: string)
    ensures |ReplaceZ(s)| >= |s|
  {
    if |s| > 0 {
      ReplaceZLength(s[1..]);
    }
  }

  /** The only strings `ReplaceZ` maps to `+00:00`. */
  lemma ReplaceZToOffset(s: string)
    requires ReplaceZ(s) == "+00:00"
    ensures s == "Z" || s == "+00:00"
  {
    ReplaceZLength(s[1..]);
    if s[0] == 'Z' {
      assert ReplaceZ(s[1..]) == "";
      assert s == [s[0]] + s[1..];
    } else {
      assert ReplaceZ(s) == [s[0]] + ReplaceZ(s[1..]);
      assert ([s[0]] + ReplaceZ(s[1..]))[1..] == ReplaceZ(s[1..]);
      assert "+00:00"[1..] == "00:00" + "";
      ReplaceZPrefix(s[1..], "00:00", "");
      ReplaceZLength(s[1..][5..]);
      assert s == [s[0]] + s[1..][..5] + s[1..][5..];
    }
  }

  /** `YYYY-MM-DDTHH:MM:SS`: digits and separators in the fixed places. */
  predicate IsLayout(s: string) {
    && |s| == 19
    && AllDigits(s[0..4]) && s[4] == '-'
    && AllDigits(s[5..7]) && s[7] == '-'
    && AllDigits(s[8..10]) && s[10] == 'T'
    && AllDigits(s[11..13]) && s[13] == ':'
    && AllDigits(s[14..16]) && s[16] == ':'
    && AllDigits(s[17..19])
  }

  /** The fields a layout string spells, read as decimal numbers. */
  function FieldsOf(s: string): DateTime
    requires IsLayout(s)
  {
    DateTime(DigitsValue(s[0..4]), DigitsValue(s[5..7]), DigitsValue(s[8..10]),
             DigitsValue(s[11..13]), DigitsValue(s[14..16]), DigitsValue(s[17..19]))
  }

  /** `datetime.fromisoformat` restricted to `YYYY-MM-DDTHH:MM:SS+00:00`.
      On that layout it is `None` exactly where Python raises `ValueError`
      (a field out of range); any other spelling is `None` here, even the
      many that Python accepts (a bare date, no offset, fractional seconds,
      another offset). */
  function FromIsoFormat(u: string): (r: Option<DateTime>)
    ensures r.Some? ==> ValidDateTime(r.value)
  {
    if |u| == 25 && IsLayout(u[..19]) && u[19..] == "+00:00" && ValidDateTime(FieldsOf(u[..19]))
    then Some(FieldsOf(u[..19]))
    else None
  }

  /** The two spellings the parse accepts: the API's `…Z` and the same
      layout written with `+00:00`. */
  predicate IsUtcStamp(s: string) {
    || (|s| == 20 && IsLayout(s[..19]) && s[19] == 'Z')
    || (|s| == 25 && IsLayout(s[..19]) && s[19..] == "+00:00")
  }

  /** `datetime.fromisoformat(s.replace("Z", "+00:00"))` on the two UTC
      spellings of `IsUtcStamp`; see `FromIsoFormat` for what else is
      `None` here. */
  function ParseTimestamp(s: string): (r: Option<DateTime>)
    ensures r.Some? ==> ValidDateTime(r.value)
  {
    FromIsoFormat(ReplaceZ(s))
  }

  /** The parse succeeds exactly on the accepted spellings whose fields are
      in range, and returns the fields as written: `Z` is read as UTC and
      nothing is converted. */
  lemma ParseTimestampSpec(s: string)
    ensures ParseTimestamp(s).Some? <==> IsUtcStamp(s) && ValidDateTime(FieldsOf(s[..19]))
    ensures ParseTimestamp(s).Some? ==> ParseTimestamp(s).value == FieldsOf(s[..19])
    ensures ParseTimestamp(s).Some? ==> ValidDateTime(ParseTimestamp(s).value)
  {
    if FromIsoFormat(ReplaceZ(s)).Some? {
      ParsedStampShape(s);
    }
    if IsUtcStamp(s) && ValidDateTime(FieldsOf(s[..19])) {
      StampParses(s);
    }
  }

  lemma LayoutHasNoZOrPlus(p: string)
    requires IsLayout(p)
    ensures 'Z' !in p && '+' !in p
  {
    forall i | 0 <= i < 19
      ensures p[i] != 'Z' && p[i] != '+'
    {
      if i < 4 { assert p[0..4][i] == p[i]; }
      else if 4 < i < 7 { assert p[5..7][i - 5] == p[i]; }
      else if 7 < i < 10 { assert p[8..10][i - 8] == p[i]; }
      else if 10 < i < 13 { assert p[11..13][i - 11] == p[i]; }
      else if 13 < i < 16 { assert p[14..16][i - 14] == p[i]; }
      else if 16 < i { assert p[17..19][i - 17] == p[i]; }
    }
  }

  /** What `FromIsoFormat` accepts after the replacement was an accepted
      spelling before it. */
  lemma ParsedStampShape(s: string)
    requires FromIsoFormat(ReplaceZ(s)).Some?
    ensures IsUtcStamp(s) && s[..19] == ReplaceZ(s)[..19]
  {
    var u := ReplaceZ(s);
    var p, t := u[..19], u[19..];
    assert u == p + t;
    LayoutHasNoZOrPlus(p);
    ReplaceZPrefix(s, p, t);
    ReplaceZToOffset(s[19..]);
    assert s == s[..19] + s[19..];
  }

  /** Every accepted spelling with fields in range parses. */
  lemma StampParses(s: string)
    requires IsUtcStamp(s) && ValidDateTime(FieldsOf(s[..19]))
    ensures FromIsoFormat(ReplaceZ(s)) == Some(FieldsOf(s[..19]))
  {
    StampReplaced(s);
    var u := s[..19] + "+00:00";
    assert |u| == 25 && u[..19] == s[..19] && u[19..] == "+00:00";
  }

  /** Both accepted spellings read as the layout followed by `+00:00` once
      `Z` is replaced. */
  lemma StampReplaced(s: string)
    requires IsUtcStamp(s)
    ensures ReplaceZ(s) == s[..19] + "+00:00"
  {
    var p, tail := s[..19], s[19..];
    LayoutHasNoZOrPlus(p);
    ReplaceZWithoutZ(p);
    assert s == p + tail;
    ReplaceZAppend(p, tail);
    if |s| == 20 {
      assert tail == "Z";
      assert ReplaceZ("Z") == "+00:00" + ReplaceZ("");
    } else {
      assert tail == "+00:00";
      ReplaceZWithoutZ(tail);
    }
  }

  /** `strftime("%Y-%m-%d")`: ten characters, dashes in the fifth and
      eighth place, and digit runs around them that read back as the year,
      the month and the day when those are in range. */
  function FormatDate(t: DateTime): (s: string)
    ensures |s| == 10 && s[4] == '-' && s[7] == '-'
    ensures AllDigits(s[..4]) && AllDigits(s[5..7]) && AllDigits(s[8..])
    ensures ValidDateTime(t) ==>
              DigitsValue(s[..4]) == t.year && DigitsValue(s[5..7]) == t.month && DigitsValue(s[8..]) == t.day
  {
    var y, m, d := PadDigits(t.year, 4), PadDigits(t.month, 2), PadDigits(t.day, 2);
    var s := y + "-" + m + "-" + d;
    assert s[..4] == y && s[5..7] == m && s[8..] == d;
    s
  }

  /** `strftime("%Y-%m-%d %H:%M:%S")`. */
  function FormatDateTime(t: DateTime): string {
    FormatDate(t) + " " + PadDigits(t.hour, 2) + ":" + PadDigits(t.minute, 2) + ":" + PadDigits(t.second, 2)
  }

  /** The date a report bullet prints is the first ten characters of the
      `published_at` string it was parsed from. */
  lemma {:induction false} FormatDateIsStampPrefix(s: string, t: DateTime)
    requires ParseTimestamp(s) == Some(t)
    ensures |s| >= 10 && FormatDate(t) == s[..10]
  {
    ParseTimestampSpec(s);
    var p := s[..19];
    FormatFieldsOf(p);
    assert p[..10] == s[..10];
  }

  /** Printing the date fields read from a layout string gives its first
      ten characters back. */
  lemma FormatFieldsOf(p: string)
    requires IsLayout(p)
    ensures FormatDate(FieldsOf(p)) == p[..10]
  {
    var f := FieldsOf(p);
    PadDigitsValue(p[0..4]);
    PadDigitsValue(p[5..7]);
    PadDigitsValue(p[8..10]);
    assert PadDigits(f.year, 4) == p[0..4];
    assert PadDigits(f.month, 2) == p[5..7];
    assert PadDigits(f.day, 2) == p[8..10];
    assert "-" == [p[4]] == [p[7]];
    assert p[..10] == p[0..4] + [p[4]] + p[5..7] + [p[7]] + p[8..10];
  }

  /** The order Python compares two UTC datetimes in: field by field, from
      the year down to the second. */
  predicate EarlierOrSame(a: DateTime, b: DateTime) {
    if a.year != b.year then a.year < b.year
    else if a.month != b.month then a.month < b.month
    else if a.day != b.day then a.day < b.day
    else if a.hour != b.hour then a.hour < b.hour
    else if a.minute != b.minute then a.minute < b.minute
    else a.second <= b.second
  }

  /** The sort key: the fields read as one mixed-radix number. */
  function SortKey(t: DateTime): int {
    ((((t.year * 13 + t.month) * 32 + t.day) * 24 + t.hour) * 60 + t.minute) * 60 + t.second
  }

  /** One mixed-radix digit step: with digits below the radix, the higher
      part decides unless it ties. */
  lemma RadixStep(hi1: int, lo1: int, hi2: int, lo2: int, radix: int)
    requires 0 <= lo1 < radix && 0 <= lo2 < radix
    ensures hi1 * radix + lo1 <= hi2 * radix + lo2 <==> hi1 < hi2 || (hi1 == hi2 && lo1 <= lo2)
    ensures hi1 * radix + lo1 == hi2 * radix + lo2 <==> hi1 == hi2 && lo1 == lo2
  {
    if hi1 < hi2 {
      MulAtLeast(hi2 - hi1, radix);
      assert hi2 * radix - hi1 * radix == (hi2 - hi1) * radix;
    } else if hi1 > hi2 {
      MulAtLeast(hi1 - hi2, radix);
      assert hi1 * radix - hi2 * radix == (hi1 - hi2) * radix;
    }
  }

  lemma MulAtLeast(k: int, radix: int)
    requires k >= 1 && radix >= 0
    ensures k * radix >= radix
  {
    assert k * radix == (k - 1) * radix + radix;
  }

  /** Comparing sort keys is comparing the datetimes. */
  lemma SortKeyOrder(a: DateTime, b: DateTime)
    requires ValidDateTime(a) && ValidDateTime(b)
    ensures SortKey(a) <= SortKey(b) <==> EarlierOrSame(a, b)
    ensures SortKey(a) == SortKey(b) <==> a == b
  {
    RadixStep(a.year, a.month, b.year, b.month, 13);
    var ym1, ym2 := a.year * 13 + a.month, b.year * 13 + b.month;
    RadixStep(ym1, a.day, ym2, b.day, 32);
    var d1, d2 := ym1 * 32 + a.day, ym2 * 32 + b.day;
    RadixStep(d1, a.hour, d2, b.hour, 24);
    var h1, h2 := d1 * 24 + a.hour, d2 * 24 + b.hour;
    RadixStep(h1, a.minute, h2, b.minute, 60);
    var m1, m2 := h1 * 60 + a.minute, h2 * 60 + b.minute;
    RadixStep(m1, a.second, m2, b.second, 60);
  }
}
