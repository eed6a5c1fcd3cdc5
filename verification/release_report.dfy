/** `generate_chronological_markdown`: parse the release lines, sort them by
    publication time and render a fixed-shape Markdown list. The clock
    reading for the "Generated on" line is a parameter; writing the file is
    left to the caller. */
module ReleaseReport {
  import opened Results
  import opened Text
  import opened Timestamps
  import opened ReleaseCodec
  import opened StableSort

  /** The `(date, tag, name)` tuple the loop appends for each kept line. */
  datatype Release = Release(at: DateTime, tag: string, name: string)

  /** The `ValueError` `fromisoformat` raises, carrying the date text it
      could not read. */
  datatype ReportError = BadTimestamp(text: string)

  const Title := "# EEST Releases - Chronological Order"

  /** The sort key: `releases.sort(key=lambda x: x[0])`. */
  function ReleaseKey(r: Release): int {
    SortKey(r.at)
  }

  /** What the loop body makes of one line: it is skipped (fewer than three
      fields), it raises on a date that does not parse, or it yields one
      release. */
  datatype Outcome = Skipped | BadDate(text: string) | Parsed(release: Release)

  function LineOutcome(line: string): Outcome {
    match ParseLine(line)
    case None => Skipped
    case Some(f) =>
      match ParseTimestamp(f.date)
      case None => BadDate(f.date)
      case Some(t) => Parsed(Release(t, f.tag, f.name))
  }

  /** A line the loop keeps (it has three fields) whose date field does not
      parse. */
  predicate DateFails(line: string) {
    ParseLine(line).Some? && ParseTimestamp(ParseLine(line).value.date).None?
  }

  /** The releases of the lines that yield one, in line order. */
  function ParsedOf(os: seq<Outcome>): seq<Release> {
    if |os| == 0 then []
    else (if os[0].Parsed? then [os[0].release] else []) + ParsedOf(os[1..])
  }

  /** Position `i` holds the first bad date. */
  predicate FirstBad(os: seq<Outcome>, i: int) {
    0 <= i < |os| && os[i].BadDate? && forall j :: 0 <= j < i ==> !os[j].BadDate?
  }

  /** Running the loop over the outcomes: the first bad date raises, and
      the loop raises exactly when there is one; otherwise the result is
      every release the lines yield, in line order. */
  function Collect(os: seq<Outcome>): (r: Result<seq<Release>, ReportError>)
    ensures r.Err? <==> exists i :: 0 <= i < |os| && os[i].BadDate?
    ensures r.Err? ==> exists i :: FirstBad(os, i) && r.error == BadTimestamp(os[i].text)
    ensures r.Ok? ==> r.value == ParsedOf(os)
  {
    if |os| == 0 then Ok([])
    else
      var rest := Collect(os[1..]);
      CollectStep(os, rest);
      match os[0]
      case Skipped => rest
      case BadDate(text) => Err(BadTimestamp(text))
      case Parsed(rel) => if rest.Err? then rest else Ok([rel] + rest.value)
  }

  /** Moving the facts about the loop over `os[1..]` to `os`. */
  lemma CollectStep(os: seq<Outcome>, rest: Result<seq<Release>, ReportError>)
    requires |os| > 0
    requires rest.Err? <==> exists i :: 0 <= i < |os[1..]| && os[1..][i].BadDate?
    requires rest.Err? ==> exists i :: FirstBad(os[1..], i) && rest.error == BadTimestamp(os[1..][i].text)
    ensures (exists i :: 0 <= i < |os| && os[i].BadDate?) <==> os[0].BadDate? || rest.Err?
    ensures !os[0].BadDate? && rest.Err? ==>
              exists i :: FirstBad(os, i) && rest.error == BadTimestamp(os[i].text)
  {
    if exists i :: 0 <= i < |os| && os[i].BadDate? {
      var i :| 0 <= i < |os| && os[i].BadDate?;
      if i > 0 {
        assert os[1..][i - 1] == os[i];
      }
    }
    if rest.Err? {
      var i :| FirstBad(os[1..], i) && rest.error == BadTimestamp(os[1..][i].text);
      assert os[i + 1] == os[1..][i];
      if !os[0].BadDate? {
        forall j | 0 <= j < i + 1
          ensures !os[j].BadDate?
        {
          if j > 0 {
            assert os[j] == os[1..][j - 1];
          }
        }
        assert FirstBad(os, i + 1);
      }
    }
  }

  /** The parsing loop of `generate_chronological_markdown`. */
  function ParseReleases(lines: seq<string>): Result<seq<Release>, ReportError> {
    Collect(MapSeq(LineOutcome, lines))
  }

  /** The fields of the lines the loop keeps, in line order. */
  function KeptFields(lines: seq<string>): (fs: seq<Fields>)
    ensures |fs| <= |lines|
  {
    if |lines| == 0 then []
    else (if ParseLine(lines[0]).Some? then [ParseLine(lines[0]).value] else []) + KeptFields(lines[1..])
  }

  /** Each release carries the tag and name of the matching kept line and the
      datetime its date field parses to. */
  predicate Matches(rs: seq<Release>, fs: seq<Fields>) {
    && |rs| == |fs|
    && forall i :: 0 <= i < |rs| ==>
         && rs[i].tag == fs[i].tag
         && rs[i].name == fs[i].name
         && ParseTimestamp(fs[i].date) == Some(rs[i].at)
  }

  /** Lines with fewer than three fields are skipped; the first kept line
      whose date does not parse aborts the whole parse with that date's
      text, and the parse aborts only then; otherwise every kept line
      becomes one release, in line order, carrying its tag, its name and
      the datetime its date parses to. */
  lemma ParseReleasesSpec(lines: seq<string>)
    ensures ParseReleases(lines).Err? <==> exists i :: 0 <= i < |lines| && DateFails(lines[i])
    ensures ParseReleases(lines).Err? ==>
              exists i :: && 0 <= i < |lines| && DateFails(lines[i])
                          && (forall j :: 0 <= j < i ==> !DateFails(lines[j]))
                          && ParseReleases(lines).error == BadTimestamp(ParseLine(lines[i]).value.date)
    ensures ParseReleases(lines).Ok? ==> Matches(ParseReleases(lines).value, KeptFields(lines))
  {
    var os := MapSeq(LineOutcome, lines);
    forall i | 0 <= i < |lines|
      ensures os[i].BadDate? <==> DateFails(lines[i])
      ensures os[i].BadDate? ==> os[i].text == ParseLine(lines[i]).value.date
    {
      assert os[i] == LineOutcome(lines[i]);
    }
    if ParseReleases(lines).Ok? {
      ParsedMatchKept(lines);
    }
  }

  /** Without a bad date, the releases the lines yield match the kept
      lines one for one. */
  lemma {:induction false} ParsedMatchKept(lines: seq<string>)
    requires forall i :: 0 <= i < |lines| ==> !LineOutcome(lines[i]).BadDate?
    ensures Matches(ParsedOf(MapSeq(LineOutcome, lines)), KeptFields(lines))
  {
    if |lines| > 0 {
      var o := LineOutcome(lines[0]);
      var os := MapSeq(LineOutcome, lines[1..]);
      forall i | 0 <= i < |lines[1..]|
        ensures !LineOutcome(lines[1..][i]).BadDate?
      {
        assert lines[1..][i] == lines[i + 1];
      }
      ParsedMatchKept(lines[1..]);
      MapSeqCons(LineOutcome, lines[0], lines[1..]);
      assert lines == [lines[0]] + lines[1..];
      var all := [o] + os;
      assert all[0] == o && all[1..] == os;
      assert ParsedOf(all) == (if o.Parsed? then [o.release] else []) + ParsedOf(os);
      if o.Parsed? {
        var f := ParseLine(lines[0]).value;
        MatchesCons(o.release, f, ParsedOf(os), KeptFields(lines[1..]));
      } else {
        assert ParseLine(lines[0]).None?;
      }
    }
  }

  lemma MatchesCons(r: Release, f: Fields, rs: seq<Release>, fs: seq<Fields>)
    requires Matches(rs, fs)
    requires r.tag == f.tag && r.name == f.name && ParseTimestamp(f.date) == Some(r.at)
    ensures Matches([r] + rs, [f] + fs)
  {
    forall i | 0 <= i < |rs| + 1
      ensures ([r] + rs)[i].tag == ([f] + fs)[i].tag
      ensures ([r] + rs)[i].name == ([f] + fs)[i].name
      ensures ParseTimestamp(([f] + fs)[i].date) == Some(([r] + rs)[i].at)
    {
      if i > 0 {
        assert ([r] + rs)[i] == rs[i - 1];
        assert ([f] + fs)[i] == fs[i - 1];
      }
    }
  }

  /** `f"- **{tag}** - {date_str}"`. */
  function Bullet(r: Release): string {
    "- **" + r.tag + "** - " + FormatDate(r.at)
  }

  /** The five lines above the bullets. */
  function Header(now: DateTime, total: nat): seq<string> {
    [Title, "", "Generated on: " + FormatDateTime(now), "Total releases: " + NatToString(total), ""]
  }

  /** `md_content` for releases already in sorted order. */
  function ReportLines(sorted: seq<Release>, now: DateTime): (lines: seq<string>)
    ensures |lines| == 5 + |sorted|
  {
    Header(now, |sorted|) + MapSeq(Bullet, sorted)
  }

  /** The text `generate_chronological_markdown` writes, or the error that
      stops it before anything is written. It fails exactly when some kept
      line has a date that does not parse; skipped lines never make it
      fail. */
  function GenerateMarkdown(lines: seq<string>, now: DateTime): (r: Result<string, ReportError>)
    ensures r.Err? <==> exists i :: 0 <= i < |lines| && DateFails(lines[i])
  {
    ParseReleasesSpec(lines);
    match ParseReleases(lines)
    case Err(e) => Err(e)
    case Ok(rs) => Ok(Join(ReportLines(Sort(rs, ReleaseKey), now), '\n'))
  }

  /** Splitting the report on newlines gives back its lines: the title, a
      blank line, the generation time, the total, a blank line, then one
      bullet per release in sorted order. With at least one release the
      text does not end with a newline. */
  lemma ReportLayout(lines: seq<string>, now: DateTime)
    requires ParseReleases(lines).Ok?
    requires forall i :: 0 <= i < |KeptFields(lines)| ==> '\n' !in KeptFields(lines)[i].tag
    ensures var sorted := Sort(ParseReleases(lines).value, ReleaseKey);
            var out := GenerateMarkdown(lines, now).value;
            && Split(out, '\n') == Header(now, |sorted|) + MapSeq(Bullet, sorted)
            && (|sorted| > 0 ==> out[|out| - 1] != '\n')
  {
    var rs := ParseReleases(lines).value;
    var sorted := Sort(rs, ReleaseKey);
    forall r | r in sorted
      ensures '\n' !in r.tag
    {
      ReleaseFromKeptLine(lines, r);
    }
    ReportTextLayout(sorted, now);
  }

  /** The same for any list of releases whose tags hold no newline. */
  lemma ReportTextLayout(sorted: seq<Release>, now: DateTime)
    requires forall r :: r in sorted ==> '\n' !in r.tag
    ensures var out := Join(ReportLines(sorted, now), '\n');
            && Split(out, '\n') == Header(now, |sorted|) + MapSeq(Bullet, sorted)
            && (|sorted| > 0 ==> out[|out| - 1] != '\n')
  {
    var ls := ReportLines(sorted, now);
    forall i | 0 <= i < |ls|
      ensures '\n' !in ls[i]
    {
      if i < 5 {
        HeaderHasNoNewline(now, |sorted|, i);
      } else {
        assert sorted[i - 5] in sorted;
        BulletHasNoNewline(sorted[i - 5]);
      }
    }
    SplitJoin(ls, '\n');
    if |sorted| > 0 {
      var b := Bullet(sorted[|sorted| - 1]);
      assert ls[|ls| - 1] == b;
      JoinEndsWithLast(ls, '\n');
      BulletEnd(sorted[|sorted| - 1]);
    }
  }

  /** A bullet ends with the last digit of its date. */
  lemma BulletEnd(r: Release)
    ensures var b := Bullet(r); |b| > 0 && b[|b| - 1] != '\n'
  {
    var d := PadDigits(r.at.day, 2);
    var b := Bullet(r);
    assert b == "- **" + r.tag + "** - " + PadDigits(r.at.year, 4) + "-" + PadDigits(r.at.month, 2) + "-" + d;
    assert b[|b| - 1] == d[1];
    assert IsDigit(d[1]);
  }

  lemma JoinEndsWithLast(parts: seq<string>, sep: char)
    requires |parts| > 0 && |parts[|parts| - 1]| > 0
    ensures var s := Join(parts, sep); |s| > 0 && s[|s| - 1] == parts[|parts| - 1][|parts[|parts| - 1]| - 1]
  {
    if |parts| > 1 {
      JoinEndsWithLast(parts[1..], sep);
    }
  }

  lemma DigitsHaveNoNewline(s: string)
    requires AllDigits(s)
    ensures '\n' !in s
  {
    forall i | 0 <= i < |s| ensures s[i] != '\n' { assert IsDigit(s[i]); }
  }

  lemma FormatDateHasNoNewline(t: DateTime)
    ensures '\n' !in FormatDate(t) && '\n' !in FormatDateTime(t)
  {
    DigitsHaveNoNewline(PadDigits(t.year, 4));
    DigitsHaveNoNewline(PadDigits(t.month, 2));
    DigitsHaveNoNewline(PadDigits(t.day, 2));
    DigitsHaveNoNewline(PadDigits(t.hour, 2));
    DigitsHaveNoNewline(PadDigits(t.minute, 2));
    DigitsHaveNoNewline(PadDigits(t.second, 2));
  }

  lemma HeaderHasNoNewline(now: DateTime, total: nat, i: nat)
    requires i < 5
    ensures '\n' !in Header(now, total)[i]
  {
    var h := Header(now, total);
    if i == 0 {
      assert h[0] == Title;
    } else if i == 2 {
      FormatDateHasNoNewline(now);
      assert h[2] == "Generated on: " + FormatDateTime(now);
    } else if i == 3 {
      DigitsHaveNoNewline(NatToString(total));
      assert h[3] == "Total releases: " + NatToString(total);
    } else {
      assert h[i] == "";
    }
  }

  lemma BulletHasNoNewline(r: Release)
    requires '\n' !in r.tag
    ensures '\n' !in Bullet(r)
  {
    FormatDateHasNoNewline(r.at);
  }

  /** The number on the "Total releases" line reads back as the number of
      bullet lines below the header. */
  lemma TotalCountsBullets(sorted: seq<Release>, now: DateTime)
    ensures var ls := ReportLines(sorted, now);
            var prefix := "Total releases: ";
            && StartsWith(ls[3], prefix)
            && AllDigits(ls[3][|prefix|..])
            && DigitsValue(ls[3][|prefix|..]) == |ls| - 5
            && forall i :: 5 <= i < |ls| ==> StartsWith(ls[i], "- **")
  {
    var ls := ReportLines(sorted, now);
    var prefix := "Total releases: ";
    assert ls[3] == prefix + NatToString(|sorted|);
    assert ls[3][|prefix|..] == NatToString(|sorted|);
    forall i | 5 <= i < |ls|
      ensures StartsWith(ls[i], "- **")
    {
      assert ls[i] == Bullet(sorted[i - 5]);
    }
  }

  /** The bullets come in chronological order; releases published at the
      same moment keep their line order; no release is lost or repeated. */
  lemma ReportIsChronological(lines: seq<string>)
    ensures ParseReleases(lines).Ok? ==>
              var rs := ParseReleases(lines).value;
              var sorted := Sort(rs, ReleaseKey);
              && (forall i, j :: 0 <= i < j < |sorted| ==> EarlierOrSame(sorted[i].at, sorted[j].at))
              && (forall k :: WithKey(sorted, ReleaseKey, k) == WithKey(rs, ReleaseKey, k))
              && multiset(sorted) == multiset(rs)
  {
    if ParseReleases(lines).Ok? {
      var rs := ParseReleases(lines).value;
      var sorted := Sort(rs, ReleaseKey);
      forall i, j | 0 <= i < j < |sorted|
        ensures EarlierOrSame(sorted[i].at, sorted[j].at)
      {
        assert sorted[i] in sorted && sorted[j] in sorted;
        ReleaseFromKeptLine(lines, sorted[i]);
        ReleaseFromKeptLine(lines, sorted[j]);
        assert ReleaseKey(sorted[i]) <= ReleaseKey(sorted[j]);
        SortKeyOrder(sorted[i].at, sorted[j].at);
      }
    }
  }

  /** Every release in the sorted list comes from a kept line: same tag, a
      datetime that its date text parses to, and so a valid datetime whose
      date is that text's first ten characters. */
  lemma ReleaseFromKeptLine(lines: seq<string>, r: Release)
    ensures ParseReleases(lines).Ok? && r in Sort(ParseReleases(lines).value, ReleaseKey) ==>
              && ValidDateTime(r.at)
              && exists j :: && 0 <= j < |KeptFields(lines)| && KeptFields(lines)[j].tag == r.tag
                             && ParseTimestamp(KeptFields(lines)[j].date) == Some(r.at)
                             && |KeptFields(lines)[j].date| >= 10
                             && FormatDate(r.at) == KeptFields(lines)[j].date[..10]
  {
    if ParseReleases(lines).Ok? && r in Sort(ParseReleases(lines).value, ReleaseKey) {
      var rs := ParseReleases(lines).value;
      var fs := KeptFields(lines);
      ParseReleasesSpec(lines);
      assert r in multiset(Sort(rs, ReleaseKey));
      assert r in multiset(rs);
      var j :| 0 <= j < |rs| && rs[j] == r;
      ParseTimestampSpec(fs[j].date);
      FormatDateIsStampPrefix(fs[j].date, r.at);
    }
  }

  /** Lines the loop skips (fewer than three fields) leave the result exactly
      as if they were absent. */
  lemma ShortLineIsSkipped(pre: seq<string>, line: string, post: seq<string>, now: DateTime)
    ensures Count(Strip(line), '|') < 2 ==>
              GenerateMarkdown(pre + [line] + post, now) == GenerateMarkdown(pre + post, now)
  {
    if Count(Strip(line), '|') < 2 {
      ParseLineSpec(line);
      assert LineOutcome(line) == Skipped;
      var a, b := MapSeq(LineOutcome, pre), MapSeq(LineOutcome, post);
      MapSeqAppend(LineOutcome, pre + [line], post);
      MapSeqAppend(LineOutcome, pre, [line]);
      MapSeqAppend(LineOutcome, pre, post);
      assert MapSeq(LineOutcome, [line]) == [Skipped];
      CollectSkips(a, b);
    }
  }

  lemma {:induction false} CollectSkips(a: seq<Outcome>, b: seq<Outcome>)
    ensures Collect(a + [Skipped] + b) == Collect(a + b)
  {
    if |a| == 0 {
      assert a + [Skipped] + b == [Skipped] + b;
      assert ([Skipped] + b)[1..] == b;
      assert a + b == b;
    } else {
      assert (a + [Skipped] + b)[0] == a[0];
      assert (a + [Skipped] + b)[1..] == a[1..] + [Skipped] + b;
      assert (a + b)[0] == a[0];
      assert (a + b)[1..] == a[1..] + b;
      CollectSkips(a[1..], b);
    }
  }

  function Unnamed(r: Release): Release {
    r.(name := "")
  }

  /** Two outcomes that differ at most in the release's name. */
  predicate SameButName(o1: Outcome, o2: Outcome) {
    match o1
    case Parsed(r1) => o2.Parsed? && Unnamed(r1) == Unnamed(o2.release)
    case _ => o1 == o2
  }

  /** Two inputs whose lines agree on which are kept and, for kept lines, on
      tag and date give the same report, whatever their names: the name
      field never reaches the output. */
  lemma NameNeverShows(lines1: seq<string>, lines2: seq<string>, now: DateTime)
    requires |lines1| == |lines2|
    requires forall i :: 0 <= i < |lines1| ==> ParseLine(lines1[i]).Some? == ParseLine(lines2[i]).Some?
    requires forall i :: 0 <= i < |lines1| && ParseLine(lines1[i]).Some? && ParseLine(lines2[i]).Some? ==>
               && ParseLine(lines1[i]).value.tag == ParseLine(lines2[i]).value.tag
               && ParseLine(lines1[i]).value.date == ParseLine(lines2[i]).value.date
    ensures GenerateMarkdown(lines1, now) == GenerateMarkdown(lines2, now)
  {
    var os1, os2 := MapSeq(LineOutcome, lines1), MapSeq(LineOutcome, lines2);
    forall i | 0 <= i < |os1|
      ensures SameButName(os1[i], os2[i])
    {
      assert os1[i] == LineOutcome(lines1[i]) && os2[i] == LineOutcome(lines2[i]);
    }
    CollectIgnoresNames(os1, os2);
    var p1, p2 := ParseReleases(lines1), ParseReleases(lines2);
    if p1.Ok? {
      SortedBulletsIgnoreNames(p1.value, p2.value);
    }
  }

  lemma SortedBulletsIgnoreNames(r1: seq<Release>, r2: seq<Release>)
    requires MapSeq(Unnamed, r1) == MapSeq(Unnamed, r2)
    ensures MapSeq(Bullet, Sort(r1, ReleaseKey)) == MapSeq(Bullet, Sort(r2, ReleaseKey))
  {
    var s1, s2 := Sort(r1, ReleaseKey), Sort(r2, ReleaseKey);
    SortMapCommutes(Unnamed, r1, ReleaseKey);
    SortMapCommutes(Unnamed, r2, ReleaseKey);
    assert MapSeq(Unnamed, s1) == MapSeq(Unnamed, s2);
    forall i | 0 <= i < |s1|
      ensures Bullet(s1[i]) == Bullet(s2[i])
    {
      assert Unnamed(s1[i]) == Unnamed(s2[i]);
    }
  }

  lemma {:induction false} CollectIgnoresNames(os1: seq<Outcome>, os2: seq<Outcome>)
    requires |os1| == |os2|
    requires forall i :: 0 <= i < |os1| ==> SameButName(os1[i], os2[i])
    ensures Collect(os1).Err? ==> Collect(os1) == Collect(os2)
    ensures Collect(os1).Ok? ==>
              Collect(os2).Ok? && MapSeq(Unnamed, Collect(os1).value) == MapSeq(Unnamed, Collect(os2).value)
  {
    if |os1| > 0 {
      forall i | 0 <= i < |os1[1..]|
        ensures SameButName(os1[1..][i], os2[1..][i])
      {
        assert os1[1..][i] == os1[i + 1] && os2[1..][i] == os2[i + 1];
      }
      CollectIgnoresNames(os1[1..], os2[1..]);
      assert SameButName(os1[0], os2[0]);
      var r1, r2 := Collect(os1[1..]), Collect(os2[1..]);
      if os1[0].Parsed? && r1.Ok? {
        MapSeqCons(Unnamed, os1[0].release, r1.value);
        MapSeqCons(Unnamed, os2[0].release, r2.value);
      }
    }
  }
}
