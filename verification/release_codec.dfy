/** The flat release file: one `tag|published_at|name` line per release, in
    the order the listing API returned them, and the parse the report runs
    over those lines. There is no escaping, so a `|` inside a field shifts
    the fields that follow it. */
module ReleaseCodec {
  import opened Results
  import opened Text

  /** The three keys of one API record the fetcher reads; `name` may be
      JSON null. */
  datatype ApiRelease = ApiRelease(tagName: string, publishedAt: string, name: Option<string>)

  /** `release['name'] or tag`: a null or empty name falls back to the tag,
      so the name field is empty only when the tag is. */
  function DisplayName(r: ApiRelease): (n: string)
    ensures r.name.None? || r.name.value == "" ==> n == r.tagName
    ensures r.name.Some? && r.name.value != "" ==> n == r.name.value
    ensures n == "" ==> r.tagName == ""
  {
    if r.name.Some? && r.name.value != "" then r.name.value else r.tagName
  }

  /** The three fields of one line, as the report reads them. */
  datatype Fields = Fields(tag: string, date: string, name: string)

  /** `f"{tag}|{date}|{name}"`. When no field holds a `|`, splitting the
      line on `|` gives back exactly the tag, the raw timestamp and the
      display name. */
  function EncodeLine(r: ApiRelease): (line: string)
    ensures '|' !in r.tagName && '|' !in r.publishedAt && '|' !in DisplayName(r) ==>
              Split(line, '|') == [r.tagName, r.publishedAt, DisplayName(r)]
  {
    var parts := [r.tagName, r.publishedAt, DisplayName(r)];
    var line := r.tagName + "|" + r.publishedAt + "|" + DisplayName(r);
    JoinFirstThree(parts, '|');
    SplitSpec(line, '|');
    if '|' !in r.tagName && '|' !in r.publishedAt && '|' !in DisplayName(r) then
      SplitJoin(parts, '|');
      line
    else
      line
  }

  /** The loop in `fetch_release_data`: one line per API record, in API
      order. */
  method EncodeReleases(releases: seq<ApiRelease>) returns (lines: seq<string>)
    ensures |lines| == |releases|
    ensures forall i :: 0 <= i < |releases| ==> lines[i] == EncodeLine(releases[i])
  {
    lines := [];
    var i := 0;
    while i < |releases|
      invariant i <= |releases|
      invariant |lines| == i
      invariant forall j :: 0 <= j < i ==> lines[j] == EncodeLine(releases[j])
    {
      lines := lines + [EncodeLine(releases[i])];
      i := i + 1;
    }
  }

  /** What `save_release_data` writes: each line followed by a newline, so
      a file with any release in it ends with a newline and is empty
      otherwise. */
  function SavedText(lines: seq<string>): (t: string)
    ensures |t| >= |lines|
    ensures |lines| > 0 <==> |t| > 0
    ensures |lines| > 0 ==> t[|t| - 1] == '\n'
  {
    if |lines| == 0 then ""
    else lines[0] + "\n" + SavedText(lines[1..])
  }

  lemma {:induction false} SavedTextIsJoin(lines: seq<string>)
    ensures SavedText(lines) == Join(lines + [""], '\n')
  {
    if |lines| > 0 {
      assert (lines + [""])[1..] == lines[1..] + [""];
      SavedTextIsJoin(lines[1..]);
      assert lines[0] + "\n" + SavedText(lines[1..]) == lines[0] + ['\n'] + SavedText(lines[1..]);
    }
  }

  /** Reading the saved file back line by line: splitting on newlines gives
      the lines written plus the empty remainder after the final newline,
      so the file holds exactly one newline per release. */
  lemma SavedTextLines(lines: seq<string>)
    requires forall i :: 0 <= i < |lines| ==> '\n' !in lines[i]
    ensures Split(SavedText(lines), '\n') == lines + [""]
    ensures Count(SavedText(lines), '\n') == |lines|
  {
    SavedTextIsJoin(lines);
    SplitJoin(lines + [""], '\n');
    SplitSpec(SavedText(lines), '\n');
  }

  /** `line.strip().split("|")` kept when it has at least three pieces
      (`if len(parts) >= 3`), read as tag, date and name. */
  function ParseLine(line: string): (r: Option<Fields>)
    ensures r.Some? <==> Count(Strip(line), '|') >= 2
    ensures r.Some? ==> '|' !in r.value.tag && '|' !in r.value.date && '|' !in r.value.name
  {
    var parts := Split(Strip(line), '|');
    SplitSpec(Strip(line), '|');
    if |parts| >= 3 then Some(Fields(parts[0], parts[1], parts[2])) else None
  }

  /** A line is kept exactly when its stripped text holds at least two `|`.
      The fields are the first three pieces: the stripped text starts with
      them joined by `|`, is exactly that when there are only three, and
      continues with a `|` right after them when there are more.
      Extra pieces are dropped, so a name that held a `|` comes back cut at
      that `|`. */
  lemma ParseLineSpec(line: string)
    ensures ParseLine(line).Some? <==> Count(Strip(line), '|') >= 2
    ensures ParseLine(line).Some? ==>
              var f := ParseLine(line).value;
              && '|' !in f.tag && '|' !in f.date && '|' !in f.name
              && StartsWith(Strip(line), f.tag + "|" + f.date + "|" + f.name)
              && (Count(Strip(line), '|') == 2 ==> Strip(line) == f.tag + "|" + f.date + "|" + f.name)
              && (Count(Strip(line), '|') > 2 ==> StartsWith(Strip(line), f.tag + "|" + f.date + "|" + f.name + "|"))
  {
    var parts := Split(Strip(line), '|');
    SplitSpec(Strip(line), '|');
    if |parts| >= 3 {
      JoinFirstThree(parts, '|');
    }
  }

  predicate StartsWith(s: string, prefix: string) {
    |prefix| <= |s| && s[..|prefix|] == prefix
  }

  /** Joining a list of at least three pieces starts with its first three
      pieces joined, is exactly that when there are only three, and goes on
      with a separator when there are more. */
  lemma JoinFirstThree(parts: seq<string>, sep: char)
    requires |parts| >= 3
    ensures StartsWith(Join(parts, sep), parts[0] + [sep] + parts[1] + [sep] + parts[2])
    ensures |parts| == 3 ==> Join(parts, sep) == parts[0] + [sep] + parts[1] + [sep] + parts[2]
    ensures |parts| > 3 ==> StartsWith(Join(parts, sep), parts[0] + [sep] + parts[1] + [sep] + parts[2] + [sep])
  {
    var head := parts[0] + [sep] + parts[1] + [sep] + parts[2];
    assert Join(parts[2..], sep) == parts[2] + (if |parts| == 3 then "" else [sep] + Join(parts[3..], sep));
    assert Join(parts, sep) == head + (if |parts| == 3 then "" else [sep] + Join(parts[3..], sep));
  }

  /** Encoding a release and parsing the line back returns its tag, its raw
      timestamp and its display name, provided no field holds a `|`, the
      tag does not start with whitespace and the display name does not end
      with it (`strip()` would eat either). */
  lemma {:induction false} EncodeParseRoundTrip(r: ApiRelease)
    requires '|' !in r.tagName && '|' !in r.publishedAt && '|' !in DisplayName(r)
    requires |r.tagName| > 0 ==> !IsSpace(r.tagName[0])
    requires |DisplayName(r)| > 0 ==> !IsSpace(DisplayName(r)[|DisplayName(r)| - 1])
    ensures ParseLine(EncodeLine(r)) == Some(Fields(r.tagName, r.publishedAt, DisplayName(r)))
  {
    var line := EncodeLine(r);
    var name := DisplayName(r);
    assert line == r.tagName + "|" + r.publishedAt + "|" + name;
    assert line[0] == (if |r.tagName| > 0 then r.tagName[0] else '|');
    assert line[|line| - 1] == (if |name| > 0 then name[|name| - 1] else '|');
    StripUnchanged(line);
  }

  /** A `|` inside a name does not survive the round trip: the parse keeps
      only the part of the name before it. */
  lemma {:induction false} PipeInNameIsCut(tag: string, date: string, a: string, b: string)
    requires '|' !in tag && '|' !in date && '|' !in a && '|' !in b
    requires |tag| > 0 ==> !IsSpace(tag[0])
    requires |b| > 0 ==> !IsSpace(b[|b| - 1])
    ensures ParseLine(EncodeLine(ApiRelease(tag, date, Some(a + "|" + b)))) == Some(Fields(tag, date, a))
  {
    var r := ApiRelease(tag, date, Some(a + "|" + b));
    assert DisplayName(r) == a + "|" + b;
    var line := EncodeLine(r);
    var parts := [tag, date, a, b];
    assert parts[1..][1..] == [a, b];
    assert Join([a, b], '|') == a + "|" + b;
    assert Join(parts, '|') == line;
    assert line[0] == (if |tag| > 0 then tag[0] else '|');
    assert line[|line| - 1] == (if |b| > 0 then b[|b| - 1] else '|');
    StripUnchanged(line);
    SplitJoin(parts, '|');
  }

  /** A release whose name is null is written with its tag in the name
      field. */
  lemma NullNameFallsBackToTag()
    ensures EncodeLine(ApiRelease("v1.0", "2024-01-02T00:00:00Z", None)) == "v1.0|2024-01-02T00:00:00Z|v1.0"
  {
    var r := ApiRelease("v1.0", "2024-01-02T00:00:00Z", None);
    assert DisplayName(r) == "v1.0";
    assert "v1.0" + "|" + "2024-01-02T00:00:00Z" + "|" + "v1.0" == "v1.0|2024-01-02T00:00:00Z|v1.0";
    assert EncodeLine(r) == "v1.0" + "|" + "2024-01-02T00:00:00Z" + "|" + "v1.0";
  }

  /** An empty name is falsy too, so it is written as the tag. */
  lemma EmptyNameFallsBackToTag()
    ensures EncodeLine(ApiRelease("v1.0", "2024-01-02T00:00:00Z", Some(""))) == "v1.0|2024-01-02T00:00:00Z|v1.0"
  {
    var r := ApiRelease("v1.0", "2024-01-02T00:00:00Z", Some(""));
    assert DisplayName(r) == "v1.0";
    assert "v1.0" + "|" + "2024-01-02T00:00:00Z" + "|" + "v1.0" == "v1.0|2024-01-02T00:00:00Z|v1.0";
    assert EncodeLine(r) == "v1.0" + "|" + "2024-01-02T00:00:00Z" + "|" + "v1.0";
  }
}
