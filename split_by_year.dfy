/** Model of split_by_year.py: the rows of a Markdown table are split into
    one file per year of their date column, each file repeating the
    metadata block, the header and the separator. */
module SplitByYear {
  import opened Wrappers
  import opened Lists
  import opened PyStr

  /** The arrow between the two ends of a date range. */
  const Arrow: char := '\U{2192}'

  /** `datetime.strptime(s, "%B %d, %Y").year`, with `None` where it raises
      ValueError. The date library is outside the model: every operation
      takes it as a parameter. */
  type DateParser = string -> Option<nat>

  // ------------------------------------------------------------ parse_date

  /** parse_date */
  function ParseDate(dateStr: string, strptime: DateParser): Option<nat> {
    if dateStr == [] || Strip(dateStr) == [] then None
    else
      var first := if Arrow in dateStr then Strip(Split(dateStr, [Arrow])[0]) else dateStr;
      strptime(Strip(first))
  }

  /** Empty and whitespace-only text has no date. */
  lemma ParseDateBlank(dateStr: string, strptime: DateParser)
    requires forall i :: 0 <= i < |dateStr| ==> IsSpace(dateStr[i])
    ensures ParseDate(dateStr, strptime) == None
  {
    StripFacts(dateStr);
  }

  /** Without an arrow the stripped text is parsed. */
  lemma ParseDateNoArrow(dateStr: string, strptime: DateParser)
    requires Arrow !in dateStr && Strip(dateStr) != []
    ensures ParseDate(dateStr, strptime) == strptime(Strip(dateStr))
  {
  }

  /** With an arrow only the stripped text before the first one is parsed:
      the end of the range is ignored. */
  lemma ParseDateBeforeArrow(start: string, rest: string, strptime: DateParser)
    requires Arrow !in start && Strip(start + [Arrow] + rest) != []
    ensures ParseDate(start + [Arrow] + rest, strptime) == strptime(Strip(start))
  {
    var s := start + [Arrow] + rest;
    assert s[..|start|] == start && s[|start|] == Arrow;
    SplitAtFirst(s, Arrow, |start|);
    StripTwice(start);
  }

  // ------------------------------------------------------------ the metadata block

  /** The metadata lines written to every output, and the index where the
      search for the header starts. */
  datatype Metadata = Metadata(lines: seq<string>, contentStart: nat)

  /** The scan's outcome: from the first `---` line through the next one; a
      block that is never closed runs to the end of the text and leaves the
      header search at the top. */
  function MetadataOf(lines: seq<string>): Metadata {
    BlockOf(lines, IsYamlDelimiter)
  }

  /** The block between the first two lines `isDash` accepts, for any test of
      the delimiter line; the scan's own test is IsYamlDelimiter. */
  function BlockOf(lines: seq<string>, isDash: string -> bool): Metadata {
    match FirstFrom(lines, 0, isDash)
    case None => Metadata([], 0)
    case Some(first) =>
      match FirstFrom(lines, first + 1, isDash)
      case None => Metadata(lines[first..], 0)
      case Some(last) => Metadata(lines[first..last + 1], last + 1)
  }

  /** The metadata scan of split_markdown_by_year, for a test `isDash` of
      the delimiter line; the script's own test is IsYamlDelimiter. */
  method ScanMetadata(lines: seq<string>, isDash: string -> bool)
    returns (metadataLines: seq<string>, contentStart: nat)
    ensures Metadata(metadataLines, contentStart) == BlockOf(lines, isDash)
  {
    metadataLines := [];
    var inMetadata := false;
    var metadataEnd := 0;
    ghost var first: nat := 0;
    var i := 0;
    while i < |lines|
      invariant i <= |lines| && metadataEnd == 0
      invariant !inMetadata ==> metadataLines == [] && BeforeBlock(lines, isDash, i)
      invariant inMetadata ==> InBlock(lines, isDash, i, first, metadataLines)
    {
      var line := lines[i];
      if isDash(line) {
        if !inMetadata {
          ScanOpen(lines, isDash, i);
          inMetadata := true;
          first := i;
          metadataLines := [line];
        } else {
          ScanClose(lines, isDash, i, first, metadataLines);
          metadataLines := metadataLines + [line];
          metadataEnd := i + 1;
          break;
        }
      } else if inMetadata {
        ScanInside(lines, isDash, i, first, metadataLines);
        metadataLines := metadataLines + [line];
      } else {
        ScanOutside(lines, isDash, i);
      }
      i := i + 1;
    }
    contentStart := if metadataEnd > 0 then metadataEnd else 0;
    if metadataEnd == 0 {
      if inMetadata {
        ScanEndInside(lines, isDash, first, metadataLines);
      } else {
        ScanEndOutside(lines, isDash);
      }
    }
  }

  /** What the scan knows after the first `i` lines outside the block: no
      delimiter was seen yet. */
  ghost predicate BeforeBlock(lines: seq<string>, isDash: string -> bool, i: nat) {
    i <= |lines| && FirstFrom(lines, 0, isDash) == FirstFrom(lines, i, isDash)
  }

  /** What the scan knows after the first `i` lines inside the block: the
      block is the lines from the opening delimiter on and no closing one was
      seen. */
  ghost predicate InBlock(lines: seq<string>, isDash: string -> bool, i: nat, first: nat, block: seq<string>) {
    && first < i <= |lines|
    && FirstFrom(lines, 0, isDash) == Some(first)
    && block == lines[first..i]
    && FirstFrom(lines, first + 1, isDash) == FirstFrom(lines, i, isDash)
  }

  lemma ScanOpen(lines: seq<string>, isDash: string -> bool, i: nat)
    requires i < |lines| && BeforeBlock(lines, isDash, i) && isDash(lines[i])
    ensures InBlock(lines, isDash, i + 1, i, [lines[i]])
  {
    assert [lines[i]] == lines[i..i + 1];
  }

  lemma ScanInside(lines: seq<string>, isDash: string -> bool, i: nat, first: nat, block: seq<string>)
    requires i < |lines| && InBlock(lines, isDash, i, first, block) && !isDash(lines[i])
    ensures InBlock(lines, isDash, i + 1, first, block + [lines[i]])
  {
    SliceExtend(lines, first, i);
    FirstFromStep(lines, i, isDash);
  }

  lemma ScanOutside(lines: seq<string>, isDash: string -> bool, i: nat)
    requires i < |lines| && BeforeBlock(lines, isDash, i) && !isDash(lines[i])
    ensures BeforeBlock(lines, isDash, i + 1)
  {
    FirstFromStep(lines, i, isDash);
  }

  /** The closing delimiter ends the block and the content starts after it. */
  lemma ScanClose(lines: seq<string>, isDash: string -> bool, i: nat, first: nat, block: seq<string>)
    requires i < |lines| && InBlock(lines, isDash, i, first, block) && isDash(lines[i])
    ensures Metadata(block + [lines[i]], i + 1) == BlockOf(lines, isDash)
  {
    SliceExtend(lines, first, i);
  }

  /** At the end of the text, inside a block that was never closed. */
  lemma ScanEndInside(lines: seq<string>, isDash: string -> bool, first: nat, block: seq<string>)
    requires InBlock(lines, isDash, |lines|, first, block)
    ensures Metadata(block, 0) == BlockOf(lines, isDash)
  {
    PrefixRest(lines, first);
  }

  /** At the end of the text, no delimiter seen. */
  lemma ScanEndOutside(lines: seq<string>, isDash: string -> bool)
    requires BeforeBlock(lines, isDash, |lines|)
    ensures Metadata([], 0) == BlockOf(lines, isDash)
  {
  }

  /** What the scan finds: nothing when no line is `---`; otherwise the
      block starts at the first `---` line and either ends at the next one,
      the header search starting behind it, or is never closed and runs to
      the end, the header search starting at the top. */
  lemma MetadataShape(lines: seq<string>) returns (first: nat)
    ensures var m := MetadataOf(lines);
      && (m.lines == [] <==> forall k :: 0 <= k < |lines| ==> !IsYamlDelimiter(lines[k]))
      && (m.lines != [] ==>
            && first < |lines| && IsYamlDelimiter(lines[first])
            && (forall k :: 0 <= k < first ==> !IsYamlDelimiter(lines[k]))
            && (if m.contentStart == 0 then
                  m.lines == lines[first..] && forall k :: first < k < |lines| ==> !IsYamlDelimiter(lines[k])
                else
                  && first < m.contentStart - 1 < |lines| && IsYamlDelimiter(lines[m.contentStart - 1])
                  && m.lines == lines[first..m.contentStart]
                  && forall k :: first < k < m.contentStart - 1 ==> !IsYamlDelimiter(lines[k])))
    ensures MetadataOf(lines).lines == [] ==> MetadataOf(lines).contentStart == 0
  {
    first := BlockShape(lines, IsYamlDelimiter);
  }

  /** MetadataShape for any test of the delimiter line. */
  lemma BlockShape(lines: seq<string>, isDash: string -> bool) returns (first: nat)
    ensures var m := BlockOf(lines, isDash);
      && (m.lines == [] <==> forall k :: 0 <= k < |lines| ==> !isDash(lines[k]))
      && (m.lines != [] ==>
            && first < |lines| && isDash(lines[first])
            && (forall k :: 0 <= k < first ==> !isDash(lines[k]))
            && (if m.contentStart == 0 then
                  m.lines == lines[first..] && forall k :: first < k < |lines| ==> !isDash(lines[k])
                else
                  && first < m.contentStart - 1 < |lines| && isDash(lines[m.contentStart - 1])
                  && m.lines == lines[first..m.contentStart]
                  && forall k :: first < k < m.contentStart - 1 ==> !isDash(lines[k])))
    ensures BlockOf(lines, isDash).lines == [] ==> BlockOf(lines, isDash).contentStart == 0
  {
    first := 0;
    match FirstFrom(lines, 0, isDash)
    case None =>
    case Some(f) =>
      first := f;
      assert lines[f..] != [];
  }

  // ------------------------------------------------------------ the header

  /** A line taken for the table header. */
  predicate IsHeaderLine(line: string) {
    '|' in line && Contains(line, "Name") && Contains(line, "date")
  }

  /** The first header line at or after `from`. */
  function HeaderFrom(lines: seq<string>, from: nat): (r: Option<nat>)
    ensures r.Some? ==> from <= r.value < |lines|
    decreases |lines| - from
  {
    if from >= |lines| then None
    else if IsHeaderLine(lines[from]) then Some(from)
    else HeaderFrom(lines, from + 1)
  }

  /** The search finds the first header line, or reports that there is none. */
  lemma {:induction false} HeaderFromFacts(lines: seq<string>, from: nat)
    ensures var r := HeaderFrom(lines, from);
      && (r.Some? ==> from <= r.value < |lines| && IsHeaderLine(lines[r.value]))
      && (r.Some? ==> forall k :: from <= k < r.value ==> !IsHeaderLine(lines[k]))
      && (r.None? ==> forall k :: from <= k < |lines| ==> !IsHeaderLine(lines[k]))
    decreases |lines| - from
  {
    if from < |lines| && !IsHeaderLine(lines[from]) {
      HeaderFromFacts(lines, from + 1);
    }
  }

  /** The header line, its index, and the line after it (none when the
      header is the last line). */
  datatype Table = Table(start: nat, header: string, separator: Option<string>)

  function TableOf(lines: seq<string>, contentStart: nat): Option<Table> {
    match HeaderFrom(lines, contentStart)
    case None => None
    case Some(i) => Some(Table(i, lines[i], if i + 1 < |lines| then Some(lines[i + 1]) else None))
  }

  /** The header search of split_markdown_by_year. */
  method FindHeader(lines: seq<string>, contentStart: nat) returns (table: Option<Table>)
    ensures table == TableOf(lines, contentStart)
  {
    table := None;
    var i := contentStart;
    while i < |lines|
      invariant i >= contentStart
      invariant HeaderFrom(lines, contentStart) == HeaderFrom(lines, i)
    {
      var line := lines[i];
      if IsHeaderLine(line) {
        var separator := None;
        if i + 1 < |lines| {
          separator := Some(lines[i + 1]);
        }
        table := Some(Table(i, line, separator));
        break;
      }
      i := i + 1;
    }
  }

  // ------------------------------------------------------------ bucketing

  /** A bucket of rows: a year, or `'unknown'`. */
  datatype Bucket = Year(year: int) | Unknown

  /** `[col.strip() for col in line.split('|')]` */
  function Columns(line: string): (columns: seq<string>)
    ensures |columns| == |Split(line, "|")|
    ensures forall k :: 0 <= k < |columns| ==> columns[k] == Strip(Split(line, "|")[k])
  {
    var parts := Split(line, "|");
    seq(|parts|, k requires 0 <= k < |parts| => Strip(parts[k]))
  }

  /** The bucket a line after the separator goes to, or `None` for a line
      that is skipped: a blank line, one that does not start with `|` after
      stripping, or one with fewer than three cells. The date is the third
      cell of `line.split('|')`, which is the second column of the table;
      a missing year, and year 0, which Python treats as false, go to
      `Unknown`. */
  function RowBucket(line: string, strptime: DateParser): Option<Bucket> {
    var stripped := Strip(line);
    if stripped == [] || !StartsWith(stripped, "|") then None
    else
      var columns := Columns(line);
      if |columns| < 3 then None
      else
        var dateColumn := if |columns| > 2 then columns[2] else "";
        var year := ParseDate(dateColumn, strptime);
        if year.Some? && year.value != 0 then Some(Year(year.value)) else Some(Unknown)
  }

  /** The lines the bucketing loop visits: `lines[start:]`, empty when
      `start` is past the end. */
  function RowsFrom(lines: seq<string>, start: nat): seq<string> {
    if start <= |lines| then lines[start..] else []
  }

  /** RowBucket as the key function of the buckets. */
  function RowKey(strptime: DateParser): string -> Option<Bucket> {
    line => RowBucket(line, strptime)
  }

  /** The rows of `rows` that go to bucket `b`, in their order. */
  function RowsIn(rows: seq<string>, b: Bucket, key: string -> Option<Bucket>): seq<string>
    decreases |rows|
  {
    if rows == [] then []
    else
      var last := rows[|rows| - 1];
      RowsIn(rows[..|rows| - 1], b, key) + (if key(last) == Some(b) then [last] else [])
  }

  /** The buckets in the order rows first land in them: the key order of
      the `defaultdict`. */
  function BucketsSeen(rows: seq<string>, key: string -> Option<Bucket>): seq<Bucket>
    decreases |rows|
  {
    if rows == [] then []
    else
      var seen := BucketsSeen(rows[..|rows| - 1], key);
      match key(rows[|rows| - 1])
      case Some(b) => if b in seen then seen else seen + [b]
      case None => seen
  }

  /** `rowsByYear` and its key order `seen` hold the rows of `rows`. */
  ghost predicate Bucketed(rowsByYear: map<Bucket, seq<string>>, seen: seq<Bucket>, rows: seq<string>, key: string -> Option<Bucket>) {
    && seen == BucketsSeen(rows, key)
    && (forall b :: b in rowsByYear <==> b in seen)
    && (forall b :: b in rowsByYear ==> rowsByYear[b] == RowsIn(rows, b, key))
  }

  /** The bucketing loop of split_markdown_by_year. */
  method BucketRows(lines: seq<string>, start: nat, strptime: DateParser)
    returns (rowsByYear: map<Bucket, seq<string>>, seen: seq<Bucket>)
    ensures Bucketed(rowsByYear, seen, RowsFrom(lines, start), RowKey(strptime))
    ensures start >= |lines| ==> seen == []
  {
    rowsByYear := map[];
    seen := [];
    if start >= |lines| {
      return;
    }
    var i := start;
    while i < |lines|
      invariant start <= i <= |lines|
      invariant Bucketed(rowsByYear, seen, lines[start..i], RowKey(strptime))
    {
      var line := lines[i];
      var bucket := RowBucket(line, strptime);
      ghost var before, seenBefore := rowsByYear, seen;
      if bucket.Some? {
        var b := bucket.value;
        if b !in rowsByYear {
          seen := seen + [b];
        }
        rowsByYear := rowsByYear[b := (if b in rowsByYear then rowsByYear[b] else []) + [line]];
      }
      SliceExtend(lines, start, i);
      AddRow(before, seenBefore, lines[start..i], line, RowKey(strptime), rowsByYear, seen, lines[start..i + 1]);
      i := i + 1;
    }
    assert lines[start..i] == RowsFrom(lines, start);
  }

  /** One more row: `rows_by_year[key].append(line)` on the `defaultdict`
      keeps the buckets in step. */
  lemma AddRow(rowsByYear: map<Bucket, seq<string>>, seen: seq<Bucket>, rows: seq<string>, line: string,
                key: string -> Option<Bucket>,
                rowsByYear': map<Bucket, seq<string>>, seen': seq<Bucket>, rows': seq<string>)
    requires Bucketed(rowsByYear, seen, rows, key) && rows' == rows + [line]
    requires key(line).None? ==> rowsByYear' == rowsByYear && seen' == seen
    requires key(line).Some? ==>
             var b := key(line).value;
             && rowsByYear' == rowsByYear[b := (if b in rowsByYear then rowsByYear[b] else []) + [line]]
             && seen' == if b in rowsByYear then seen else seen + [b]
    ensures Bucketed(rowsByYear', seen', rows', key)
  {
    assert rows'[..|rows'| - 1] == rows && rows'[|rows'| - 1] == line;
    match key(line)
    case None =>
    case Some(b) =>
      if b !in rowsByYear {
        SeenIff(rows, b, key);
      }
  }

  /** A bucket has a key exactly when some row went to it. */
  lemma {:induction false} SeenIff(rows: seq<string>, b: Bucket, key: string -> Option<Bucket>)
    ensures b in BucketsSeen(rows, key) <==> RowsIn(rows, b, key) != []
    decreases |rows|
  {
    if rows != [] {
      SeenIff(rows[..|rows| - 1], b, key);
    }
  }

  lemma {:induction false} SeenDistinct(rows: seq<string>, key: string -> Option<Bucket>)
    ensures Distinct(BucketsSeen(rows, key))
    decreases |rows|
  {
    if rows != [] {
      SeenDistinct(rows[..|rows| - 1], key);
    }
  }

  /** A row is in bucket `b` exactly when it is one of the rows and its key
      is `b`. */
  lemma {:induction false} RowsInIff(rows: seq<string>, b: Bucket, key: string -> Option<Bucket>, line: string)
    ensures line in RowsIn(rows, b, key) <==> line in rows && key(line) == Some(b)
    decreases |rows|
  {
    if rows != [] {
      var p := rows[..|rows| - 1];
      RowsInIff(p, b, key, line);
      assert rows == p + [rows[|rows| - 1]];
    }
  }

  /** Every kept row is in exactly one bucket, a skipped row in none. */
  lemma ExactlyOneBucket(rows: seq<string>, key: string -> Option<Bucket>, line: string)
    requires line in rows
    ensures key(line).Some? ==> forall b :: line in RowsIn(rows, b, key) <==> b == key(line).value
    ensures key(line).None? ==> forall b :: line !in RowsIn(rows, b, key)
  {
    forall b ensures line in RowsIn(rows, b, key) <==> line in rows && key(line) == Some(b) {
      RowsInIff(rows, b, key, line);
    }
  }

  /** Rows keep their relative order inside a bucket: the rows of a longer
      text are those of its first part followed by those of the rest. */
  lemma {:induction false} RowsInAppend(a: seq<string>, c: seq<string>, b: Bucket, key: string -> Option<Bucket>)
    ensures RowsIn(a + c, b, key) == RowsIn(a, b, key) + RowsIn(c, b, key)
    decreases |c|
  {
    if c == [] {
      assert a + c == a;
    } else {
      var c' := c[..|c| - 1];
      assert (a + c)[..|a + c| - 1] == a + c';
      assert (a + c)[|a + c| - 1] == c[|c| - 1];
      RowsInAppend(a, c', b, key);
      Associative(RowsIn(a, b, key), RowsIn(c', b, key),
        if key(c[|c| - 1]) == Some(b) then [c[|c| - 1]] else []);
    }
  }

  // ------------------------------------------------------------ output order

  /** `[y for y in rows_by_year.keys() if y != 'unknown']` */
  function YearsOf(seen: seq<Bucket>): (ys: seq<int>)
    ensures forall y :: y in ys <==> Year(y) in seen
    decreases |seen|
  {
    if seen == [] then []
    else
      var ys := YearsOf(seen[..|seen| - 1]);
      assert seen == seen[..|seen| - 1] + [seen[|seen| - 1]];
      match seen[|seen| - 1]
      case Year(y) => ys + [y]
      case Unknown => ys
  }

  lemma {:induction false} YearsOfDistinct(seen: seq<Bucket>)
    requires Distinct(seen)
    ensures Distinct(YearsOf(seen))
    decreases |seen|
  {
    if seen != [] {
      var p := seen[..|seen| - 1];
      assert Distinct(p);
      YearsOfDistinct(p);
      if seen[|seen| - 1].Year? {
        assert seen[|seen| - 1] !in p;
      }
    }
  }

  function AsBuckets(ys: seq<int>): (bs: seq<Bucket>)
    ensures |bs| == |ys| && forall k :: 0 <= k < |ys| ==> bs[k] == Year(ys[k])
  {
    seq(|ys|, k requires 0 <= k < |ys| => Year(ys[k]))
  }

  /** The order the files are written in: the years ascending, then
      `unknown` when some row has no year. */
  function OutputOrder(seen: seq<Bucket>): seq<Bucket> {
    AsBuckets(Sort(YearsOf(seen))) + (if Unknown in seen then [Unknown] else [])
  }

  /** Sorting keeps the elements and, for distinct ones, distinctness. */
  lemma SortDistinct(ys: seq<int>)
    requires Distinct(ys)
    ensures Distinct(Sort(ys))
    ensures forall y :: y in Sort(ys) <==> y in ys
  {
    DistinctCounts(ys);
    DistinctCounts(Sort(ys));
    forall y ensures y in Sort(ys) <==> y in ys {
      assert y in Sort(ys) <==> y in multiset(Sort(ys));
      assert y in ys <==> y in multiset(ys);
    }
  }

  /** Every bucket is written once: years strictly ascending, `unknown`
      after all of them. */
  lemma OutputOrderFacts(seen: seq<Bucket>)
    requires Distinct(seen)
    ensures forall b :: b in OutputOrder(seen) <==> b in seen
    ensures Distinct(OutputOrder(seen))
    ensures forall i, j :: 0 <= i < j < |OutputOrder(seen)| && OutputOrder(seen)[j].Year? ==>
      OutputOrder(seen)[i].Year? && OutputOrder(seen)[i].year < OutputOrder(seen)[j].year
    ensures Unknown in seen ==> OutputOrder(seen)[|OutputOrder(seen)| - 1] == Unknown
  {
    var sorted := Sort(YearsOf(seen));
    YearsOfDistinct(seen);
    SortDistinct(YearsOf(seen));
    OutputMembers(seen, sorted);
    OutputAscending(seen, sorted);
  }

  lemma OutputMembers(seen: seq<Bucket>, sorted: seq<int>)
    requires sorted == Sort(YearsOf(seen))
    requires forall y :: y in sorted <==> y in YearsOf(seen)
    ensures forall b :: b in OutputOrder(seen) <==> b in seen
  {
    var years := AsBuckets(sorted);
    var out := OutputOrder(seen);
    assert out == years + (if Unknown in seen then [Unknown] else []);
    forall b ensures b in out <==> b in seen {
      match b
      case Unknown =>
        assert Unknown !in years;
      case Year(y) =>
        assert b in out <==> b in years;
        if b in years {
          var k :| 0 <= k < |years| && years[k] == b;
          assert sorted[k] == y;
        }
        if y in sorted {
          var k :| 0 <= k < |sorted| && sorted[k] == y;
          assert years[k] == b;
        }
    }
  }

  lemma OutputAscending(seen: seq<Bucket>, sorted: seq<int>)
    requires sorted == Sort(YearsOf(seen)) && Distinct(sorted)
    ensures Distinct(OutputOrder(seen))
    ensures forall i, j :: 0 <= i < j < |OutputOrder(seen)| && OutputOrder(seen)[j].Year? ==>
      OutputOrder(seen)[i].Year? && OutputOrder(seen)[i].year < OutputOrder(seen)[j].year
  {
    var years := AsBuckets(sorted);
    var out := OutputOrder(seen);
    assert forall k :: 0 <= k < |years| ==> out[k] == years[k];
    forall i, j | 0 <= i < j < |out| && out[j].Year?
      ensures out[i].Year? && out[i].year < out[j].year
    {
      assert j < |years|;
      assert sorted[i] <= sorted[j] && sorted[i] != sorted[j];
    }
    forall i, j | 0 <= i < j < |out| ensures out[i] != out[j] {
      if j < |years| {
        assert sorted[i] != sorted[j];
      }
    }
  }

  // ------------------------------------------------------------ the output files

  /** `str(n)` for an integer. */
  function ShowInt(n: int): string {
    if n < 0 then "-" + Show(-n) else Show(n)
  }

  /** `f"{base_name}_{year}.md"` and `f"{base_name}_unknown_dates.md"` */
  function OutputName(stem: string, b: Bucket): string {
    match b
    case Year(y) => stem + "_" + ShowInt(y) + ".md"
    case Unknown => stem + "_unknown_dates.md"
  }

  /** What one output file holds: the metadata lines and a newline when there
      are any, then the header, the separator and the bucket's rows. */
  function OutputContent(metadataLines: seq<string>, header: string, separator: string, rows: seq<string>): string {
    Join(metadataLines, "") + (if metadataLines != [] then "\n" else "") + header + separator + Join(rows, "")
  }

  /** A file written by the script. */
  datatype OutputFile = OutputFile(name: string, content: string)

  datatype SplitError = NoHeader

  /** The file written for bucket `b`. */
  function OutputFor(stem: string, metadataLines: seq<string>, header: string, separator: string,
                     rows: seq<string>, key: string -> Option<Bucket>, b: Bucket): OutputFile {
    OutputFile(OutputName(stem, b), OutputContent(metadataLines, header, separator, RowsIn(rows, b, key)))
  }

  /** OutputFor as the function from a bucket to its file. */
  function FileFor(stem: string, metadataLines: seq<string>, header: string, separator: string,
                   rows: seq<string>, key: string -> Option<Bucket>): Bucket -> OutputFile {
    b => OutputFor(stem, metadataLines, header, separator, rows, key, b)
  }

  /** The files written for the buckets of `order`, in that order. */
  function OutputsFor(stem: string, metadataLines: seq<string>, header: string, separator: string,
                      rows: seq<string>, key: string -> Option<Bucket>, order: seq<Bucket>): seq<OutputFile> {
    Map(order, FileFor(stem, metadataLines, header, separator, rows, key))
  }

  /** What split_markdown_by_year writes, as a value: one file per bucket in
      output order, or the missing-header error. When the header is the
      last line there are no rows, so no file needs the missing separator. */
  function SplitByYearOf(lines: seq<string>, stem: string, strptime: DateParser): Result<seq<OutputFile>, SplitError> {
    var m := MetadataOf(lines);
    match TableOf(lines, m.contentStart)
    case None => Err(NoHeader)
    case Some(t) => Ok(TableOutputs(lines, m.lines, t, stem, strptime))
  }

  /** The files written for the table `t`: none when its header is the last
      line, since then there are no rows; otherwise one per bucket. */
  function TableOutputs(lines: seq<string>, metadataLines: seq<string>, t: Table, stem: string,
                        strptime: DateParser): seq<OutputFile> {
    TableOutputsBy(lines, metadataLines, t, stem, RowKey(strptime))
  }

  /** The files of a table for a key function of its rows. */
  function TableOutputsBy(lines: seq<string>, metadataLines: seq<string>, t: Table, stem: string,
                          key: string -> Option<Bucket>): seq<OutputFile> {
    if t.separator.None? then []
    else OutputsFor(stem, metadataLines, t.header, t.separator.value, RowsFrom(lines, t.start + 2), key,
                    OutputOrder(BucketsSeen(RowsFrom(lines, t.start + 2), key)))
  }

  /** split_markdown_by_year, the files given as lines and the writes
      collected instead of performed. */
  method SplitMarkdownByYear(lines: seq<string>, stem: string, strptime: DateParser)
    returns (r: Result<seq<OutputFile>, SplitError>)
    ensures r == SplitByYearOf(lines, stem, strptime)
  {
    var metadataLines, contentStart := ScanMetadata(lines, IsYamlDelimiter);
    var table := FindHeader(lines, contentStart);
    if table.None? {
      return Err(NoHeader);
    }
    var outputs := WriteTable(lines, metadataLines, table.value, stem, strptime);
    return Ok(outputs);
  }

  /** The part of split_markdown_by_year after the header is found: bucket
      the rows and write one file per bucket. */
  method WriteTable(lines: seq<string>, metadataLines: seq<string>, t: Table, stem: string, strptime: DateParser)
    returns (outputs: seq<OutputFile>)
    requires t.separator.None? ==> t.start + 1 >= |lines|
    ensures outputs == TableOutputs(lines, metadataLines, t, stem, strptime)
  {
    var rowsByYear, seen := BucketRows(lines, t.start + 2, strptime);
    ghost var rows := RowsFrom(lines, t.start + 2);
    ghost var key := RowKey(strptime);
    var sortedYears := SortBuckets(rowsByYear, seen, rows, key);
    if sortedYears == [] {
      TableOutputsEmpty(lines, metadataLines, t, stem, key);
      outputs := [];
    } else {
      SeparatorPresent(lines, t, key);
      TableOutputsOrder(lines, metadataLines, t, stem, key);
      outputs := WriteOutputs(stem, metadataLines, t.header, t.separator.value, rowsByYear, sortedYears, rows, key);
    }
  }

  /** A table without buckets to write gives no files. */
  lemma TableOutputsEmpty(lines: seq<string>, metadataLines: seq<string>, t: Table, stem: string,
                          key: string -> Option<Bucket>)
    requires OutputOrder(BucketsSeen(RowsFrom(lines, t.start + 2), key)) == []
    ensures TableOutputsBy(lines, metadataLines, t, stem, key) == []
  {
  }

  /** A table with buckets to write has a separator line: without one the
      header is the last line and no rows follow. */
  lemma SeparatorPresent(lines: seq<string>, t: Table, key: string -> Option<Bucket>)
    requires t.separator.None? ==> t.start + 1 >= |lines|
    requires OutputOrder(BucketsSeen(RowsFrom(lines, t.start + 2), key)) != []
    ensures t.separator.Some?
  {
    NoRowsNoOrder(lines, t.start + 2, key);
  }

  /** With a separator line, the files of a table follow the output order. */
  lemma TableOutputsOrder(lines: seq<string>, metadataLines: seq<string>, t: Table, stem: string,
                          key: string -> Option<Bucket>)
    requires t.separator.Some?
    ensures TableOutputsBy(lines, metadataLines, t, stem, key)
      == OutputsFor(stem, metadataLines, t.header, t.separator.value, RowsFrom(lines, t.start + 2), key,
                    OutputOrder(BucketsSeen(RowsFrom(lines, t.start + 2), key)))
  {
    var files := OutputsFor(stem, metadataLines, t.header, t.separator.value, RowsFrom(lines, t.start + 2), key,
                            OutputOrder(BucketsSeen(RowsFrom(lines, t.start + 2), key)));
    assert TableOutputsBy(lines, metadataLines, t, stem, key) == if t.separator.None? then [] else files;
  }

  /** Rows that start past the end give no buckets to write. */
  lemma NoRowsNoOrder(lines: seq<string>, start: nat, key: string -> Option<Bucket>)
    ensures start > |lines| ==> OutputOrder(BucketsSeen(RowsFrom(lines, start), key)) == []
  {
    if start > |lines| {
      assert RowsFrom(lines, start) == [];
      assert YearsOf([]) == [];
    }
  }

  /** The output order of the buckets: the years ascending, then the
      unknown bucket if there is one. */
  method SortBuckets(rowsByYear: map<Bucket, seq<string>>, seen: seq<Bucket>,
                     ghost rows: seq<string>, ghost key: string -> Option<Bucket>)
    returns (sortedYears: seq<Bucket>)
    requires Bucketed(rowsByYear, seen, rows, key)
    ensures sortedYears == OutputOrder(BucketsSeen(rows, key))
    ensures seen == [] ==> sortedYears == []
    ensures forall b :: b in sortedYears ==> b in rowsByYear && rowsByYear[b] == RowsIn(rows, b, key)
  {
    SeenDistinct(rows, key);
    OutputOrderFacts(seen);
    sortedYears := AsBuckets(Sort(YearsOf(seen)));
    if Unknown in rowsByYear {
      sortedYears := sortedYears + [Unknown];
    }
  }

  /** The loop over the buckets in output order, one file each. */
  method WriteOutputs(stem: string, metadataLines: seq<string>, header: string, separator: string,
                      rowsByYear: map<Bucket, seq<string>>, sortedYears: seq<Bucket>,
                      ghost rows: seq<string>, ghost key: string -> Option<Bucket>)
    returns (outputs: seq<OutputFile>)
    requires forall b :: b in sortedYears ==> b in rowsByYear && rowsByYear[b] == RowsIn(rows, b, key)
    ensures outputs == OutputsFor(stem, metadataLines, header, separator, rows, key, sortedYears)
  {
    outputs := [];
    for k := 0 to |sortedYears|
      invariant outputs == OutputsFor(stem, metadataLines, header, separator, rows, key, sortedYears[..k])
    {
      var year := sortedYears[k];
      var bucketRows := rowsByYear[year];
      var outputFile := OutputName(stem, year);
      var content := WriteFile(metadataLines, header, separator, bucketRows);
      MapSnoc(sortedYears, k, FileFor(stem, metadataLines, header, separator, rows, key));
      outputs := outputs + [OutputFile(outputFile, content)];
    }
    assert sortedYears[..|sortedYears|] == sortedYears;
  }

  /** The writes to one output file, collected. */
  method WriteFile(metadataLines: seq<string>, header: string, separator: string, rows: seq<string>)
    returns (content: string)
    ensures content == OutputContent(metadataLines, header, separator, rows)
  {
    content := [];
    if metadataLines != [] {
      content := content + Join(metadataLines, "");
      content := content + "\n";
    }
    content := content + header;
    content := content + separator;
    ghost var front := content;
    for j := 0 to |rows|
      invariant content == front + Join(rows[..j], "")
    {
      JoinSnoc(rows[..j], rows[j]);
      PrefixExtend(rows, j);
      content := content + rows[j];
    }
    assert rows[..|rows|] == rows;
  }

  // ------------------------------------------------------------ properties of the whole

  /** The script fails exactly when no line at or after the end of the
      metadata block holds `|`, `Name` and `date`. */
  lemma NoHeaderIff(lines: seq<string>, stem: string, strptime: DateParser)
    ensures SplitByYearOf(lines, stem, strptime).Err? <==>
      forall k :: MetadataOf(lines).contentStart <= k < |lines| ==> !IsHeaderLine(lines[k])
  {
    HeaderFromFacts(lines, MetadataOf(lines).contentStart);
  }

  /** The header is the first such line. */
  lemma HeaderIsFirst(lines: seq<string>, from: nat)
    requires TableOf(lines, from).Some?
    ensures var t := TableOf(lines, from).value;
      && from <= t.start < |lines| && t.header == lines[t.start] && IsHeaderLine(t.header)
      && (forall k :: from <= k < t.start ==> !IsHeaderLine(lines[k]))
      && (t.separator.Some? <==> t.start + 1 < |lines|)
      && (t.separator.Some? ==> t.separator.value == lines[t.start + 1])
  {
    HeaderFromFacts(lines, from);
  }

  /** A kept row lands in exactly one of the written files. */
  lemma KeptRowOneFile(rows: seq<string>, key: string -> Option<Bucket>, line: string) returns (k: nat)
    requires line in rows && key(line).Some?
    ensures var order := OutputOrder(BucketsSeen(rows, key));
      && k < |order| && order[k] == key(line).value && line in RowsIn(rows, order[k], key)
      && forall j :: 0 <= j < |order| && j != k ==> line !in RowsIn(rows, order[j], key)
  {
    var b := key(line).value;
    var seen := BucketsSeen(rows, key);
    var order := OutputOrder(seen);
    ExactlyOneBucket(rows, key, line);
    SeenIff(rows, b, key);
    SeenDistinct(rows, key);
    OutputOrderFacts(seen);
    k :| 0 <= k < |order| && order[k] == b;
  }

  /** A skipped line is in no file. */
  lemma SkippedRowNoFile(rows: seq<string>, key: string -> Option<Bucket>, line: string)
    requires line in rows && key(line).None?
    ensures forall b :: line !in RowsIn(rows, b, key)
  {
    ExactlyOneBucket(rows, key, line);
  }

  /** The files of a table with a separator are, in output order, the file
      of each bucket holding that bucket's rows. */
  lemma TableFileAt(lines: seq<string>, metadataLines: seq<string>, t: Table, stem: string,
                    key: string -> Option<Bucket>, j: nat)
    requires t.separator.Some?
    requires j < |OutputOrder(BucketsSeen(RowsFrom(lines, t.start + 2), key))|
    ensures var rows := RowsFrom(lines, t.start + 2);
      var b := OutputOrder(BucketsSeen(rows, key))[j];
      && |TableOutputsBy(lines, metadataLines, t, stem, key)| == |OutputOrder(BucketsSeen(rows, key))|
      && TableOutputsBy(lines, metadataLines, t, stem, key)[j]
         == OutputFile(OutputName(stem, b), OutputContent(metadataLines, t.header, t.separator.value, RowsIn(rows, b, key)))
  {
  }

  /** `f` is the file of bucket `b`, and `line` is not among its rows. */
  predicate WrittenWithout(f: OutputFile, stem: string, metadataLines: seq<string>, header: string, separator: string,
                           rows: seq<string>, key: string -> Option<Bucket>, b: Bucket, line: string)
  {
    f == OutputFor(stem, metadataLines, header, separator, rows, key, b) && line !in RowsIn(rows, b, key)
  }

  /** A kept row is among the rows of exactly one written file, the one for
      its bucket; every other file is written for another bucket, from rows
      without it. */
  /** The files for an order of buckets, one by one. */
  lemma OutputsForAt(stem: string, metadataLines: seq<string>, header: string, separator: string,
                     rows: seq<string>, key: string -> Option<Bucket>, order: seq<Bucket>)
    ensures |OutputsFor(stem, metadataLines, header, separator, rows, key, order)| == |order|
    ensures forall j :: 0 <= j < |order| ==>
      OutputsFor(stem, metadataLines, header, separator, rows, key, order)[j]
        == OutputFor(stem, metadataLines, header, separator, rows, key, order[j])
  {
  }

  lemma KeptRowAmongFiles(stem: string, metadataLines: seq<string>, header: string, separator: string,
                          rows: seq<string>, key: string -> Option<Bucket>, line: string) returns (k: nat)
    requires line in rows && key(line).Some?
    ensures var order := OutputOrder(BucketsSeen(rows, key));
      var files := OutputsFor(stem, metadataLines, header, separator, rows, key, order);
      && |files| == |order| && k < |order|
      && files[k] == OutputFor(stem, metadataLines, header, separator, rows, key, key(line).value)
      && line in RowsIn(rows, key(line).value, key)
      && forall j :: 0 <= j < |order| && j != k ==>
           WrittenWithout(files[j], stem, metadataLines, header, separator, rows, key, order[j], line) && order[j] != key(line).value
  {
    OutputsForAt(stem, metadataLines, header, separator, rows, key, OutputOrder(BucketsSeen(rows, key)));
    k := KeptRowOneFile(rows, key, line);
    ExactlyOneBucket(rows, key, line);
  }

  /** A skipped line is written to no file. */
  lemma SkippedRowAmongFiles(stem: string, metadataLines: seq<string>, header: string, separator: string,
                             rows: seq<string>, key: string -> Option<Bucket>, line: string)
    requires line in rows && key(line).None?
    ensures var order := OutputOrder(BucketsSeen(rows, key));
      var files := OutputsFor(stem, metadataLines, header, separator, rows, key, order);
      && |files| == |order|
      && forall j :: 0 <= j < |order| ==> WrittenWithout(files[j], stem, metadataLines, header, separator, rows, key, order[j], line)
  {
    OutputsForAt(stem, metadataLines, header, separator, rows, key, OutputOrder(BucketsSeen(rows, key)));
    SkippedRowNoFile(rows, key, line);
  }

  /** A kept row of a table is among the rows of exactly one of the files
      the script writes for it. */
  lemma KeptRowInOneFile(lines: seq<string>, metadataLines: seq<string>, t: Table, stem: string,
                         key: string -> Option<Bucket>, line: string) returns (k: nat)
    requires t.separator.Some?
    requires line in RowsFrom(lines, t.start + 2) && key(line).Some?
    ensures var rows := RowsFrom(lines, t.start + 2);
      var order := OutputOrder(BucketsSeen(rows, key));
      var files := TableOutputsBy(lines, metadataLines, t, stem, key);
      && |files| == |order| && k < |order|
      && files[k] == OutputFor(stem, metadataLines, t.header, t.separator.value, rows, key, key(line).value)
      && line in RowsIn(rows, key(line).value, key)
      && forall j :: 0 <= j < |order| && j != k ==>
           WrittenWithout(files[j], stem, metadataLines, t.header, t.separator.value, rows, key, order[j], line)
           && order[j] != key(line).value
  {
    TableOutputsOrder(lines, metadataLines, t, stem, key);
    k := KeptRowAmongFiles(stem, metadataLines, t.header, t.separator.value, RowsFrom(lines, t.start + 2), key, line);
  }

  /** A skipped line of a table is in none of the files the script writes
      for it. */
  lemma SkippedRowInNoFile(lines: seq<string>, metadataLines: seq<string>, t: Table, stem: string,
                           key: string -> Option<Bucket>, line: string)
    requires t.separator.Some?
    requires line in RowsFrom(lines, t.start + 2) && key(line).None?
    ensures var rows := RowsFrom(lines, t.start + 2);
      var order := OutputOrder(BucketsSeen(rows, key));
      var files := TableOutputsBy(lines, metadataLines, t, stem, key);
      && |files| == |order|
      && forall j :: 0 <= j < |order| ==> WrittenWithout(files[j], stem, metadataLines, t.header, t.separator.value, rows, key, order[j], line)
  {
    TableOutputsOrder(lines, metadataLines, t, stem, key);
    SkippedRowAmongFiles(stem, metadataLines, t.header, t.separator.value, RowsFrom(lines, t.start + 2), key, line);
  }
}
