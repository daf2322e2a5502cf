/** Model of reverse_table.py: reverse the rows of every Markdown table block
    of a text, either keeping the header and separator in place or reversing
    everything and moving a detected separator back to the second line. */
module ReverseTable {
  import opened Wrappers
  import opened Lists
  import opened PyStr

  /** A line the scanner counts as part of a table: one holding a pipe. */
  predicate IsTableLine(line: string) {
    '|' in line
  }

  /** The scanner's test for a table line: a pipe on a line that is not blank. */
  predicate ScansAsTableLine(line: string) {
    '|' in line && Strip(line) != []
  }

  /** The scanner's test is exactly a pipe: a pipe is not whitespace, so a
      line holding one is never blank. */
  lemma TableLineIff(line: string)
    ensures ScansAsTableLine(line) <==> IsTableLine(line)
  {
    StripFacts(line);
    if '|' in line {
      var i :| 0 <= i < |line| && line[i] == '|';
      assert !IsSpace(line[i]);
    }
  }

  /** One of the four three-character patterns process_table takes for the
      mark of a separator line. */
  predicate IsMarker(w: string) {
    w == "---" || w == ":-:" || w == ":--" || w == "--:"
  }

  /** A line process_table takes for the separator when the header is not
      kept: one holding a marker pattern somewhere. */
  predicate IsMarkerLine(line: string)
    decreases |line|
  {
    || (|line| >= 3 && IsMarker(line[..3]))
    || (line != [] && IsMarkerLine(line[1..]))
  }

  /** A marker pattern starts at index `j` of `line`. */
  predicate MarkerAt(line: string, j: int) {
    0 <= j && j + 3 <= |line| && IsMarker(line[j..j + 3])
  }

  lemma {:induction false} MarkerLineAt(line: string)
    ensures IsMarkerLine(line) <==> exists j :: MarkerAt(line, j)
    decreases |line|
  {
    if line != [] {
      MarkerLineAt(line[1..]);
      if IsMarkerLine(line[1..]) {
        var j :| MarkerAt(line[1..], j);
        assert line[j + 1..j + 4] == line[1..][j..j + 3];
        assert MarkerAt(line, j + 1);
      }
      if |line| >= 3 && IsMarker(line[..3]) {
        assert MarkerAt(line, 0);
      }
      forall j | 1 <= j && MarkerAt(line, j)
        ensures MarkerAt(line[1..], j - 1)
      {
        assert line[1..][j - 1..j + 2] == line[j..j + 3];
      }
    }
  }

  lemma ContainsAt(s: string, pat: string)
    ensures Contains(s, pat) <==> exists j :: OccursAt(s, pat, j)
  {
  }

  /** The source's test, `'---' in line or ':-:' in line or ':--' in line or
      '--:' in line`, is IsMarkerLine. */
  lemma MarkerLineIff(line: string)
    ensures (Contains(line, "---") || Contains(line, ":-:") || Contains(line, ":--") || Contains(line, "--:"))
      <==> IsMarkerLine(line)
  {
    MarkerLineAt(line);
    ContainsAt(line, "---");
    ContainsAt(line, ":-:");
    ContainsAt(line, ":--");
    ContainsAt(line, "--:");
  }

  /** The index of the first marker line at or after `from`. */
  function FirstMarker(rows: seq<string>, from: nat): (r: Option<nat>)
    ensures r.Some? ==> from <= r.value < |rows| && IsMarkerLine(rows[r.value])
    ensures r.Some? ==> forall k :: from <= k < r.value ==> !IsMarkerLine(rows[k])
    ensures r.None? ==> forall k :: from <= k < |rows| ==> !IsMarkerLine(rows[k])
    decreases |rows| - from
  {
    if from >= |rows| then None
    else if IsMarkerLine(rows[from]) then Some(from)
    else FirstMarker(rows, from + 1)
  }

  /** `x = rows.pop(j); rows.insert(1, x)` */
  function MoveToSecond(rows: seq<string>, j: nat): (r: seq<string>)
    requires j < |rows| && |rows| >= 2
    ensures |r| == |rows| && r[1] == rows[j]
    ensures multiset(r) == multiset(rows)
  {
    var popped := rows[..j] + rows[j + 1..];
    assert rows == rows[..j] + [rows[j]] + rows[j + 1..];
    assert multiset(popped) + multiset{rows[j]} == multiset(rows);
    assert popped == popped[..1] + popped[1..];
    assert multiset(popped[..1] + [rows[j]] + popped[1..]) == multiset(popped) + multiset{rows[j]};
    popped[..1] + [rows[j]] + popped[1..]
  }

  /** Moving line `j > 0` to the second place shifts the lines between down by one. */
  lemma MoveToSecondShape(rows: seq<string>, j: nat)
    requires 1 <= j < |rows|
    ensures MoveToSecond(rows, j) == [rows[0], rows[j]] + rows[1..j] + rows[j + 1..]
  {
    var popped := rows[..j] + rows[j + 1..];
    AppendSlices(rows[..j], rows[j + 1..], 1);
    assert rows[..j][..1] == [rows[0]] && rows[..j][1..] == rows[1..j];
    Associative([rows[0], rows[j]], rows[1..j], rows[j + 1..]);
    assert [rows[0]] + [rows[j]] == [rows[0], rows[j]];
  }

  /** process_table as a value: what a block of table lines becomes. */
  function Rearranged(table: seq<string>, keepHeader: bool): seq<string> {
    if |table| <= 1 then table
    else if keepHeader then
      if |table| <= 2 then table else KeepHeaderRows(table)
    else if |table| <= 2 then Reversed(table)
    else SeparatorSecond(Reversed(table))
  }

  /** Header and separator in place, the data rows reversed. */
  function KeepHeaderRows(table: seq<string>): seq<string>
    requires |table| > 2
  {
    [table[0], table[1]] + Reversed(table[2..])
  }

  /** The first marker line, when there is one and it is not already second,
      moved to the second place. */
  function SeparatorSecond(all: seq<string>): seq<string>
    requires |all| > 2
  {
    match FirstMarker(all, 0)
    case Some(j) => if j != 1 then MoveToSecond(all, j) else all
    case None => all
  }

  /** process_table */
  method ProcessTable(tableLines: seq<string>, keepHeader: bool) returns (out: seq<string>)
    ensures out == Rearranged(tableLines, keepHeader)
  {
    if |tableLines| <= 1 {
      return tableLines;
    }
    if keepHeader {
      if |tableLines| <= 2 {
        return tableLines;
      }
      var header := tableLines[0];
      var separator := tableLines[1];
      var dataRows := tableLines[2..];
      dataRows := Reversed(dataRows);
      return [header, separator] + dataRows;
    } else {
      if |tableLines| <= 2 {
        var reversedLines := tableLines;
        reversedLines := Reversed(reversedLines);
        return reversedLines;
      }
      var allRows := Reversed(tableLines);
      var separatorIdx: Option<nat> := None;
      var i := 0;
      while i < |allRows|
        invariant 0 <= i <= |allRows|
        invariant FirstMarker(allRows, 0) == FirstMarker(allRows, i)
      {
        var line := allRows[i];
        MarkerLineIff(line);
        if Contains(line, "---") || Contains(line, ":-:") || Contains(line, ":--") || Contains(line, "--:") {
          separatorIdx := Some(i);
          break;
        }
        i := i + 1;
      }
      assert separatorIdx == FirstMarker(allRows, 0);
      if separatorIdx.Some? && separatorIdx.value != 1 {
        var j := separatorIdx.value;
        var separator := allRows[j];
        allRows := allRows[..j] + allRows[j + 1..];
        allRows := allRows[..1] + [separator] + allRows[1..];
      }
      return allRows;
    }
  }

  // ------------------------------------------------------------ properties of process_table

  /** process_table only rearranges its block: same length, same lines. */
  lemma RearrangedPermutes(table: seq<string>, keepHeader: bool)
    ensures |Rearranged(table, keepHeader)| == |table|
    ensures multiset(Rearranged(table, keepHeader)) == multiset(table)
  {
    if |table| > 2 {
      if keepHeader {
        KeepHeaderPermutes(table);
      } else {
        ReversedMultiset(table);
        SeparatorSecondPermutes(Reversed(table));
      }
    } else if |table| == 2 && !keepHeader {
      ReversedMultiset(table);
    }
  }

  lemma KeepHeaderPermutes(table: seq<string>)
    requires |table| > 2
    ensures |KeepHeaderRows(table)| == |table|
    ensures multiset(KeepHeaderRows(table)) == multiset(table)
  {
    ReversedMultiset(table[2..]);
    assert table == [table[0], table[1]] + table[2..];
  }

  lemma SeparatorSecondPermutes(all: seq<string>)
    requires |all| > 2
    ensures |SeparatorSecond(all)| == |all|
    ensures multiset(SeparatorSecond(all)) == multiset(all)
  {
  }

  /** Small blocks: one line is kept; with the header kept, two lines are kept;
      without it, two lines are swapped. */
  lemma SmallBlocks(table: seq<string>, keepHeader: bool)
    ensures |table| <= 1 ==> Rearranged(table, keepHeader) == table
    ensures keepHeader && |table| <= 2 ==> Rearranged(table, keepHeader) == table
    ensures !keepHeader && |table| == 2 ==> Rearranged(table, keepHeader) == [table[1], table[0]]
  {
  }

  /** Keeping the header: header and separator stay, the data rows are reversed. */
  lemma KeepHeaderShape(table: seq<string>)
    requires |table| > 2
    ensures var out := Rearranged(table, true);
      && out[..2] == table[..2]
      && forall k :: 2 <= k < |table| ==> out[k] == table[|table| + 1 - k]
  {
  }

  /** Keeping the header, reversing twice gives the block back. */
  lemma KeepHeaderInvolution(table: seq<string>)
    ensures Rearranged(Rearranged(table, true), true) == table
  {
    if |table| > 2 {
      var out := Rearranged(table, true);
      assert out[2..] == Reversed(table[2..]);
      ReversedTwice(table[2..]);
      assert table == [table[0], table[1]] + table[2..];
    }
  }

  /** Without the header: on a block of more than two lines, the second line
      of the result is the last marker line of the block, or the result is
      the plain reversal when the block has no marker line. */
  lemma NoHeaderSeparator(table: seq<string>)
    requires |table| > 2
    ensures var out := Rearranged(table, false);
      (exists k :: 0 <= k < |table| && IsMarkerLine(table[k])) ==> IsMarkerLine(out[1])
    ensures (forall k :: 0 <= k < |table| ==> !IsMarkerLine(table[k])) ==> Rearranged(table, false) == Reversed(table)
  {
    var all := Reversed(table);
    if exists k :: 0 <= k < |table| && IsMarkerLine(table[k]) {
      var k :| 0 <= k < |table| && IsMarkerLine(table[k]);
      assert all[|table| - 1 - k] == table[k];
    } else {
      assert forall k :: 0 <= k < |all| ==> all[k] == table[|table| - 1 - k];
    }
  }

  /** The worked case: header, separator and two rows, only the separator a
      marker line, come out as last row, separator, first row, header. */
  lemma NoHeaderExample(h: string, s: string, r1: string, r2: string)
    requires IsMarkerLine(s) && !IsMarkerLine(r1) && !IsMarkerLine(r2)
    ensures Rearranged([h, s, r1, r2], false) == [r2, s, r1, h]
  {
    var all := Reversed([h, s, r1, r2]);
    assert all[0] == r2 && all[1] == r1 && all[2] == s && all[3] == h;
    assert FirstMarker(all, 2) == Some(2);
    assert FirstMarker(all, 1) == Some(2);
    assert FirstMarker(all, 0) == Some(2);
    MoveToSecondShape(all, 2);
    assert all[1..2] == [r1] && all[3..] == [h];
  }

  // ------------------------------------------------------------ the scanner

  /** The length of the run of table lines at the front of `lines`. */
  function RunLength(lines: seq<string>): (n: nat)
    ensures n <= |lines|
    decreases |lines|
  {
    if lines == [] || !IsTableLine(lines[0]) then 0 else 1 + RunLength(lines[1..])
  }

  /** The run is maximal: all table lines, followed by none. */
  lemma {:induction false} RunLengthFacts(lines: seq<string>)
    ensures forall k :: 0 <= k < RunLength(lines) ==> IsTableLine(lines[k])
    ensures RunLength(lines) < |lines| ==> !IsTableLine(lines[RunLength(lines)])
    decreases |lines|
  {
    if lines != [] && IsTableLine(lines[0]) {
      RunLengthFacts(lines[1..]);
    }
  }

  /** reverse_markdown_table on lines: every maximal run of table lines is
      replaced by its rearrangement, every other line kept. */
  function ReverseTables(lines: seq<string>, keepHeader: bool): seq<string>
    decreases |lines|
  {
    if lines == [] then []
    else if !IsTableLine(lines[0]) then [lines[0]] + ReverseTables(lines[1..], keepHeader)
    else
      var n := RunLength(lines);
      Rearranged(lines[..n], keepHeader) + ReverseTables(lines[n..], keepHeader)
  }

  /** The value of reverse_markdown_table. */
  function ReversedDocument(content: string, keepHeader: bool): string {
    Join(ReverseTables(Split(content, "\n"), keepHeader), "\n")
  }

  /** reverse_markdown_table */
  method ReverseMarkdownTable(content: string, keepHeader: bool) returns (out: string)
    ensures out == ReversedDocument(content, keepHeader)
  {
    var lines := Split(content, "\n");
    var result: seq<string> := [];
    var inTable := false;
    var tableLines: seq<string> := [];
    ghost var start: nat := 0;
    var i := 0;
    while i < |lines|
      invariant Scanned(lines, keepHeader, i, start, inTable, tableLines, result)
    {
      start, inTable, tableLines, result := ScanLine(lines, keepHeader, i, start, inTable, tableLines, result);
      i := i + 1;
    }
    if inTable && tableLines != [] {
      result := FlushTable(lines, start, i, tableLines, result, keepHeader);
    } else {
      FinishStep(lines, keepHeader, start, inTable, tableLines, result);
    }
    return Join(result, "\n");
  }

  /** One turn of the loop of reverse_markdown_table: line `i` extends or
      opens the table run, or closes the open run and is copied. */
  method ScanLine(lines: seq<string>, keepHeader: bool, i: nat, ghost start: nat, inTable: bool,
                  tableLines: seq<string>, result: seq<string>)
    returns (ghost start': nat, inTable': bool, tableLines': seq<string>, result': seq<string>)
    requires i < |lines| && Scanned(lines, keepHeader, i, start, inTable, tableLines, result)
    ensures Scanned(lines, keepHeader, i + 1, start', inTable', tableLines', result')
  {
    var line := lines[i];
    TableLineIff(line);
    if ScansAsTableLine(line) {
      if !inTable {
        tableLines' := [line];
      } else {
        tableLines' := tableLines + [line];
      }
      TableLineStep(lines, keepHeader, i, start, inTable, tableLines, result, tableLines');
      start', inTable', result' := start, true, result;
    } else {
      result' := CopyLine(lines, keepHeader, i, start, inTable, tableLines, result);
      start', inTable', tableLines' := i + 1, false, [];
    }
  }

  /** A line that is no table line closes the open run, if any, and is
      copied. */
  method CopyLine(lines: seq<string>, keepHeader: bool, i: nat, ghost start: nat, inTable: bool,
                  tableLines: seq<string>, result: seq<string>) returns (result': seq<string>)
    requires i < |lines| && !IsTableLine(lines[i])
    requires Scanned(lines, keepHeader, i, start, inTable, tableLines, result)
    ensures Scanned(lines, keepHeader, i + 1, i + 1, false, [], result')
  {
    if inTable {
      var r := FlushTable(lines, start, i, tableLines, result, keepHeader);
      CloseStep(lines, keepHeader, i, r);
      result' := r + [lines[i]];
    } else {
      PassStep(lines, keepHeader, i, start, tableLines, result);
      result' := result + [lines[i]];
    }
  }

  /** The output of the table run `lines[start..i]`: the output up to the
      line after it, or of the whole text when the run is last. */
  method FlushTable(lines: seq<string>, ghost start: nat, i: nat, tableLines: seq<string>,
                    result: seq<string>, keepHeader: bool) returns (r: seq<string>)
    requires Scanned(lines, keepHeader, i, start, true, tableLines, result)
    requires i < |lines| ==> !IsTableLine(lines[i])
    ensures i < |lines| ==> r + [lines[i]] == ReverseTables(lines[..i + 1], keepHeader)
    ensures i == |lines| ==> r == ReverseTables(lines, keepHeader)
  {
    var processedTable := ProcessTable(tableLines, keepHeader);
    r := result + processedTable;
    if i < |lines| {
      ClosedRun(lines, start, i, keepHeader);
    } else {
      assert lines[start..] == tableLines;
      FinalRun(lines, start, keepHeader);
    }
  }

  /** The state of the scan after the first `i` lines: `result` is the output
      for the lines before `start`, and `tableLines` is the run of table lines
      from `start` on, which is open exactly when it is not empty. */
  ghost predicate Scanned(lines: seq<string>, keepHeader: bool, i: nat, start: nat, inTable: bool,
                          tableLines: seq<string>, result: seq<string>) {
    && start <= i <= |lines|
    && (inTable <==> start < i)
    && tableLines == lines[start..i]
    && AllTableLines(tableLines)
    && CutBefore(lines, start)
    && result == ReverseTables(lines[..start], keepHeader)
  }

  /** A table line opens a run or extends the open one. */
  lemma TableLineStep(lines: seq<string>, keepHeader: bool, i: nat, start: nat, inTable: bool,
                      tableLines: seq<string>, result: seq<string>, tableLines': seq<string>)
    requires i < |lines| && IsTableLine(lines[i])
    requires Scanned(lines, keepHeader, i, start, inTable, tableLines, result)
    requires tableLines' == if inTable then tableLines + [lines[i]] else [lines[i]]
    ensures Scanned(lines, keepHeader, i + 1, start, true, tableLines', result)
  {
    if inTable {
      SliceExtend(lines, start, i);
    }
  }

  /** A line that is no table line, after the run it closes, is copied. */
  lemma CloseStep(lines: seq<string>, keepHeader: bool, i: nat, r: seq<string>)
    requires i < |lines| && !IsTableLine(lines[i])
    requires r + [lines[i]] == ReverseTables(lines[..i + 1], keepHeader)
    ensures Scanned(lines, keepHeader, i + 1, i + 1, false, [], r + [lines[i]])
  {
  }

  /** A line that is no table line, outside a run, is copied. */
  lemma PassStep(lines: seq<string>, keepHeader: bool, i: nat, start: nat,
                 tableLines: seq<string>, result: seq<string>)
    requires i < |lines| && !IsTableLine(lines[i])
    requires Scanned(lines, keepHeader, i, start, false, tableLines, result)
    ensures Scanned(lines, keepHeader, i + 1, i + 1, false, [], result + [lines[i]])
  {
    PassLine(lines, i, keepHeader);
  }

  /** At the end of the text with no open run, the output is complete. */
  lemma FinishStep(lines: seq<string>, keepHeader: bool, start: nat, inTable: bool,
                   tableLines: seq<string>, result: seq<string>)
    requires Scanned(lines, keepHeader, |lines|, start, inTable, tableLines, result)
    requires !(inTable && tableLines != [])
    ensures result == ReverseTables(lines, keepHeader)
  {
    assert lines[..start] == lines;
  }

  predicate AllTableLines(lines: seq<string>) {
    forall k :: 0 <= k < |lines| ==> IsTableLine(lines[k])
  }

  /** Position `i` starts the text or follows a line that is no table line. */
  predicate CutBefore(lines: seq<string>, i: nat)
    requires i <= |lines|
  {
    i == 0 || !IsTableLine(lines[i - 1])
  }

  // ------------------------------------------------------------ scanner lemmas

  /** A block of table lines followed by a non-table line (or by nothing) is
      one run. */
  lemma {:induction false} RunLengthOf(t: seq<string>, rest: seq<string>)
    requires AllTableLines(t)
    requires rest == [] || !IsTableLine(rest[0])
    ensures RunLength(t + rest) == |t|
    decreases |t|
  {
    if t == [] {
      assert t + rest == rest;
    } else {
      assert (t + rest)[1..] == t[1..] + rest;
      RunLengthOf(t[1..], rest);
    }
  }

  /** A run never crosses a non-table line. */
  lemma {:induction false} RunLengthStops(a: seq<string>, b: seq<string>)
    requires a != [] && !IsTableLine(a[|a| - 1])
    ensures RunLength(a + b) == RunLength(a) < |a|
    decreases |a|
  {
    if IsTableLine(a[0]) {
      assert |a| > 1;
      assert (a + b)[1..] == a[1..] + b;
      RunLengthStops(a[1..], b);
    }
  }

  /** The scan restarts cleanly after a non-table line. */
  lemma {:induction false} ReverseTablesCut(a: seq<string>, b: seq<string>, keepHeader: bool)
    requires a == [] || !IsTableLine(a[|a| - 1])
    ensures ReverseTables(a + b, keepHeader) == ReverseTables(a, keepHeader) + ReverseTables(b, keepHeader)
    decreases |a|, 1
  {
    if a == [] {
      assert a + b == b;
    } else if IsTableLine(a[0]) {
      CutBehindRun(a, b, keepHeader);
    } else {
      CutBehindLine(a, b, keepHeader);
    }
  }

  /** ReverseTablesCut when `a` starts with a run of table lines. */
  lemma {:induction false} CutBehindRun(a: seq<string>, b: seq<string>, keepHeader: bool)
    requires a != [] && IsTableLine(a[0]) && !IsTableLine(a[|a| - 1])
    ensures ReverseTables(a + b, keepHeader) == ReverseTables(a, keepHeader) + ReverseTables(b, keepHeader)
    decreases |a|, 0
  {
    var n := RunLength(a);
    RunLengthStops(a, b);
    AppendSlices(a, b, n);
    ReverseTablesCut(a[n..], b, keepHeader);
    RunFirst(a, keepHeader);
    RunFirst(a + b, keepHeader);
    Associative(Rearranged(a[..n], keepHeader), ReverseTables(a[n..], keepHeader), ReverseTables(b, keepHeader));
  }

  /** The output of text starting with a table line: its run rearranged,
      then the output of the rest. */
  lemma RunFirst(s: seq<string>, keepHeader: bool)
    requires s != [] && IsTableLine(s[0])
    ensures ReverseTables(s, keepHeader)
      == Rearranged(s[..RunLength(s)], keepHeader) + ReverseTables(s[RunLength(s)..], keepHeader)
  {
  }

  /** ReverseTablesCut when `a` starts with a line that is copied. */
  lemma {:induction false} CutBehindLine(a: seq<string>, b: seq<string>, keepHeader: bool)
    requires a != [] && !IsTableLine(a[0]) && !IsTableLine(a[|a| - 1])
    ensures ReverseTables(a + b, keepHeader) == ReverseTables(a, keepHeader) + ReverseTables(b, keepHeader)
    decreases |a|, 0
  {
    AppendSlices(a, b, 1);
    ReverseTablesCut(a[1..], b, keepHeader);
    Associative([a[0]], ReverseTables(a[1..], keepHeader), ReverseTables(b, keepHeader));
  }

  /** A whole run at the front is rearranged as one block. */
  lemma ReverseTablesRun(t: seq<string>, rest: seq<string>, keepHeader: bool)
    requires t != [] && AllTableLines(t)
    requires rest == [] || !IsTableLine(rest[0])
    ensures ReverseTables(t + rest, keepHeader) == Rearranged(t, keepHeader) + ReverseTables(rest, keepHeader)
  {
    RunLengthOf(t, rest);
    AppendSlices(t, rest, |t|);
    assert t[..|t|] == t && t[|t|..] == [];
  }

  /** A run closed by the non-table line `lines[i]`. */
  lemma ClosedRun(lines: seq<string>, start: nat, i: nat, keepHeader: bool)
    requires start < i < |lines| && CutBefore(lines, start)
    requires AllTableLines(lines[start..i]) && !IsTableLine(lines[i])
    ensures ReverseTables(lines[..start], keepHeader) + Rearranged(lines[start..i], keepHeader) + [lines[i]]
      == ReverseTables(lines[..i + 1], keepHeader)
  {
    var x := lines[i];
    var run := lines[start..i];
    PrefixSlice(lines, start, i + 1);
    SliceExtend(lines, start, i);
    assert lines[..i + 1] == lines[..start] + (run + [x]);
    ReverseTablesCut(lines[..start], run + [x], keepHeader);
    ReverseTablesRun(run, [x], keepHeader);
    assert ReverseTables([x], keepHeader) == [x] by {
      assert [x][1..] == [];
    }
    Associative(ReverseTables(lines[..start], keepHeader), Rearranged(run, keepHeader), [x]);
  }

  /** A non-table line outside a run is copied. */
  lemma PassLine(lines: seq<string>, i: nat, keepHeader: bool)
    requires i < |lines| && CutBefore(lines, i) && !IsTableLine(lines[i])
    ensures ReverseTables(lines[..i], keepHeader) + [lines[i]] == ReverseTables(lines[..i + 1], keepHeader)
  {
    PrefixExtend(lines, i);
    ReverseTablesCut(lines[..i], [lines[i]], keepHeader);
    assert ReverseTables([lines[i]], keepHeader) == [lines[i]] by {
      assert [lines[i]][1..] == [];
    }
  }

  /** A run that reaches the end of the text. */
  lemma FinalRun(lines: seq<string>, start: nat, keepHeader: bool)
    requires start < |lines| && CutBefore(lines, start) && AllTableLines(lines[start..])
    ensures ReverseTables(lines[..start], keepHeader) + Rearranged(lines[start..], keepHeader)
      == ReverseTables(lines, keepHeader)
  {
    PrefixRest(lines, start);
    ReverseTablesCut(lines[..start], lines[start..], keepHeader);
    ReverseTablesRun(lines[start..], [], keepHeader);
    assert lines[start..] + [] == lines[start..];
  }

  // ------------------------------------------------------------ properties of reverse_markdown_table

  /** Lines with the same multiset are all table lines together. */
  lemma TableLinesPermuted(a: seq<string>, b: seq<string>)
    requires multiset(a) == multiset(b) && AllTableLines(a)
    ensures AllTableLines(b)
  {
    forall k | 0 <= k < |b| ensures IsTableLine(b[k]) {
      assert b[k] in multiset(a);
      var m :| 0 <= m < |a| && a[m] == b[k];
    }
  }

  /** The rewrite keeps the number of lines and the lines themselves; a line
      that is not a table line stays at its index, and table lines only trade
      places with table lines. */
  lemma {:induction false} ReverseTablesInPlace(lines: seq<string>, keepHeader: bool)
    ensures InPlace(lines, ReverseTables(lines, keepHeader))
    decreases |lines|
  {
    if lines != [] {
      if IsTableLine(lines[0]) {
        var n := RunLength(lines);
        ReverseTablesInPlace(lines[n..], keepHeader);
        RunInPlace(lines, keepHeader);
        InPlaceConcat(lines[..n], Rearranged(lines[..n], keepHeader), lines[n..], ReverseTables(lines[n..], keepHeader));
        PrefixRest(lines, n);
      } else {
        ReverseTablesInPlace(lines[1..], keepHeader);
        InPlaceConcat([lines[0]], [lines[0]], lines[1..], ReverseTables(lines[1..], keepHeader));
        assert lines == [lines[0]] + lines[1..];
      }
    }
  }

  /** `out` is `lines` with the table lines moved among the positions of
      table lines: same length and lines, table lines where table lines were,
      and every other line where it was. */
  predicate InPlace(lines: seq<string>, out: seq<string>) {
    && |out| == |lines|
    && multiset(out) == multiset(lines)
    && (forall k :: 0 <= k < |lines| ==> (IsTableLine(out[k]) <==> IsTableLine(lines[k])))
    && (forall k :: 0 <= k < |lines| && !IsTableLine(lines[k]) ==> out[k] == lines[k])
  }

  lemma InPlaceConcat(a: seq<string>, a': seq<string>, b: seq<string>, b': seq<string>)
    requires InPlace(a, a') && InPlace(b, b')
    ensures InPlace(a + b, a' + b')
  {
    forall k | |a| <= k < |a| + |b| ensures (a' + b')[k] == b'[k - |a|] && (a + b)[k] == b[k - |a|] {
    }
  }

  /** A table run is rearranged in place. */
  lemma RunInPlace(lines: seq<string>, keepHeader: bool)
    requires lines != [] && IsTableLine(lines[0])
    ensures InPlace(lines[..RunLength(lines)], Rearranged(lines[..RunLength(lines)], keepHeader))
  {
    var run := lines[..RunLength(lines)];
    RunLengthFacts(lines);
    RearrangedPermutes(run, keepHeader);
    TableLinesPermuted(run, Rearranged(run, keepHeader));
  }

  /** A text without table lines comes out unchanged. */
  lemma NoTableUnchanged(lines: seq<string>, keepHeader: bool)
    requires forall k :: 0 <= k < |lines| ==> !IsTableLine(lines[k])
    ensures ReverseTables(lines, keepHeader) == lines
  {
    ReverseTablesInPlace(lines, keepHeader);
  }

  /** A text none of whose lines is a table line comes out unchanged. */
  lemma NoTableTextUnchanged(content: string, keepHeader: bool)
    requires forall k :: 0 <= k < |Split(content, "\n")| ==> !IsTableLine(Split(content, "\n")[k])
    ensures ReversedDocument(content, keepHeader) == content
  {
    NoTableUnchanged(Split(content, "\n"), keepHeader);
    JoinSplit(content, "\n");
  }

  /** No output line holds a newline, so splitting the joined output gives the
      rewritten lines back: the text keeps its line count. */
  lemma ReversedDocumentLines(content: string, keepHeader: bool)
    ensures Split(ReversedDocument(content, keepHeader), "\n") == ReverseTables(Split(content, "\n"), keepHeader)
    ensures |Split(ReversedDocument(content, keepHeader), "\n")| == |Split(content, "\n")|
  {
    var lines := Split(content, "\n");
    var out := ReverseTables(lines, keepHeader);
    ReverseTablesInPlace(lines, keepHeader);
    SplitPartsFree(content, '\n');
    forall k | 0 <= k < |out| ensures '\n' !in out[k] {
      assert out[k] in multiset(lines);
      var m :| 0 <= m < |lines| && lines[m] == out[k];
    }
    SplitJoin(out, '\n');
  }

  /** With the header kept, the rewrite undoes itself on lines... */
  lemma {:induction false} KeepHeaderTwice(lines: seq<string>)
    ensures ReverseTables(ReverseTables(lines, true), true) == lines
    decreases |lines|
  {
    if lines != [] {
      if IsTableLine(lines[0]) {
        var n := RunLength(lines);
        KeepHeaderTwice(lines[n..]);
        KeepHeaderTwiceRun(lines, n);
      } else {
        KeepHeaderTwice(lines[1..]);
        KeepHeaderTwiceLine(lines);
      }
    }
  }

  /** The step of KeepHeaderTwice for a text that starts with a table. */
  lemma KeepHeaderTwiceRun(lines: seq<string>, n: nat)
    requires lines != [] && IsTableLine(lines[0]) && n == RunLength(lines)
    requires ReverseTables(ReverseTables(lines[n..], true), true) == lines[n..]
    ensures ReverseTables(ReverseTables(lines, true), true) == lines
  {
    var rest := lines[n..];
    var once := ReverseTables(rest, true);
    var block := Rearranged(lines[..n], true);
    ReverseTablesInPlace(rest, true);
    RunLengthFacts(lines);
    RearrangedPermutes(lines[..n], true);
    TableLinesPermuted(lines[..n], block);
    assert once == [] || !IsTableLine(once[0]);
    ReverseTablesRun(block, once, true);
    KeepHeaderInvolution(lines[..n]);
    PrefixRest(lines, n);
  }

  /** The step of KeepHeaderTwice for a text that starts with another line. */
  lemma KeepHeaderTwiceLine(lines: seq<string>)
    requires lines != [] && !IsTableLine(lines[0])
    requires ReverseTables(ReverseTables(lines[1..], true), true) == lines[1..]
    ensures ReverseTables(ReverseTables(lines, true), true) == lines
  {
    var once := ReverseTables(lines[1..], true);
    assert ([lines[0]] + once)[1..] == once;
    assert lines == [lines[0]] + lines[1..];
  }

  /** ... and so on the whole text. */
  lemma KeepHeaderDocumentTwice(content: string)
    ensures ReversedDocument(ReversedDocument(content, true), true) == content
  {
    ReversedDocumentLines(content, true);
    KeepHeaderTwice(Split(content, "\n"));
    JoinSplit(content, "\n");
  }
}
