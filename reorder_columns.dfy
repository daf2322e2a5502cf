/** Model of reorder_columns.py: permute the columns of every pipe table in a
    Markdown file, leaving an optional frontmatter block and every other line
    as they are. Lines are those of `readlines()`, each with its own line end. */
module ReorderColumns {
  import opened Wrappers
  import opened Lists
  import opened PyStr

  /** Why the script stops without writing anything. */
  datatype Error =
    | InvalidOrderToken(token: string)                // int() refused a token of the order
    | NotAPermutation                                 // sorted(order) != list(range(len(order)))
    | ColumnCountMismatch(actual: nat, expected: nat) // a row's cell count differs from len(order)
    | InvalidColumnIndex                              // reorder_columns caught an IndexError

  // ------------------------------------------------------------ frontmatter

  /** The test this script uses for both frontmatter delimiters: the stripped
      line starts with `---`. */
  predicate IsDashLine(line: string) {
    StartsWith(Strip(line), "---")
  }

  /** The index of the line that closes the frontmatter, if line 0 opens one
      and a later line closes it. */
  function FrontmatterEnd(lines: seq<string>): Option<nat> {
    if lines == [] || !IsDashLine(lines[0]) then None
    else NextDashLine(lines, 1)
  }

  /** The first dash line at or after `from`. */
  function NextDashLine(lines: seq<string>, from: nat): (r: Option<nat>)
    ensures r.Some? ==> from <= r.value < |lines| && IsDashLine(lines[r.value])
    ensures r.Some? ==> forall k :: from <= k < r.value ==> !IsDashLine(lines[k])
    ensures r.None? ==> forall k :: from <= k < |lines| ==> !IsDashLine(lines[k])
    decreases |lines| - from
  {
    if from >= |lines| then None
    else if IsDashLine(lines[from]) then Some(from)
    else NextDashLine(lines, from + 1)
  }

  /** The frontmatter block `parse_frontmatter` splits off. */
  function Frontmatter(lines: seq<string>): (fm: seq<string>)
    ensures fm <= lines
  {
    match FrontmatterEnd(lines)
    case None => []
    case Some(j) => lines[..j + 1]
  }

  /** There is a frontmatter block exactly when line 0 and some later line
      are dash lines; the block runs from line 0 to the first later dash line. */
  lemma FrontmatterShape(lines: seq<string>)
    ensures var fm := Frontmatter(lines);
      && (fm == [] <==> (lines == [] || !IsDashLine(lines[0])
                         || forall k :: 1 <= k < |lines| ==> !IsDashLine(lines[k])))
      && (fm != [] ==> |fm| >= 2 && IsDashLine(fm[0]) && IsDashLine(fm[|fm| - 1]))
      && (fm != [] ==> forall k :: 1 <= k < |fm| - 1 ==> !IsDashLine(fm[k]))
  {
  }

  lemma NextDashLineStep(lines: seq<string>, i: nat)
    requires i < |lines| && !IsDashLine(lines[i])
    ensures NextDashLine(lines, i) == NextDashLine(lines, i + 1)
  {
  }

  /** parse_frontmatter */
  method ParseFrontmatter(lines: seq<string>) returns (frontmatter: seq<string>, rest: seq<string>)
    ensures frontmatter == Frontmatter(lines)
    ensures frontmatter + rest == lines
  {
    if lines == [] || !IsDashLine(lines[0]) {
      return [], lines;
    }
    frontmatter := [lines[0]];
    var i := 1;
    while i < |lines|
      invariant 1 <= i <= |lines|
      invariant frontmatter == lines[..i]
      invariant FrontmatterEnd(lines) == NextDashLine(lines, i)
    {
      PrefixExtend(lines, i);
      frontmatter := frontmatter + [lines[i]];
      if IsDashLine(lines[i]) {
        PrefixRest(lines, i + 1);
        return frontmatter, lines[i + 1..];
      }
      NextDashLineStep(lines, i);
      i := i + 1;
    }
    return [], lines;
  }

  // ------------------------------------------------------------ separator rows

  /** `re.match(r'^:?-+:?$', p)` for a stripped cell: dashes, with an optional
      colon at either end. */
  predicate IsAlignmentCell(p: string) {
    var a := if |p| > 0 && p[0] == ':' then 1 else 0;
    var b := if |p| > a && p[|p| - 1] == ':' then |p| - 1 else |p|;
    a < b && forall i :: a <= i < b ==> p[i] == '-'
  }

  /** `parts[1:-1]` */
  function Inner<T>(parts: seq<T>): seq<T> {
    if |parts| < 2 then [] else parts[1..|parts| - 1]
  }

  /** Every non-empty cell of `cells`, stripped, is an alignment cell. */
  predicate AlignmentCells(cells: seq<string>) {
    forall k :: 0 <= k < |cells| ==> Strip(cells[k]) != [] ==> IsAlignmentCell(Strip(cells[k]))
  }

  /** is_table_separator */
  predicate IsTableSeparator(line: string) {
    var stripped := Strip(line);
    StartsWith(stripped, "|") && EndsWith(stripped, "|")
    && AlignmentCells(Inner(Split(stripped, "|")))
  }

  // ------------------------------------------------------------ table rows

  predicate IsLineEnd(c: char) {
    c == '\n' || c == '\r'
  }

  /** `line.rstrip('\n\r')` */
  function RowText(line: string): (r: string)
    ensures |r| <= |line| && r == line[..|r|]
    ensures forall i :: |r| <= i < |line| ==> IsLineEnd(line[i])
    ensures r == [] || !IsLineEnd(r[|r| - 1])
    decreases |line|
  {
    if line != [] && IsLineEnd(line[|line| - 1]) then RowText(line[..|line| - 1]) else line
  }

  /** The shape `parse_table_row` accepts: stripped, the text starts and ends
      with a pipe, and is more than the single character `|`. */
  predicate IsPipeRow(text: string) {
    var t := Strip(text);
    |t| >= 2 && t[0] == '|' && t[|t| - 1] == '|'
  }

  /** What lies between the outer pipes of a pipe row. */
  function Interior(text: string): string
    requires IsPipeRow(text)
  {
    var t := Strip(text);
    t[1..|t| - 1]
  }

  /** parse_table_row, without its second result (the line minus its line end,
      which nothing uses). */
  function ParseRow(line: string): Option<seq<string>> {
    var original := RowText(line);
    if '|' !in original then None
    else
      var stripped := Strip(original);
      if !StartsWith(stripped, "|") || !EndsWith(stripped, "|") then None
      else CellsOf(Split(original, "|"))
  }

  /** The pieces of a split row without an empty first and an empty last
      piece; no cells at all is no row. */
  function CellsOf(parts: seq<string>): Option<seq<string>> {
    var parts1 := if parts != [] && Strip(parts[0]) == [] then parts[1..] else parts;
    var parts2 := if parts1 != [] && Strip(parts1[|parts1| - 1]) == [] then parts1[..|parts1| - 1] else parts1;
    if parts2 == [] then None else Some(parts2)
  }

  /** format_table_row */
  function FormatRow(columns: seq<string>): string {
    "|" + Join(columns, "|") + "|"
  }

  /** Splitting a framed text: whatever surrounds the outer pipes becomes the
      first and the last part. */
  lemma SplitFramed(lead: string, mid: string, trail: string)
    requires '|' !in lead && '|' !in trail
    ensures Split(lead + "|" + mid + "|" + trail, "|") == [lead] + Split(mid, "|") + [trail]
  {
    var s := lead + "|" + mid + "|" + trail;
    assert s == lead + ['|'] + (mid + ['|'] + trail);
    FindAfterFree(lead, '|', mid + ['|'] + trail);
    assert s[..|lead|] == lead;
    assert s[|lead| + 1..] == mid + ['|'] + trail;
    SplitLastFree(mid, '|', trail);
  }

  /** Whitespace holds no pipe. */
  lemma SpacesHaveNoPipe(s: string)
    requires forall i :: 0 <= i < |s| ==> IsSpace(s[i])
    ensures '|' !in s
  {
  }

  /** `parse_table_row` accepts exactly the pipe rows, and their cells are the
      pieces between the outer pipes. */
  lemma ParseRowCells(line: string)
    ensures ParseRow(line).Some? <==> IsPipeRow(RowText(line))
    ensures ParseRow(line).Some? ==> ParseRow(line).value == Split(Interior(RowText(line)), "|")
  {
    if IsPipeRow(RowText(line)) {
      ParseRowFramed(line);
    } else {
      ParseRowUnframed(line);
    }
  }

  /** The text as leading whitespace, its stripped form and trailing
      whitespace, the outer parts free of pipes. */
  lemma StripFrame(o: string) returns (L: string, T: string)
    ensures o == L + Strip(o) + T && '|' !in L && '|' !in T
    ensures forall i :: 0 <= i < |L| ==> IsSpace(L[i])
    ensures forall i :: 0 <= i < |T| ==> IsSpace(T[i])
    ensures Strip(L) == [] && Strip(T) == []
  {
    var t := Strip(o);
    var lead := StripSplits(o);
    StripFacts(o);
    L, T := o[..lead], o[lead + |t|..];
    SpacesHaveNoPipe(L);
    SpacesHaveNoPipe(T);
    AllSpaceStrip(L);
    AllSpaceStrip(T);
  }

  lemma ParseRowFramed(line: string)
    requires IsPipeRow(RowText(line))
    ensures ParseRow(line) == Some(Split(Interior(RowText(line)), "|"))
  {
    var o := RowText(line);
    var L, mid, T := FramedParts(o);
    ParseRowGuarded(line);
    SplitFramed(L, mid, T);
    CellsOfFramed(L, Split(mid, "|"), T);
  }

  /** A pipe row is whitespace, a pipe, its interior, a pipe and whitespace. */
  lemma FramedParts(o: string) returns (L: string, mid: string, T: string)
    requires IsPipeRow(o)
    ensures o == L + "|" + mid + "|" + T && mid == Interior(o)
    ensures '|' !in L && '|' !in T && Strip(L) == [] && Strip(T) == []
    ensures '|' in o && StartsWith(Strip(o), "|") && EndsWith(Strip(o), "|")
  {
    var t := Strip(o);
    L, T := StripFrame(o);
    mid := Interior(o);
    assert t == "|" + mid + "|";
    assert o[|L|] == '|';
  }

  /** Past its guards, parse_table_row is the cells of the split text. */
  lemma ParseRowGuarded(line: string)
    requires '|' in RowText(line)
    requires StartsWith(Strip(RowText(line)), "|") && EndsWith(Strip(RowText(line)), "|")
    ensures ParseRow(line) == CellsOf(Split(RowText(line), "|"))
  {
  }

  lemma CellsOfFramed(L: string, cells: seq<string>, T: string)
    requires Strip(L) == [] && Strip(T) == [] && cells != []
    ensures CellsOf([L] + cells + [T]) == Some(cells)
  {
    var parts := [L] + cells + [T];
    assert parts[1..] == cells + [T];
    assert (cells + [T])[..|cells|] == cells;
  }

  lemma ParseRowUnframed(line: string)
    requires !IsPipeRow(RowText(line))
    ensures ParseRow(line).None?
  {
    var o := RowText(line);
    if '|' in o && StartsWith(Strip(o), "|") && EndsWith(Strip(o), "|") {
      var L, T := LonePipeParts(o);
      ParseRowGuarded(line);
      CellsOfLonePipe(L, T);
    }
  }

  lemma CellsOfLonePipe(L: string, T: string)
    requires Strip(L) == [] && Strip(T) == []
    ensures CellsOf([L, T]).None?
  {
  }

  /** A text that starts and ends with a pipe once stripped, but is no pipe
      row, is a single pipe in whitespace. */
  lemma LonePipeParts(o: string) returns (L: string, T: string)
    requires StartsWith(Strip(o), "|") && EndsWith(Strip(o), "|") && !IsPipeRow(o)
    ensures Split(o, "|") == [L, T] && Strip(L) == [] && Strip(T) == []
  {
    assert Strip(o) == "|";
    L, T := StripFrame(o);
    SplitLonePipe(L, T);
  }

  lemma SplitLonePipe(L: string, T: string)
    requires '|' !in L && '|' !in T
    ensures Split(L + "|" + T, "|") == [L, T]
  {
    var o := L + ['|'] + T;
    FindAfterFree(L, '|', T);
    NoCharNotFound(T, '|');
    assert o[|L| + 1..] == T;
    assert o[..|L|] == L;
    assert Split(T, "|") == [T];
  }

  /** Reformatting the cells of a row gives the row stripped of surrounding
      whitespace and of its line end. */
  lemma FormatParsed(line: string)
    requires ParseRow(line).Some?
    ensures FormatRow(ParseRow(line).value) == Strip(RowText(line))
  {
    ParseRowCells(line);
    var t := Strip(RowText(line));
    var mid := Interior(RowText(line));
    JoinSplit(mid, "|");
    assert t == "|" + mid + "|";
  }

  /** A row that already starts and ends with its pipes and has nothing but its
      line end after them comes back unchanged from parsing and formatting. */
  lemma FormatParsedExact(line: string)
    requires ParseRow(line).Some?
    requires |RowText(line)| >= 2 && RowText(line)[0] == '|' && RowText(line)[|RowText(line)| - 1] == '|'
    ensures FormatRow(ParseRow(line).value) == RowText(line)
  {
    FormatParsed(line);
    var o := RowText(line);
    StripOf([], o, []);
    assert [] + o + [] == o;
  }

  /** Trailing whitespace does not change a strip. */
  lemma StripIgnoresTrailing(x: string, tail: string)
    requires forall i :: 0 <= i < |tail| ==> IsSpace(tail[i])
    ensures Strip(x + tail) == Strip(x)
  {
    var t := Strip(x);
    var lead := StripSplits(x);
    StripFacts(x);
    StripFacts(x + tail);
    if t == [] {
      assert forall i :: 0 <= i < |x + tail| ==> IsSpace((x + tail)[i]);
    } else {
      var L, T := x[..lead], x[lead + |t|..];
      assert x + tail == L + t + (T + tail);
      StripOf(L, t, T + tail);
    }
  }

  /** A formatted row, with its line end, parses back into the same cells. */
  lemma ParseFormatted(cells: seq<string>)
    requires cells != []
    requires forall k :: 0 <= k < |cells| ==> '|' !in cells[k]
    ensures ParseRow(FormatRow(cells) + "\n") == Some(cells)
  {
    var o := FormatRow(cells);
    assert (o + "\n")[..|o|] == o;
    assert RowText(o + "\n") == o;
    StripOf([], o, []);
    assert [] + o + [] == o;
    assert Strip(o) == o;
    ParseRowCells(o + "\n");
    assert Interior(o) == Join(cells, "|");
    SplitJoin(cells, '|');
  }

  // ------------------------------------------------------------ reorder_columns

  /** A Python list index, negative ones counting from the end. */
  function PyIndex(i: int, n: nat): (k: nat)
    requires -(n as int) <= i < n
    ensures k < n
  {
    if i < 0 then i + n else i
  }

  /** reorder_columns: `[columns[i] for i in order]`, IndexError included. */
  function Reorder(columns: seq<string>, order: seq<int>): Result<seq<string>, Error> {
    if forall k :: 0 <= k < |order| ==> -(|columns| as int) <= order[k] < |columns| then
      Ok(seq(|order|, k requires 0 <= k < |order| => columns[PyIndex(order[k], |columns|)]))
    else Err(InvalidColumnIndex)
  }

  // ------------------------------------------------------------ parse_column_order

  /** `sorted(order) == list(range(len(order)))` */
  predicate IsPermutation(order: seq<int>) {
    Sort(order) == Range(|order|)
  }

  /** The order test holds exactly when every index 0..n-1 is used once. */
  lemma PermutationIff(order: seq<int>)
    ensures IsPermutation(order) <==>
      (forall k :: 0 <= k < |order| ==> 0 <= order[k] < |order|) && Distinct(order)
  {
    var n := |order|;
    var s := Sort(order);
    RangeDistinct(n);
    if IsPermutation(order) {
      assert multiset(order) == multiset(Range(n));
      forall k | 0 <= k < n ensures 0 <= order[k] < n {
        assert order[k] in multiset(Range(n));
      }
      DistinctCounts(Range(n));
      DistinctCounts(order);
    }
    if (forall k :: 0 <= k < n ==> 0 <= order[k] < n) && Distinct(order) {
      DistinctCounts(order);
      DistinctCounts(s);
      forall k | 0 <= k < n ensures 0 <= s[k] < n {
        assert s[k] in multiset(order);
      }
      IncreasingIsRange(s);
    }
  }

  lemma RangeDistinct(n: nat)
    ensures Distinct(Range(n))
  {
  }

  /** A sorted list of n distinct integers drawn from 0..n-1 is 0..n-1. */
  lemma IncreasingIsRange(s: seq<int>)
    requires Sorted(s) && Distinct(s)
    requires forall k :: 0 <= k < |s| ==> 0 <= s[k] < |s|
    ensures s == Range(|s|)
  {
    var n := |s|;
    forall k | 0 <= k < n ensures s[k] >= k { AtLeastIndex(s, k); }
    forall k | 0 <= k < n ensures s[k] <= k { AtMostIndex(s, k); }
  }

  lemma {:induction false} AtLeastIndex(s: seq<int>, k: nat)
    requires Sorted(s) && Distinct(s) && k < |s|
    requires forall j :: 0 <= j < |s| ==> 0 <= s[j]
    ensures s[k] >= k
  {
    if k > 0 { AtLeastIndex(s, k - 1); }
  }

  lemma {:induction false} AtMostIndex(s: seq<int>, k: nat)
    requires Sorted(s) && Distinct(s) && k < |s|
    requires forall j :: 0 <= j < |s| ==> s[j] < |s|
    ensures s[k] <= k
    decreases |s| - k
  {
    if k < |s| - 1 { AtMostIndex(s, k + 1); }
  }

  /** `int(token)`, failing with the token. */
  function ParseToken(token: string): Result<int, string> {
    match ParseInt(token)
    case None => Err(token)
    case Some(v) => Ok(v)
  }

  /** The tokens of an order string: commas count as spaces. */
  function OrderTokens(orderStr: string): seq<string> {
    Words(ReplaceChar(orderStr, ',', ' '))
  }

  /** parse_column_order: `[int(x) for x in tokens]`, then the permutation test. */
  function ParseColumnOrder(orderStr: string): Result<seq<int>, Error> {
    match MapResult(OrderTokens(orderStr), ParseToken)
    case Err(t) => Err(InvalidOrderToken(t))
    case Ok(order) => if IsPermutation(order) then Ok(order) else Err(NotAPermutation)
  }

  /** An accepted order is a permutation with one entry per token, each the
      integer value of its token. */
  lemma ParseColumnOrderOk(orderStr: string)
    requires ParseColumnOrder(orderStr).Ok?
    ensures var order := ParseColumnOrder(orderStr).value;
      && IsPermutation(order) && |order| == |OrderTokens(orderStr)|
      && forall k :: 0 <= k < |order| ==> ParseInt(OrderTokens(orderStr)[k]) == Some(order[k])
  {
    var tokens := OrderTokens(orderStr);
    MapResultOk(tokens, ParseToken);
    assert forall k :: 0 <= k < |tokens| ==> ParseToken(tokens[k]).Ok?;
  }

  /** A refused order names a token that is not an integer, or else every
      token is an integer and they do not form a permutation. */
  lemma ParseColumnOrderErr(orderStr: string)
    requires ParseColumnOrder(orderStr).Err?
    ensures var e := ParseColumnOrder(orderStr).error;
      || (e.InvalidOrderToken? && e.token in OrderTokens(orderStr) && ParseInt(e.token).None?)
      || (e == NotAPermutation
          && forall k :: 0 <= k < |OrderTokens(orderStr)| ==> ParseInt(OrderTokens(orderStr)[k]).Some?)
  {
    var tokens := OrderTokens(orderStr);
    if MapResult(tokens, ParseToken).Err? {
      BadTokenListed(tokens);
    } else {
      MapResultOk(tokens, ParseToken);
      assert forall k :: 0 <= k < |tokens| ==> ParseToken(tokens[k]).Ok?;
    }
  }

  /** The token a failed parse reports is one of the tokens, and not an integer. */
  lemma BadTokenListed(tokens: seq<string>)
    requires MapResult(tokens, ParseToken).Err?
    ensures MapResult(tokens, ParseToken).error in tokens
    ensures ParseInt(MapResult(tokens, ParseToken).error).None?
  {
    var j := MapResultErr(tokens, ParseToken);
  }

  /** When every token is an integer and together they form a permutation,
      that permutation is the parsed order. */
  lemma ParseColumnOrderAccepts(orderStr: string, order: seq<int>)
    requires |order| == |OrderTokens(orderStr)|
    requires forall k :: 0 <= k < |order| ==> ParseInt(OrderTokens(orderStr)[k]) == Some(order[k])
    requires IsPermutation(order)
    ensures ParseColumnOrder(orderStr) == Ok(order)
  {
    var tokens := OrderTokens(orderStr);
    MapResultOk(tokens, ParseToken);
    assert forall k :: 0 <= k < |tokens| ==> ParseToken(tokens[k]) == Ok(order[k]);
    assert MapResult(tokens, ParseToken).value == order;
  }

  /** The order that undoes `order`. */
  function Inverse(order: seq<int>): (inv: seq<int>)
    requires IsPermutation(order)
    ensures |inv| == |order|
    ensures forall v :: 0 <= v < |order| ==> 0 <= inv[v] < |order| && order[inv[v]] == v
  {
    PermutationCovers(order);
    seq(|order|, v requires 0 <= v < |order| => IndexOf(order, v))
  }

  /** A permutation uses every index 0..n-1. */
  lemma PermutationCovers(order: seq<int>)
    requires IsPermutation(order)
    ensures forall v :: 0 <= v < |order| ==> v in order
  {
    forall v | 0 <= v < |order| ensures v in order {
      assert Range(|order|)[v] == v;
      assert v in multiset(Sort(order));
    }
  }

  /** The inverse of a permutation is a permutation, so it is itself a valid order. */
  lemma InverseIsPermutation(order: seq<int>)
    requires IsPermutation(order)
    ensures IsPermutation(Inverse(order))
    ensures Inverse(Inverse(order)) == order
  {
    var inv := Inverse(order);
    var n := |order|;
    PermutationIff(order);
    assert Distinct(inv) by {
      forall i, j | 0 <= i < j < n ensures inv[i] != inv[j] {
        assert order[inv[i]] == i && order[inv[j]] == j;
      }
    }
    PermutationIff(inv);
    var inv2 := Inverse(inv);
    forall k | 0 <= k < n ensures inv2[k] == order[k] {
      assert inv[inv2[k]] == k;
      assert inv[order[k]] == k by {
        assert order[inv[order[k]]] == order[k];
      }
    }
  }

  /** With a permutation as long as the row, reordering succeeds, puts the
      cell `order[k]` at position k, and the inverse order restores the row. */
  lemma ReorderAndRestore(columns: seq<string>, order: seq<int>)
    requires IsPermutation(order) && |columns| == |order|
    ensures Reorder(columns, order).Ok?
    ensures var out := Reorder(columns, order).value;
      && |out| == |columns|
      && (forall k :: 0 <= k < |order| ==> 0 <= order[k] < |columns| && out[k] == columns[order[k]])
      && Reorder(out, Inverse(order)) == Ok(columns)
  {
    PermutationIff(order);
    var out := Reorder(columns, order).value;
    var inv := Inverse(order);
    var back := Reorder(out, inv);
    assert back.Ok?;
    assert back.value == columns by {
      forall v | 0 <= v < |columns| ensures back.value[v] == columns[v] {
        assert back.value[v] == out[inv[v]] == columns[order[inv[v]]];
      }
    }
  }

  // ------------------------------------------------------------ process_table

  /** What process_table makes of one line: a line that is not a row is kept,
      a row is checked against the order, reordered and written back with
      one line end. */
  function ReorderLine(line: string, order: seq<int>): Result<string, Error> {
    match ParseRow(line)
    case None => Ok(line)
    case Some(columns) =>
      if |columns| != |order| then Err(ColumnCountMismatch(|columns|, |order|))
      else match Reorder(columns, order)
        case Err(e) => Err(e)
        case Ok(reordered) => Ok(FormatRow(reordered) + "\n")
  }

  /** The lines, each transformed by ReorderLine, or the error of the first
      line that fails. */
  function ReorderLines(lines: seq<string>, order: seq<int>): Result<seq<string>, Error> {
    MapResult(lines, LineStep(order))
  }

  /** ReorderLine for one order, as a function of the line. */
  function LineStep(order: seq<int>): string -> Result<string, Error> {
    line => ReorderLine(line, order)
  }

  /** process_table */
  method ProcessTable(tableLines: seq<string>, order: seq<int>) returns (r: Result<seq<string>, Error>)
    ensures r == ReorderLines(tableLines, order)
  {
    if tableLines == [] {
      return Ok(tableLines);
    }
    var result: seq<string> := [];
    for k := 0 to |tableLines|
      invariant ReorderLines(tableLines[..k], order) == Ok(result)
    {
      var line := tableLines[k];
      assert tableLines[..k + 1][..k] == tableLines[..k];
      var columns := ParseRow(line);
      if columns.None? {
        result := result + [line];
        continue;
      }
      if |columns.value| != |order| {
        r := Err(ColumnCountMismatch(|columns.value|, |order|));
        MapResultFailureStays(tableLines, k + 1, LineStep(order));
        return;
      }
      var reordered := Reorder(columns.value, order);
      if reordered.Err? {
        r := Err(reordered.error);
        MapResultFailureStays(tableLines, k + 1, LineStep(order));
        return;
      }
      result := result + [FormatRow(reordered.value) + "\n"];
    }
    assert tableLines[..|tableLines|] == tableLines;
    return Ok(result);
  }

  /** A line that is no row extends the transformed prefix by itself. */
  lemma PassThrough(lines: seq<string>, i: nat, order: seq<int>)
    requires i < |lines| && ParseRow(lines[i]).None?
    ensures ReorderLines(lines[..i + 1], order) == Then(ReorderLines(lines[..i], order), Ok([lines[i]]))
  {
    assert lines[..i + 1][..i] == lines[..i];
    if ReorderLines(lines[..i], order).Ok? {
      assert ReorderLine(lines[i], order) == Ok(lines[i]);
    }
  }

  /** The transform of a prefix is that of its first part followed by that
      of the rest. */
  lemma PrefixSplits(lines: seq<string>, start: nat, i: nat, order: seq<int>)
    requires start <= i <= |lines|
    ensures ReorderLines(lines[..i], order) == Then(ReorderLines(lines[..start], order), ReorderLines(lines[start..i], order))
  {
    assert lines[..i] == lines[..start] + lines[start..i];
    MapResultAppend(lines[..start], lines[start..i], LineStep(order));
  }

  /** The inner loop of find_and_process_tables: the run of rows that starts
      at `start`, and the index behind it. */
  method CollectTable(lines: seq<string>, start: nat) returns (tableLines: seq<string>, i: nat)
    requires start < |lines| && ParseRow(lines[start]).Some?
    ensures start < i <= |lines| && tableLines == lines[start..i]
    ensures i == |lines| || ParseRow(lines[i]).None?
  {
    i := start;
    tableLines := [];
    while i < |lines| && ParseRow(lines[i]).Some?
      invariant start <= i <= |lines|
      invariant tableLines == lines[start..i]
    {
      SliceExtend(lines, start, i);
      tableLines := tableLines + [lines[i]];
      i := i + 1;
    }
  }

  /** find_and_process_tables: group consecutive rows into tables and process
      each table; other lines pass through. */
  method FindAndProcessTables(lines: seq<string>, order: seq<int>) returns (r: Result<seq<string>, Error>)
    ensures r == ReorderLines(lines, order)
  {
    var result: seq<string> := [];
    var i := 0;
    while i < |lines|
      invariant 0 <= i <= |lines|
      invariant ReorderLines(lines[..i], order) == Ok(result)
      decreases |lines| - i
    {
      var line := lines[i];
      if ParseRow(line).None? {
        PassThrough(lines, i, order);
        result := result + [line];
        i := i + 1;
        continue;
      }
      var start := i;
      var tableLines;
      tableLines, i := CollectTable(lines, start);
      var processed := ProcessTable(tableLines, order);
      PrefixSplits(lines, start, i, order);
      if processed.Err? {
        MapResultFailureStays(lines, i, LineStep(order));
        return processed;
      }
      result := result + processed.value;
    }
    assert lines[..|lines|] == lines;
    return Ok(result);
  }

  // ------------------------------------------------------------ properties of the line transform

  /** The transform works line by line: it succeeds when every line does,
      keeps the number of lines, and each output line is its input line's
      transform. */
  lemma ReorderLinesPointwise(lines: seq<string>, order: seq<int>)
    ensures ReorderLines(lines, order).Ok? <==> forall j :: 0 <= j < |lines| ==> ReorderLine(lines[j], order).Ok?
    ensures ReorderLines(lines, order).Ok? ==>
      && |ReorderLines(lines, order).value| == |lines|
      && forall j :: 0 <= j < |lines| ==> ReorderLines(lines, order).value[j] == ReorderLine(lines[j], order).value
  {
    MapResultOk(lines, LineStep(order));
  }

  /** A failed transform reports the error of the first line that fails. */
  lemma ReorderLinesFirstError(lines: seq<string>, order: seq<int>) returns (j: nat)
    requires ReorderLines(lines, order).Err?
    ensures j < |lines| && ReorderLine(lines[j], order) == Err(ReorderLines(lines, order).error)
    ensures forall k :: 0 <= k < j ==> ReorderLine(lines[k], order).Ok?
  {
    j := MapResultErr(lines, LineStep(order));
  }

  /** Lines that are not table rows come through verbatim, at their place;
      rows are replaced by their reordered form. */
  lemma TablesOnlyChange(lines: seq<string>, order: seq<int>, j: nat)
    requires ReorderLines(lines, order).Ok? && j < |lines|
    ensures |ReorderLines(lines, order).value| == |lines|
    ensures ParseRow(lines[j]).None? ==> ReorderLines(lines, order).value[j] == lines[j]
    ensures ParseRow(lines[j]).Some? ==>
      && Reorder(ParseRow(lines[j]).value, order).Ok?
      && ReorderLines(lines, order).value[j] == FormatRow(Reorder(ParseRow(lines[j]).value, order).value) + "\n"
  {
    ReorderLinesPointwise(lines, order);
  }

  /** A row whose cell count differs from the order's length makes the
      whole transform fail. */
  lemma ColumnCountGuard(lines: seq<string>, order: seq<int>, j: nat)
    requires j < |lines| && ParseRow(lines[j]).Some? && |ParseRow(lines[j]).value| != |order|
    ensures ReorderLines(lines, order).Err?
  {
    ReorderLinesPointwise(lines, order);
  }

  /** With a valid order and rows of matching width, the transform succeeds. */
  lemma MatchingRowsSucceed(lines: seq<string>, order: seq<int>)
    requires IsPermutation(order)
    requires forall j :: 0 <= j < |lines| && ParseRow(lines[j]).Some? ==> |ParseRow(lines[j]).value| == |order|
    ensures ReorderLines(lines, order).Ok?
  {
    forall j | 0 <= j < |lines| ensures ReorderLine(lines[j], order).Ok? {
      if ParseRow(lines[j]).Some? { ReorderAndRestore(ParseRow(lines[j]).value, order); }
    }
    ReorderLinesPointwise(lines, order);
  }

  /** Every rewritten row ends in its closing pipe and exactly one line end. */
  lemma RewrittenRowEnding(line: string, order: seq<int>)
    requires ParseRow(line).Some? && ReorderLine(line, order).Ok?
    ensures EndsWith(ReorderLine(line, order).value, "|\n")
  {
    var out := ReorderLine(line, order).value;
    var f := FormatRow(Reorder(ParseRow(line).value, order).value);
    assert out == f + "\n";
    assert out[|out| - 2..] == "|\n";
  }

  /** A line as the transform leaves it when the order is the identity:
      a row is stripped and given one line end. */
  function Normalized(line: string): string {
    if ParseRow(line).Some? then Strip(RowText(line)) + "\n" else line
  }

  /** Reordering one line and then applying the inverse order gives the
      line back, in normalized form. */
  lemma LineRoundTrip(line: string, order: seq<int>)
    requires IsPermutation(order) && ReorderLine(line, order).Ok?
    ensures ReorderLine(ReorderLine(line, order).value, Inverse(order)) == Ok(Normalized(line))
  {
    if ParseRow(line).Some? {
      var cells := ParseRow(line).value;
      ReorderAndRestore(cells, order);
      var out := Reorder(cells, order).value;
      ParseRowCells(line);
      SplitPartsFree(Interior(RowText(line)), '|');
      assert forall k :: 0 <= k < |out| ==> '|' !in out[k] by {
        PermutationIff(order);
      }
      ParseFormatted(out);
      InverseIsPermutation(order);
      FormatParsed(line);
    }
  }

  /** Reordering a document's tables and then applying the inverse order
      restores every line (rows in normalized form). */
  lemma DocumentRoundTrip(lines: seq<string>, order: seq<int>)
    requires IsPermutation(order) && ReorderLines(lines, order).Ok?
    ensures var out := ReorderLines(lines, order).value;
      && ReorderLines(out, Inverse(order)).Ok?
      && |ReorderLines(out, Inverse(order)).value| == |lines|
      && forall j :: 0 <= j < |lines| ==> ReorderLines(out, Inverse(order)).value[j] == Normalized(lines[j])
  {
    var out := ReorderLines(lines, order).value;
    ReorderLinesPointwise(lines, order);
    forall j | 0 <= j < |lines| ensures ReorderLine(out[j], Inverse(order)) == Ok(Normalized(lines[j])) {
      LineRoundTrip(lines[j], order);
    }
    ReorderLinesPointwise(out, Inverse(order));
  }

  /** For a row, is_table_separator holds exactly when every non-empty cell
      is an alignment cell. */
  lemma SeparatorCells(line: string)
    requires ParseRow(line).Some?
    ensures IsTableSeparator(line) <==> AlignmentCells(ParseRow(line).value)
  {
    var o := RowText(line);
    ParseRowCells(line);
    var mid := Interior(o);
    RowTextStrip(line);
    assert Strip(line) == "|" + mid + "|";
    SplitFramed([], mid, []);
    assert [] + "|" + mid + "|" + [] == Strip(line);
    assert Inner(Split(Strip(line), "|")) == ParseRow(line).value;
  }

  /** Removing the line end does not change the stripped line. */
  lemma RowTextStrip(line: string)
    ensures Strip(RowText(line)) == Strip(line)
  {
    var o := RowText(line);
    assert line == o + line[|o|..];
    StripIgnoresTrailing(o, line[|o|..]);
  }

  /** Reordering a separator's cells keeps them alignment cells. */
  lemma ReorderKeepsAlignment(cells: seq<string>, order: seq<int>)
    requires AlignmentCells(cells) && IsPermutation(order) && |cells| == |order|
    ensures Reorder(cells, order).Ok? && AlignmentCells(Reorder(cells, order).value)
  {
    ReorderAndRestore(cells, order);
  }

  /** A separator row, reordered, is still a separator row. */
  lemma SeparatorStaysSeparator(line: string, order: seq<int>)
    requires IsTableSeparator(line) && ParseRow(line).Some?
    requires IsPermutation(order) && |ParseRow(line).value| == |order|
    ensures ReorderLine(line, order).Ok?
    ensures IsTableSeparator(ReorderLine(line, order).value)
  {
    var cells := ParseRow(line).value;
    SeparatorCells(line);
    ReorderKeepsAlignment(cells, order);
    var out := Reorder(cells, order).value;
    RowCellsFree(line);
    ReorderAndRestore(cells, order);
    assert forall k :: 0 <= k < |out| ==> '|' !in out[k];
    ParseFormatted(out);
    SeparatorCells(FormatRow(out) + "\n");
  }

  /** The cells of a row hold no pipe. */
  lemma RowCellsFree(line: string)
    requires ParseRow(line).Some?
    ensures forall k :: 0 <= k < |ParseRow(line).value| ==> '|' !in ParseRow(line).value[k]
  {
    ParseRowCells(line);
    SplitPartsFree(Interior(RowText(line)), '|');
  }

  // ------------------------------------------------------------ main

  /** main, without its file handling: parse the order first, then reorder
      the tables of everything after the frontmatter, and put the
      frontmatter back in front. */
  method ReorderDocument(lines: seq<string>, orderStr: string) returns (r: Result<seq<string>, Error>)
    ensures ParseColumnOrder(orderStr).Err? ==> r == Err(ParseColumnOrder(orderStr).error)
    ensures ParseColumnOrder(orderStr).Ok? ==>
      r == Then(Ok(Frontmatter(lines)), ReorderLines(lines[|Frontmatter(lines)|..], ParseColumnOrder(orderStr).value))
  {
    var order := ParseColumnOrder(orderStr);
    if order.Err? {
      return Err(order.error);
    }
    var frontmatter, content := ParseFrontmatter(lines);
    assert content == lines[|frontmatter|..];
    var processed := FindAndProcessTables(content, order.value);
    if processed.Err? {
      return processed;
    }
    return Ok(frontmatter + processed.value);
  }

  /** A successful run keeps the frontmatter byte for byte in front and
      keeps the number of lines. */
  lemma FrontmatterKept(lines: seq<string>, order: seq<int>)
    requires Then(Ok(Frontmatter(lines)), ReorderLines(lines[|Frontmatter(lines)|..], order)).Ok?
    ensures var out := Then(Ok(Frontmatter(lines)), ReorderLines(lines[|Frontmatter(lines)|..], order)).value;
      |out| == |lines| && out[..|Frontmatter(lines)|] == Frontmatter(lines)
  {
    var fm := Frontmatter(lines);
    ReorderLinesPointwise(lines[|fm|..], order);
  }
}
