# Markdown note scripts, modelled in Dafny

The repository is a set of small command-line scripts. Each one edits
Markdown notes, the kind an Obsidian vault holds. This project models the
text logic of six of them and proves what that logic promises:

- **reorder_columns.py** splits off a leading frontmatter block. It then
  permutes the cells of every pipe-table row by a column order given as text,
  such as `"2,0,1"`.
- **reverse_table.py** finds every run of table lines and reverses its rows.
  It either keeps the header and separator on top or reverses everything.
  In the second case it moves the first separator-looking line back to the
  second place.
- **split_by_year.py** copies the metadata block and finds the table header.
  It puts every data row into a bucket for the year of its date column, or
  into `unknown`. It writes one file per bucket: the years ascending, then
  `unknown`.
- **replace_md_links.py** strips the frontmatter from a note it reads. It
  turns a note's text into one table cell: newlines become `<br>` and fenced
  code blocks become `<pre><code>` with `&#10;` between lines. It also
  normalises the note name inside a `[[link]]`.
- **rename_frontmatter_key.py** substitutes `^(\s*)old:` into `\1new:` inside
  the block between the first two `---`. A file counts as changed when this
  alters the text. Python reads `\1new:` as a replacement template, so
  backslashes and leading digits in the new key are escapes, and the model
  parses the template the same way.
- **check_yaml_frontmatter.py** decides whether a file opens and closes a
  `---` block. It counts the Markdown files of a folder walk with and without
  one.

Layout:

- `wrappers.dfy`: `Option` and `Result`.
- `lists.dfy`: sequence helpers. These are reversal, a first-match search,
  insertion sort, `Map`, a fail-fast `MapResult` and slice lemmas.
- `pystr.dfy`: the Python `str` operations the scripts call. These are
  `strip` and its variants, `startswith`, `find`, `split` with and without a
  limit, `split()` on whitespace, `join`, and `int()` on ASCII digits.
- One file per script: `reorder_columns.dfy`, `reverse_table.dfy`,
  `split_by_year.dfy`, `replace_md_links.dfy`,
  `rename_frontmatter_key.dfy` and `check_yaml_frontmatter.dfy`.

How loops are modelled:

- A loop of the source becomes a `method` with a `while` loop.
- The method is proved equal to a function. That function usually reads the
  input from the front and is written independently of the loop.
- The properties are proved about the function.
- Pure expression code becomes functions and lemmas.

A file given as lines is the list that `readlines()` returns, each line ending
in its own line break. A file given as text is what `read()` returns.

Behaviour of the code worth noting, which the model follows:

- reorder_columns.py tests for a frontmatter delimiter with
  `strip().startswith('---')`. A line such as `----` or `--- x` therefore
  also opens or closes the block, not only a line that is exactly `---`.
  `CheckYamlFrontmatter.DashLineNotDelimiter` shows the difference with the
  exact test of check_yaml_frontmatter.py.
- split_by_year.py opens its metadata block at the first `---` line
  anywhere in the file, not only at line 0.
- When that block is never closed, the metadata lines run to the end of the
  file and are still written to every output. The header search still
  starts at line 0.
- When no header is found, split_by_year.py prints a message and returns
  normally, without an error status (split_by_year.py:79-81). The model
  returns the error value `NoHeader`.
- A date whose year is 0 is false in the `if year:` test, so its row goes
  to `unknown`.

## Model

| member | source | states |
|---|---|---|
| ReorderColumns.NextDashLine | reorder_columns.py:22-25 | The result is the first line at or after `from` whose stripped text starts with `---`; with no result, no such line exists. |
| ReorderColumns.FrontmatterShape | reorder_columns.py:18-27 | The frontmatter is empty exactly when there are no lines, line 0 is no dash line, or no later line is one. Otherwise it runs from line 0 to the first later dash line, with no dash line in between. |
| ReorderColumns.ParseFrontmatter | reorder_columns.py:13-27 | The loop returns that frontmatter, and the frontmatter followed by the remaining lines is the input. |
| ReorderColumns.RowText | reorder_columns.py:42 | `rstrip('\n\r')` gives a prefix of the line; everything cut off is `\n` or `\r`, and the result does not end in either. |
| ReorderColumns.ParseRowCells | reorder_columns.py:40-61 | A line is a table row exactly when, minus its line end, it contains a pipe, starts and ends with one once stripped, and is more than a lone pipe. Its cells are then the pieces between the outer pipes, split at each pipe. |
| ReorderColumns.ParseRowUnframed | reorder_columns.py:44-59 | Every other line, including a line that is a single pipe, gives no cells. |
| ReorderColumns.FormatParsed | reorder_columns.py:51-64 | Formatting the parsed cells gives the row stripped of surrounding whitespace and of its line end. |
| ReorderColumns.FormatParsedExact | reorder_columns.py:51-64 | A row whose text already starts and ends with its pipes comes back unchanged from parse and format. |
| ReorderColumns.ParseFormatted | reorder_columns.py:40-64 | A formatted row of pipe-free cells, with its line end, parses back into the same cells. |
| ReorderColumns.RowCellsFree | reorder_columns.py:51 | No parsed cell contains a pipe. |
| ReorderColumns.RewrittenRowEnding | reorder_columns.py:94 | Every rewritten row ends in a pipe and exactly one `\n`. |
| ReorderColumns.PyIndex | reorder_columns.py:70 | A Python index in `-n..n-1`, negative ones counting from the end, selects a valid position. |
| ReorderColumns.ReorderAndRestore | reorder_columns.py:67-72 | With a permutation as long as the row, reordering succeeds and keeps the length. Cell `k` of the result is cell `order[k]` of the input, and the inverse order restores the row. |
| ReorderColumns.Inverse | reorder_columns.py:67-70 | The inverse order maps every index back: `order[inv[v]] == v`. |
| ReorderColumns.InverseIsPermutation | reorder_columns.py:133 | The inverse passes the permutation test itself, and inverting twice gives the order back. |
| ReorderColumns.PermutationIff | reorder_columns.py:133 | `sorted(order) == list(range(len(order)))` holds exactly when every entry is in `0..n-1` and no entry repeats. |
| ReorderColumns.ParseColumnOrderOk | reorder_columns.py:127-140 | An accepted order string gives a permutation with one entry per comma- or space-separated token, each the `int()` of its token. |
| ReorderColumns.ParseColumnOrderErr | reorder_columns.py:127-140 | A refused string either names one of its tokens that `int()` rejects, or all its tokens are integers that do not form a permutation. |
| ReorderColumns.BadTokenListed | reorder_columns.py:131 | The token reported by the failed conversion is one of the tokens and is not an integer. |
| ReorderColumns.ParseColumnOrderAccepts | reorder_columns.py:127-138 | When every token is an integer and together they form a permutation, that permutation is the result. |
| ReorderColumns.ProcessTable | reorder_columns.py:75-96 | The loop gives the line-by-line transform of its block: non-rows are kept, rows are reordered and formatted, and the first mismatching row aborts. |
| ReorderColumns.CollectTable | reorder_columns.py:113-119 | The inner loop collects the maximal run of rows starting at `start` and stops at the first non-row or at the end. |
| ReorderColumns.FindAndProcessTables | reorder_columns.py:99-124 | Grouping rows into tables and processing each gives the same result as the line-by-line transform of the whole body. |
| ReorderColumns.ReorderLinesPointwise | reorder_columns.py:99-124 | The transform succeeds exactly when every line does. It then has one output line per input line, each the transform of that line. |
| ReorderColumns.ReorderLinesFirstError | reorder_columns.py:87-91 | A failure carries the error of the first failing line, and every earlier line succeeds. |
| ReorderColumns.TablesOnlyChange | reorder_columns.py:99-124 | The line count is kept. Every non-row line is copied verbatim at its position, and every row is replaced by its reordered, formatted form with one `\n`. |
| ReorderColumns.ColumnCountGuard | reorder_columns.py:87-91 | One row whose cell count differs from the order's length makes the whole transform fail. |
| ReorderColumns.MatchingRowsSucceed | reorder_columns.py:87-94 | With a permutation and every row of matching width, the transform succeeds. |
| ReorderColumns.LineRoundTrip | reorder_columns.py:82-94 | Reordering a line and then applying the inverse order gives the line back in normalised form: a row stripped and given one line end, any other line unchanged. |
| ReorderColumns.DocumentRoundTrip | reorder_columns.py:99-124 | The same holds for a whole body: the inverse order restores every line, with rows normalised. |
| ReorderColumns.SeparatorCells | reorder_columns.py:30-37 | For a row, `is_table_separator` holds exactly when every non-empty stripped cell matches `^:?-+:?$`. |
| ReorderColumns.ReorderKeepsAlignment | reorder_columns.py:36-37 | Permuting alignment cells leaves alignment cells. |
| ReorderColumns.SeparatorStaysSeparator | reorder_columns.py:30-37 | A separator row, reordered, is still a separator row. |
| ReorderColumns.ReorderDocument | reorder_columns.py:176-200 | A bad order string is reported before any table is looked at. Otherwise the result is the frontmatter followed by the transformed body, or the body's error. |
| ReorderColumns.FrontmatterKept | reorder_columns.py:192-200 | A successful run keeps the line count and has the frontmatter byte for byte in front. |
| ReverseTable.TableLineIff | reverse_table.py:31 | The scanner's test (a pipe in the line, and the line not blank) holds exactly when the line contains a pipe. |
| ReverseTable.MarkerLineIff | reverse_table.py:88 | The four substring tests are exactly the recursive marker-line predicate. |
| ReverseTable.FirstMarker | reverse_table.py:86-90 | The result is the first marker line at or after `from`, or none when there is no marker line. |
| ReverseTable.MoveToSecond | reverse_table.py:92-94 | `pop(j)` then `insert(1, ...)` keeps the length and the multiset and puts line `j` second. |
| ReverseTable.MoveToSecondShape | reverse_table.py:92-94 | The lines between positions 1 and `j` shift down by one; the others stay. |
| ReverseTable.ProcessTable | reverse_table.py:54-96 | The method computes the rearranged block for both header modes. |
| ReverseTable.RearrangedPermutes | reverse_table.py:54-96 | A block keeps its length and its multiset of lines. |
| ReverseTable.SmallBlocks | reverse_table.py:63-81 | One line is kept. With the header kept, two lines are kept; without it, two lines are swapped. |
| ReverseTable.KeepHeaderShape | reverse_table.py:66-76 | With the header kept, the first two lines stay and the data rows come in reverse order. |
| ReverseTable.KeepHeaderInvolution | reverse_table.py:66-76 | Rearranging a block twice with the header kept gives it back. |
| ReverseTable.NoHeaderSeparator | reverse_table.py:77-96 | Without the header, a block of three or more lines with a marker line has a marker line second. Without any marker line the block is fully reversed. |
| ReverseTable.NoHeaderExample | reverse_table.py:77-96 | Header, separator and rows `r1`, `r2` become `r2`, separator, `r1`, header. |
| ReverseTable.RunLengthFacts | reverse_table.py:31-36 | A run of table lines is maximal: all table lines, then a line without a pipe or the end. |
| ReverseTable.ReverseMarkdownTable | reverse_table.py:13-51 | The method equals the reference rewrite: split on `\n`, rearrange every maximal run of table lines, copy other lines, join with `\n`. |
| ReverseTable.ScanLine | reverse_table.py:28-45 | One turn of the scan keeps the scan invariant: the output so far is the rewrite of the lines before the open run. |
| ReverseTable.CopyLine | reverse_table.py:37-43 | A non-table line flushes the open run and is copied, and the invariant holds with no open run. |
| ReverseTable.FlushTable | reverse_table.py:38-49 | Flushing the run gives the rewrite of the lines up to here, both mid-text and at the end. |
| ReverseTable.ReverseTablesCut | reverse_table.py:37-43 | After a non-table line the rewrite starts afresh: the rewrite of `a + b` is that of `a` followed by that of `b`. |
| ReverseTable.ReverseTablesRun | reverse_table.py:31-42 | A whole run at the front is rearranged as one block. |
| ReverseTable.ReverseTablesInPlace | reverse_table.py:22-51 | The rewrite keeps the number of lines. Every non-table line stays at its position, and table lines are only permuted among the positions of their run. |
| ReverseTable.NoTableUnchanged | reverse_table.py:37-43 | Lines without a table line come out unchanged. |
| ReverseTable.NoTableTextUnchanged | reverse_table.py:22-51 | A text none of whose lines is a table line comes out of reverse_markdown_table unchanged. |
| ReverseTable.ReversedDocumentLines | reverse_table.py:22-51 | Splitting the output on `\n` gives the rewritten lines, as many as the input had. |
| ReverseTable.KeepHeaderTwice | reverse_table.py:22-51 | With the header kept, rewriting the lines twice gives them back. |
| ReverseTable.KeepHeaderDocumentTwice | reverse_table.py:13-51 | With the header kept, rewriting a whole document twice gives it back byte for byte. |
| SplitByYear.ParseDateBlank | split_by_year.py:21-22 | Empty and whitespace-only text has no date. |
| SplitByYear.ParseDateNoArrow | split_by_year.py:27-31 | Without an arrow, the stripped text goes to the date parser. |
| SplitByYear.ParseDateBeforeArrow | split_by_year.py:24-28 | With an arrow, only the stripped text before the first `→` goes to the parser. |
| SplitByYear.ScanMetadata | split_by_year.py:47-64 | For any test of the delimiter line, the loop computes the metadata lines and the content start of the reference block definition for that test; the script runs it with the stripped-`---` test. |
| SplitByYear.MetadataShape | split_by_year.py:52-64 | No metadata exactly when no line strips to `---`. Otherwise the block starts at the first such line and ends with the next one, and the content starts after it. Without a closing line the block runs to the end and the content start is 0. |
| SplitByYear.HeaderFromFacts | split_by_year.py:70-77 | The search returns the first line at or after `from` with a pipe, `Name` and `date`, or reports that there is none. |
| SplitByYear.FindHeader | split_by_year.py:66-81 | The loop finds that header, its index and the following line when one exists. |
| SplitByYear.HeaderIsFirst | split_by_year.py:70-77 | The header is the first header line from the content start. The separator exists exactly when a line follows the header, and is that line. |
| SplitByYear.NoHeaderIff | split_by_year.py:79-81 | The script fails exactly when no line from the content start on is a header line. |
| SplitByYear.Columns | split_by_year.py:91 | One stripped column per piece of the line split at its pipes. |
| SplitByYear.BucketRows | split_by_year.py:83-103 | After the loop, each bucket holds its rows in order, and the key list holds the buckets in first-use order. |
| SplitByYear.SeenIff | split_by_year.py:100-103 | A bucket is a key of the dictionary exactly when some row went into it. |
| SplitByYear.SeenDistinct | split_by_year.py:100-103 | The dictionary's key order lists every bucket once. |
| SplitByYear.RowsInIff | split_by_year.py:100-103 | A line is in bucket `b` exactly when it is one of the rows and its key is `b`. |
| SplitByYear.ExactlyOneBucket | split_by_year.py:88-103 | A kept row is in exactly one bucket; a skipped line is in none. |
| SplitByYear.RowsInAppend | split_by_year.py:100-103 | Rows keep their relative order inside a bucket. |
| SplitByYear.YearsOf | split_by_year.py:108 | The year keys are exactly the years among the buckets. |
| SplitByYear.YearsOfDistinct | split_by_year.py:108 | No year key repeats. |
| SplitByYear.SortDistinct | split_by_year.py:108 | Sorting keeps the years and their distinctness. |
| SplitByYear.OutputOrderFacts | split_by_year.py:108-111 | Every bucket is written exactly once. Years come strictly ascending and before `unknown`, and `unknown` comes last when present. |
| SplitByYear.SortBuckets | split_by_year.py:108-111 | The method computes that order, and every bucket in it holds the rows bucketed into it. |
| SplitByYear.WriteFile | split_by_year.py:120-129 | One file holds the metadata lines plus a newline when there are any, then the header, the separator and the bucket's rows. |
| SplitByYear.WriteOutputs | split_by_year.py:113-129 | One file per bucket, in output order and named `<stem>_<year>.md` or `<stem>_unknown_dates.md`. |
| SplitByYear.WriteTable | split_by_year.py:83-129 | After the header is found, the files are those of the table's buckets. |
| SplitByYear.SplitMarkdownByYear | split_by_year.py:34-129 | The whole run equals the reference result: the missing-header error, or the files of all buckets. |
| SplitByYear.KeptRowOneFile | split_by_year.py:100-129 | A kept row is among the rows of exactly one bucket of the output order, its own. |
| SplitByYear.SkippedRowNoFile | split_by_year.py:88-94 | A skipped line lands in no bucket. |
| SplitByYear.TableFileAt | split_by_year.py:112-129 | The written files of a table are, in output order, one per bucket. Each is named for its bucket and holds the metadata, the header, the separator and that bucket's rows. |
| SplitByYear.KeptRowAmongFiles | split_by_year.py:100-129 | Among the files written for the output order, a kept row is in the rows of exactly one, the file of its own bucket. Every other file belongs to another bucket and is written from rows without it. |
| SplitByYear.SkippedRowAmongFiles | split_by_year.py:88-129 | Every file written for the output order is written from rows without a skipped line. |
| SplitByYear.KeptRowInOneFile | split_by_year.py:100-129 | Among the files the script writes for a table, a kept row is in the rows of exactly one, the file of its own bucket. |
| SplitByYear.SkippedRowInNoFile | split_by_year.py:88-129 | A skipped line is in the rows of none of the files the script writes for a table. |
| ReplaceMdLinks.LStripNewlines | replace_md_links.py:28 | `lstrip('\n')` removes exactly the leading newlines and keeps the rest. |
| ReplaceMdLinks.StripFrontmatter | replace_md_links.py:18-30 | The loop returns the reference result: for text starting with `---`, the lines after the first later line that strips to `---`, with leading newlines removed; otherwise the text. |
| ReplaceMdLinks.WithoutFrontmatterIsSuffix | replace_md_links.py:18-30 | What is left is always a suffix of the text. |
| ReplaceMdLinks.FrontmatterCut | replace_md_links.py:19-28 | The text is the lines up to the cut, a newline and the rest, so the rest is a strictly shorter suffix. |
| ReplaceMdLinks.WithoutFrontmatterUnchanged | replace_md_links.py:18-30 | The text comes back unchanged exactly when it does not start with `---` or no later line strips to `---`. |
| ReplaceMdLinks.ConvertNewlinesPreserveCodeblocks | replace_md_links.py:39-69 | The loop returns the `<br>` join of the pieces read off the lines by the reference definition. |
| ReplaceMdLinks.ConvertLine | replace_md_links.py:51-67 | One turn of the loop is one step of the conversion state machine. |
| ReplaceMdLinks.FeedRenders | replace_md_links.py:44-69 | The state machine run from the start state produces the reference pieces. |
| ReplaceMdLinks.FeedInside | replace_md_links.py:51-65 | Inside a block, the lines up to the next fence join the block, which is emitted at that fence. With no later fence, nothing more is emitted. |
| ReplaceMdLinks.RenderPlain | replace_md_links.py:64-69 | Without fence lines, every line is a piece of its own, so the result is the lines joined by `<br>`. |
| ReplaceMdLinks.RenderAppend | replace_md_links.py:50-67 | After text that closes all its code blocks, the pieces of what follows are appended independently. |
| ReplaceMdLinks.UnclosedFenceDropped | replace_md_links.py:52-65 | A fence that is never closed drops itself and every line after it. |
| ReplaceMdLinks.CodeBlockShape | replace_md_links.py:57-63 | A code block is `<pre><code` … its lines joined by `&#10;` … `</code></pre>`. It has a `class="language-…"` attribute exactly when the fence names a language. |
| ReplaceMdLinks.TargetName | replace_md_links.py:85-93 | The target name always ends in `.md`. |
| ReplaceMdLinks.TargetNameNoAlias | replace_md_links.py:87-90 | Without an escaped pipe (backslash, pipe) in the link, the alias after the first pipe is cut off, so the name contains no pipe. |
| ReplaceMdLinks.TargetNamePlain | replace_md_links.py:85-93 | A link without a pipe names its stripped text, with `.md` added unless already there. |
| ReplaceMdLinks.TargetNameIdempotent | replace_md_links.py:85-93 | Normalising a name a second time changes nothing, for links without an escaped pipe. |
| ReplaceMdLinks.ReplacementShape | replace_md_links.py:97-102 | An unreadable note leaves `[[inner]]` in place. A readable note without fences is put in as its stripped, frontmatter-free lines joined by `<br>`. |
| RenameFrontmatterKey.SpaceRunFacts | rename_frontmatter_key.py:30 | The whitespace run at a position is all whitespace and as long as it can be. |
| RenameFrontmatterKey.GroupLengthLongest | rename_frontmatter_key.py:30 | The group `(\s*)` is the longest whitespace prefix that `old:` follows, as the backtracking matcher settles on it. With no result, no prefix is followed by `old:`. |
| RenameFrontmatterKey.MatchAtFacts | rename_frontmatter_key.py:30 | A match starts at a line start and its group is whitespace. No longer whitespace group is followed by the key, and a failed match at a line start has no group at all. |
| RenameFrontmatterKey.MatchAtKey | rename_frontmatter_key.py:30 | A match ends in `old:` right after its group. |
| RenameFrontmatterKey.SplitShape | rename_frontmatter_key.py:23-28 | `split('---', 2)` of text starting with `---` has three parts exactly when another `---` follows. The text is then `---` + frontmatter + `---` + body, and the frontmatter holds no `---`. |
| RenameFrontmatterKey.RenameShape | rename_frontmatter_key.py:20-40 | An unchanged outcome keeps the text. A changed one has a template that parses, and is `---` + the frontmatter substituted with that template + `---` + the body, byte for byte. |
| RenameFrontmatterKey.ChangedIff | rename_frontmatter_key.py:20-44 | For a plain new key, a file is rewritten exactly when it starts with `---`, has a closing `---`, its frontmatter has a line starting with `old:` after optional whitespace, and the keys differ. |
| RenameFrontmatterKey.SameKeyUnchanged | rename_frontmatter_key.py:35-38 | Renaming a plain key to itself never rewrites a file. |
| RenameFrontmatterKey.SameKeyIdentity | rename_frontmatter_key.py:35-38 | Substituting a key by the group and that same key gives the text back. |
| RenameFrontmatterKey.NoKeyUnchanged | rename_frontmatter_key.py:32-35 | Without a match the substitution gives the text back, whatever the template. |
| RenameFrontmatterKey.NoMatchCopied | rename_frontmatter_key.py:35 | Text without a match is copied by the substitution. |
| RenameFrontmatterKey.SubstituteChanges | rename_frontmatter_key.py:35-38 | With a match and a different plain new key, the substituted frontmatter always differs from the old one. |
| RenameFrontmatterKey.Escape | rename_frontmatter_key.py:35 | An escape of the template that parses takes its backslash and at least one more character, and any group it refers to exists in `^(\s*)old:`. |
| RenameFrontmatterKey.GroupEscape | rename_frontmatter_key.py:35 | `\g<n>` parses only as one reference to an existing group. |
| RenameFrontmatterKey.ZeroEscape | rename_frontmatter_key.py:35 | `\0` and up to two more octal digits is one literal character. |
| RenameFrontmatterKey.DigitEscape | rename_frontmatter_key.py:35 | `\` and a digit parses as one piece, and a reference only to an existing group. |
| RenameFrontmatterKey.ParseTemplate | rename_frontmatter_key.py:35 | A parsed template refers only to groups the pattern has. |
| RenameFrontmatterKey.LiteralTemplate | rename_frontmatter_key.py:35 | A template without a backslash stands for its own characters. |
| RenameFrontmatterKey.PlainTemplate | rename_frontmatter_key.py:35 | For a new key without a backslash and not starting with a digit, `\1new:` is group 1, then the key and the colon as written. |
| RenameFrontmatterKey.ExpandLits | rename_frontmatter_key.py:35 | Literal pieces expand to the text they came from. |
| RenameFrontmatterKey.ExpandPlain | rename_frontmatter_key.py:35 | The plain template expands at a match to its group, the new key and the colon. |
| RenameFrontmatterKey.DigitKeyRejected | rename_frontmatter_key.py:35 | A new key that starts with a digit, without a second octal digit after an octal first, makes `\1` and that digit a reference to group 10 to 19, which does not exist, so the template is an error. |
| RenameFrontmatterKey.OctalKeyDropsGroup | rename_frontmatter_key.py:35 | A new key starting with two octal digits makes `\1` and them one octal character; the template then no longer starts with the group, so the indentation is not kept. |
| RenameFrontmatterKey.TemplateErrorUnchanged | rename_frontmatter_key.py:35-48 | A template that raises inside `sub` is caught by the handler, and the file is reported unchanged. |
| CheckYamlFrontmatter.CheckForYamlFrontmatter | check_yaml_frontmatter.py:4-25 | The result is true exactly when the file is readable, its first line strips to `---`, and some later line does. An empty or unreadable file gives false. |
| CheckYamlFrontmatter.DelimiterIsDashLine | check_yaml_frontmatter.py:17-21 | A line equal to `---` once stripped also starts with `---` once stripped. |
| CheckYamlFrontmatter.FrontmatterAgrees | check_yaml_frontmatter.py:17-21 | Lines with YAML frontmatter also have a non-empty frontmatter for reorder_columns.py, of at least two lines, with no `---` line inside it. |
| CheckYamlFrontmatter.DashLineNotDelimiter | check_yaml_frontmatter.py:17 | The converse fails: `----` is a delimiter for reorder_columns.py but not here. |
| CheckYamlFrontmatter.ProcessFolder | check_yaml_frontmatter.py:38-50 | The loop counts the `.md` files and those with frontmatter, and lists the paths of the others in walk order. |
| CheckYamlFrontmatter.CountsPartition | check_yaml_frontmatter.py:38-50 | Files with frontmatter plus files listed without it equal the total. |
| CheckYamlFrontmatter.MissingExactly | check_yaml_frontmatter.py:44-50 | A path is listed exactly when it belongs to a Markdown file without frontmatter. |
| CheckYamlFrontmatter.NonMarkdownIgnored | check_yaml_frontmatter.py:44 | A file not ending in `.md` changes none of the counts. |

## Left out

- All file reading and writing, `argparse` or `sys.argv` handling, `print`
  reports and exit codes, in every script. Inputs are given as text or
  lines, and outputs are returned as values. split_by_year.py's writes are
  collected as a list of (name, content) pairs.
- reduce_image_size.py, convert_date_format.py, remove_tag.py and
  remove_empty_links.py are not part of this model. They consist of a foreign
  image library, date formatting with caller-given format strings,
  case-insensitive Unicode regular expressions, and a filesystem existence
  test.
- `datetime.strptime(..., "%B %d, %Y")` in split_by_year.py is the parameter
  `strptime`, an arbitrary function from text to an optional year. The
  calendar parsing itself is outside the model.
- The `os.walk` traversal and `os.path.join` in check_yaml_frontmatter.py: the walk is
  given as a sequence of files in walk order. Each file has its name, its joined path,
  and its lines or `None` when reading fails. The `isdir` check on the folder is left
  out with the other I/O.
- `ReplaceMdLinks.ReplacementShape`: the `re.sub` scan for `[[…]]` links in
  replace_md_links.py (lines 82 and 104) is not modelled, and neither is
  the path join of line 95. The note lookup is a parameter `read` from a
  note name to its optional text. The model covers read_file_content's
  frontmatter handling, the code-block conversion and the name
  normalisation applied to one link. Nor is the write of the rewritten note:
  replace_links_with_content reads the note it rewrites through
  read_file_content (line 74), which drops its frontmatter, and writes
  `new_content` back (lines 104-108), so the note loses its own frontmatter.
- The exception handlers that turn any error into `False` or `None` are
  modelled for reading, where an unreadable file is `None`, and for the
  replacement template of rename_frontmatter_key.py, whose errors give an
  unchanged outcome. Other errors are out of scope.
- `PyStr.IsSpace`: the regular expression class `\s` is taken to match
  the characters `str.isspace()` accepts, as it does for `str` patterns in
  CPython; the list of those characters is written out, not derived from
  the Unicode database.
- `PyStr.ParseInt`: `int()` is modelled on ASCII digits with optional single
  underscores between them; non-ASCII decimal digits are left out.
- `SplitByYear.ShowInt`: `str(year)` is modelled for the integers the date
  parser returns, without any width limit.
- `RenameFrontmatterKey.ChangedIff`: stated for a plain new key, one with no
  backslash and no leading digit. Python reads the new key as part of the
  template `\1new:`. `\b` in it becomes a backspace and `\t` a tab, and a
  leading digit joins the `\1` as a group number or an octal escape. The
  changed-exactly-when-the-keys-differ rule does not hold for such keys.
  `Rename` still parses them as Python does, and `DigitKeyRejected`,
  `OctalKeyDropsGroup` and `TemplateErrorUnchanged` state what then happens.
- `RenameFrontmatterKey.SameKeyUnchanged`: stated for a plain key, for the
  same reason. A key such as `a\b` renamed to itself is rewritten with a
  backspace.
- `RenameFrontmatterKey.SubstituteChanges` and
  `RenameFrontmatterKey.SameKeyIdentity`: stated for the template of a plain
  key, the group followed by the key as written.
- `RenameFrontmatterKey.GroupEscape`: the template rules are those of
  Python 3.12's `re` module. `\g<n>` takes ASCII digits only. The older
  acceptance of a sign, spaces, underscores or other decimal digits in `n`
  is left out.
