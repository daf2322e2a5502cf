/** Model of check_yaml_frontmatter.py: a note has YAML frontmatter when its
    first line and some later line are both `---` (up to surrounding
    whitespace), and a folder scan counts the Markdown notes with and
    without it. */
module CheckYamlFrontmatter {
  import opened Wrappers
  import opened PyStr
  import ReorderColumns

  // ------------------------------------------------------------ check_for_yaml_frontmatter

  /** The lines of a readable file (as `readline` and iteration give them)
      open and close a frontmatter block. An empty file has no first line
      and so no frontmatter. */
  predicate HasYamlFrontmatter(lines: seq<string>) {
    && |lines| >= 1
    && IsYamlDelimiter(lines[0])
    && exists k :: 1 <= k < |lines| && IsYamlDelimiter(lines[k])
  }

  /** A file as check_for_yaml_frontmatter sees it: its lines, or `None`
      when opening or reading it fails, which check_for_yaml_frontmatter
      reports as no frontmatter. */
  predicate FileHasFrontmatter(file: Option<seq<string>>) {
    file.Some? && HasYamlFrontmatter(file.value)
  }

  /** check_for_yaml_frontmatter: reject a file whose first line is not a
      delimiter, then look for the first later delimiter line. */
  method CheckForYamlFrontmatter(file: Option<seq<string>>) returns (found: bool)
    ensures found == FileHasFrontmatter(file)
    ensures found ==> file.Some? && |file.value| >= 2 && IsYamlDelimiter(file.value[0])
  {
    if file.None? {
      return false;
    }
    var lines := file.value;
    if lines == [] || !IsYamlDelimiter(lines[0]) {
      return false;
    }
    var i := 1;
    while i < |lines|
      invariant 1 <= i <= |lines|
      invariant forall k :: 1 <= k < i ==> !IsYamlDelimiter(lines[k])
    {
      if IsYamlDelimiter(lines[i]) {
        return true;
      }
      i := i + 1;
    }
    return false;
  }

  /** A delimiter line also opens or closes the frontmatter that
      reorder_columns.py looks for, whose test is only `startswith`. */
  lemma DelimiterIsDashLine(line: string)
    requires IsYamlDelimiter(line)
    ensures ReorderColumns.IsDashLine(line)
  {
    assert Strip(line)[..3] == "---";
  }

  /** Lines with YAML frontmatter have a non-empty frontmatter block for
      reorder_columns.py too: from line 0 to a closing line no later than
      the first later delimiter. */
  lemma {:induction false} FrontmatterAgrees(lines: seq<string>)
    requires HasYamlFrontmatter(lines)
    ensures var fm := ReorderColumns.Frontmatter(lines);
      && fm != []
      && 2 <= |fm|
      && forall k :: 1 <= k < |fm| - 1 ==> !IsYamlDelimiter(lines[k])
  {
    var k :| 1 <= k < |lines| && IsYamlDelimiter(lines[k]);
    DelimiterIsDashLine(lines[0]);
    DelimiterIsDashLine(lines[k]);
    ReorderColumns.FrontmatterShape(lines);
    var fm := ReorderColumns.Frontmatter(lines);
    forall m | 1 <= m < |fm| - 1
      ensures !IsYamlDelimiter(lines[m])
    {
      assert fm[m] == lines[m];
      if IsYamlDelimiter(lines[m]) {
        DelimiterIsDashLine(lines[m]);
      }
    }
  }

  /** The converse fails: a line of four dashes closes the frontmatter of
      reorder_columns.py but is no YAML delimiter. */
  lemma DashLineNotDelimiter()
    ensures ReorderColumns.IsDashLine("----") && !IsYamlDelimiter("----")
  {
    StripOf([], "----", []);
    assert [] + "----" + [] == "----";
  }

  // ------------------------------------------------------------ process_folder

  /** A file met by the walk: its name, the path joined from its directory
      and name, and its lines (`None` when it cannot be read). */
  datatype WalkedFile = WalkedFile(name: string, path: string, lines: Option<seq<string>>)

  predicate IsMarkdown(f: WalkedFile) {
    EndsWith(f.name, ".md")
  }

  predicate Found(f: WalkedFile) {
    FileHasFrontmatter(f.lines)
  }

  /** The number of Markdown files among `files`. */
  function MarkdownCount(files: seq<WalkedFile>): nat {
    if files == [] then 0
    else MarkdownCount(files[..|files| - 1]) + (if IsMarkdown(files[|files| - 1]) then 1 else 0)
  }

  /** The number of Markdown files with frontmatter among `files`. */
  function WithCount(files: seq<WalkedFile>): nat {
    if files == [] then 0
    else
      var f := files[|files| - 1];
      WithCount(files[..|files| - 1]) + (if IsMarkdown(f) && Found(f) then 1 else 0)
  }

  /** The paths of the Markdown files without frontmatter, in walk order. */
  function Missing(files: seq<WalkedFile>): seq<string> {
    if files == [] then []
    else
      var f := files[|files| - 1];
      Missing(files[..|files| - 1]) + (if IsMarkdown(f) && !Found(f) then [f.path] else [])
  }

  /** process_folder's counting loop over the files of the walk, in the
      order the walk yields them. */
  method ProcessFolder(files: seq<WalkedFile>)
    returns (total: nat, withFrontmatter: nat, without: seq<string>)
    ensures total == MarkdownCount(files)
    ensures withFrontmatter == WithCount(files)
    ensures without == Missing(files)
  {
    total, withFrontmatter, without := 0, 0, [];
    var i := 0;
    while i < |files|
      invariant 0 <= i <= |files|
      invariant total == MarkdownCount(files[..i])
      invariant withFrontmatter == WithCount(files[..i])
      invariant without == Missing(files[..i])
    {
      var f := files[i];
      assert files[..i + 1][..i] == files[..i];
      if EndsWith(f.name, ".md") {
        total := total + 1;
        var found := CheckForYamlFrontmatter(f.lines);
        if found {
          withFrontmatter := withFrontmatter + 1;
        } else {
          without := without + [f.path];
        }
      }
      i := i + 1;
    }
    assert files[..i] == files;
  }

  /** Every Markdown file is counted once: with frontmatter or listed as
      missing it. */
  lemma {:induction false} CountsPartition(files: seq<WalkedFile>)
    ensures WithCount(files) + |Missing(files)| == MarkdownCount(files)
  {
    if files != [] {
      CountsPartition(files[..|files| - 1]);
    }
  }

  /** The files listed as missing frontmatter are exactly the Markdown files
      without it. */
  lemma {:induction false} MissingExactly(files: seq<WalkedFile>, p: string)
    ensures p in Missing(files)
      <==> exists i :: 0 <= i < |files| && files[i].path == p && IsMarkdown(files[i]) && !Found(files[i])
  {
    if files != [] {
      var init := files[..|files| - 1];
      MissingExactly(init, p);
      if exists i :: 0 <= i < |init| && init[i].path == p && IsMarkdown(init[i]) && !Found(init[i]) {
        var i :| 0 <= i < |init| && init[i].path == p && IsMarkdown(init[i]) && !Found(init[i]);
        assert files[i] == init[i];
      }
      if exists i :: 0 <= i < |files| && files[i].path == p && IsMarkdown(files[i]) && !Found(files[i]) {
        var i :| 0 <= i < |files| && files[i].path == p && IsMarkdown(files[i]) && !Found(files[i]);
        if i < |init| {
          assert init[i] == files[i];
        }
      }
    }
  }

  /** Files that are not Markdown notes change none of the counts. */
  lemma {:induction false} NonMarkdownIgnored(files: seq<WalkedFile>, f: WalkedFile)
    requires !IsMarkdown(f)
    ensures MarkdownCount(files + [f]) == MarkdownCount(files)
    ensures WithCount(files + [f]) == WithCount(files)
    ensures Missing(files + [f]) == Missing(files)
  {
    assert (files + [f])[..|files|] == files;
  }
}
