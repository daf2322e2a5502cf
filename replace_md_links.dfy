/** Model of the text transformations of replace_md_links.py: a `[[name]]`
    link is replaced by the text of the note it names, with that note's
    frontmatter dropped, its newlines turned into `<br>` and its fenced code
    blocks turned into HTML so that the whole text fits in one table cell. */
module ReplaceMdLinks {
  import opened Wrappers
  import opened Lists
  import opened PyStr

  // ------------------------------------------------------------ read_file_content

  /** `s.lstrip('\n')` */
  function LStripNewlines(s: string): (r: string)
    ensures |r| <= |s| && r == s[|s| - |r|..]
    ensures forall k :: 0 <= k < |s| - |r| ==> s[k] == '\n'
    ensures r == [] || r[0] != '\n'
    decreases |s|
  {
    if s != [] && s[0] == '\n' then LStripNewlines(s[1..]) else s
  }

  /** The text read_file_content returns for a file of text `content`: when
      the text starts with `---` and a later line strips to `---`, the lines
      after that closing line, with leading newlines removed; otherwise the
      text as it is. */
  function WithoutFrontmatter(content: string): string {
    if !StartsWith(content, "---") then content
    else
      var lines := Split(content, "\n");
      match FirstFrom(lines, 1, IsYamlDelimiter)
      case None => content
      case Some(c) => LStripNewlines(Join(lines[c + 1..], "\n"))
  }

  /** The frontmatter handling of read_file_content, once the file is read. */
  method StripFrontmatter(content: string) returns (r: string)
    ensures r == WithoutFrontmatter(content)
  {
    r := content;
    if StartsWith(content, "---") {
      var lines := Split(content, "\n");
      var closingIndex: int := -1;
      var i := 1;
      while i < |lines|
        invariant 1 <= i <= |lines|
        invariant FirstFrom(lines, 1, IsYamlDelimiter) == FirstFrom(lines, i, IsYamlDelimiter)
      {
        if Strip(lines[i]) == "---" {
          closingIndex := i;
          break;
        }
        FirstFromStep(lines, i, IsYamlDelimiter);
        i := i + 1;
      }
      if closingIndex != -1 {
        r := LStripNewlines(Join(lines[closingIndex + 1..], "\n"));
      }
    }
  }

  /** What is left is always the end of the text: the frontmatter and the
      newlines after it are cut off in front, and nothing else changes. */
  lemma WithoutFrontmatterIsSuffix(content: string)
    ensures EndsWith(content, WithoutFrontmatter(content))
  {
    if StartsWith(content, "---") {
      var lines := Split(content, "\n");
      match FirstFrom(lines, 1, IsYamlDelimiter)
      case None =>
        assert content[|content| - |content|..] == content;
      case Some(c) =>
        CutIsSuffix(content, c);
    }
  }

  /** The text after the closing line `c`, without its leading newlines, is
      an end of the text. */
  lemma CutIsSuffix(content: string, c: nat)
    requires content != [] && c < |Split(content, "\n")|
    ensures EndsWith(content, LStripNewlines(Join(Split(content, "\n")[c + 1..], "\n")))
  {
    var body := Join(Split(content, "\n")[c + 1..], "\n");
    FrontmatterCut(content, c);
    SuffixOfSuffix(content, body, LStripNewlines(body));
  }

  /** The end of an end of a text is an end of the text. */
  lemma SuffixOfSuffix(a: string, b: string, c: string)
    requires |b| <= |a| && a[|a| - |b|..] == b
    requires |c| <= |b| && c == b[|b| - |c|..]
    ensures EndsWith(a, c)
  {
    assert a[|a| - |c|..] == b[|b| - |c|..];
  }

  /** The text is the frontmatter lines up to line `c`, a newline and the
      lines after them. */
  lemma FrontmatterCut(content: string, c: nat)
    requires content != [] && c < |Split(content, "\n")|
    ensures var lines := Split(content, "\n");
      var body := Join(lines[c + 1..], "\n");
      content == Join(lines[..c + 1], "\n") + "\n" + body || (c + 1 == |lines| && body == [])
    ensures var lines := Split(content, "\n");
      var body := Join(lines[c + 1..], "\n");
      |body| < |content| && content[|content| - |body|..] == body
  {
    var lines := Split(content, "\n");
    JoinSplit(content, "\n");
    var head, tail := lines[..c + 1], lines[c + 1..];
    assert lines == head + tail;
    if tail != [] {
      JoinAppend(head, tail, "\n");
      var h := Join(head, "\n") + "\n";
      assert content == h + Join(tail, "\n");
      assert content[|h|..] == Join(tail, "\n");
    } else {
      assert Join(tail, "\n") == [];
      assert content[|content|..] == [];
    }
  }

  /** The text comes back unchanged exactly when it does not start with `---`
      or no later line strips to `---`. */
  lemma WithoutFrontmatterUnchanged(content: string)
    ensures WithoutFrontmatter(content) == content
      <==> (!StartsWith(content, "---")
            || forall k :: 1 <= k < |Split(content, "\n")| ==> !IsYamlDelimiter(Split(content, "\n")[k]))
  {
    if StartsWith(content, "---") {
      var lines := Split(content, "\n");
      match FirstFrom(lines, 1, IsYamlDelimiter)
      case None =>
      case Some(c) =>
        FrontmatterCut(content, c);
    }
  }

  // ------------------------------------------------------------ convert_newlines_preserve_codeblocks

  /** A line that opens or closes a code block: once stripped, it starts with
      three backticks. */
  predicate IsFence(line: string) {
    StartsWith(Strip(line), "```")
  }

  /** `line.strip()[3:].strip()`: the language named after an opening fence. */
  function FenceLanguage(line: string): string {
    var t := Strip(line);
    Strip(if |t| <= 3 then [] else t[3..])
  }

  /** The HTML element a closed code block becomes: its lines joined by
      `&#10;`, with a language class when the opening fence names one. */
  function CodeBlock(language: string, code: seq<string>): string {
    var text := Join(code, "&#10;");
    if language != [] then "<pre><code class=\"language-" + language + "\">" + text + "</code></pre>"
    else "<pre><code>" + text + "</code></pre>"
  }

  /** The pieces the conversion joins with `<br>`, read off the lines from
      the front: a line outside a code block is kept; a fence and the lines up
      to the next fence become one code block; a fence that is never closed
      drops itself and every line after it. */
  function Render(lines: seq<string>): seq<string>
    decreases |lines|
  {
    if lines == [] then []
    else if !IsFence(lines[0]) then [lines[0]] + Render(lines[1..])
    else
      var rest := lines[1..];
      match FirstFrom(rest, 0, IsFence)
      case None => []
      case Some(c) => [CodeBlock(FenceLanguage(lines[0]), rest[..c])] + Render(rest[c + 1..])
  }

  /** The value of convert_newlines_preserve_codeblocks. */
  function ConvertedText(content: string): string {
    Join(Render(Split(content, "\n")), "<br>")
  }

  /** The variables of the conversion loop. */
  datatype Converter = Converter(result: seq<string>, inCodeblock: bool, language: string,
                                 codeLines: seq<string>)

  /** One turn of the conversion loop. A closing fence leaves the language and
      the collected lines as they are; the next opening fence resets them. */
  function Feed(st: Converter, line: string): Converter {
    if IsFence(line) then
      if !st.inCodeblock then Converter(st.result, true, FenceLanguage(line), [])
      else Converter(st.result + [CodeBlock(st.language, st.codeLines)], false, st.language, st.codeLines)
    else if st.inCodeblock then st.(codeLines := st.codeLines + [line])
    else st.(result := st.result + [line])
  }

  /** The loop run from state `st` over `lines`. */
  function FeedAll(st: Converter, lines: seq<string>): Converter
    decreases |lines|
  {
    if lines == [] then st else FeedAll(Feed(st, lines[0]), lines[1..])
  }

  /** The loop's state before the first line. */
  const Start := Converter([], false, [], [])

  /** convert_newlines_preserve_codeblocks */
  method ConvertNewlinesPreserveCodeblocks(content: string) returns (out: string)
    ensures out == ConvertedText(content)
  {
    var result: seq<string> := [];
    var inCodeblock := false;
    var codeblockLanguage: string := [];
    var codeblockLines: seq<string> := [];
    var lines := Split(content, "\n");
    var i := 0;
    while i < |lines|
      invariant i <= |lines|
      invariant FeedAll(Converter(result, inCodeblock, codeblockLanguage, codeblockLines), lines[i..])
        == FeedAll(Start, lines)
    {
      ghost var before := Converter(result, inCodeblock, codeblockLanguage, codeblockLines);
      result, inCodeblock, codeblockLanguage, codeblockLines :=
        ConvertLine(lines[i], result, inCodeblock, codeblockLanguage, codeblockLines);
      FeedStep(before, lines, i, Converter(result, inCodeblock, codeblockLanguage, codeblockLines));
      i := i + 1;
    }
    FeedRenders(lines);
    return Join(result, "<br>");
  }

  /** The body of the conversion loop for one line. */
  method ConvertLine(line: string, result: seq<string>, inCodeblock: bool, codeblockLanguage: string,
                     codeblockLines: seq<string>)
    returns (result': seq<string>, inCodeblock': bool, codeblockLanguage': string,
             codeblockLines': seq<string>)
    ensures Converter(result', inCodeblock', codeblockLanguage', codeblockLines')
      == Feed(Converter(result, inCodeblock, codeblockLanguage, codeblockLines), line)
  {
    result', inCodeblock', codeblockLanguage', codeblockLines' :=
      result, inCodeblock, codeblockLanguage, codeblockLines;
    if StartsWith(Strip(line), "```") {
      if !inCodeblock {
        inCodeblock' := true;
        codeblockLanguage' := FenceLanguage(line);
        codeblockLines' := [];
      } else {
        inCodeblock' := false;
        var codeContent := Join(codeblockLines, "&#10;");
        if codeblockLanguage != [] {
          result' := result + ["<pre><code class=\"language-" + codeblockLanguage + "\">" + codeContent + "</code></pre>"];
        } else {
          result' := result + ["<pre><code>" + codeContent + "</code></pre>"];
        }
      }
    } else if inCodeblock {
      codeblockLines' := codeblockLines + [line];
    } else {
      result' := result + [line];
    }
  }

  /** The loop invariant moves one line on. */
  lemma FeedStep(st: Converter, lines: seq<string>, i: nat, st': Converter)
    requires i < |lines| && st' == Feed(st, lines[i])
    ensures FeedAll(st, lines[i..]) == FeedAll(st', lines[i + 1..])
  {
    assert lines[i..][1..] == lines[i + 1..];
  }

  /** The loop computes the pieces Render reads off the lines. */
  lemma FeedRenders(lines: seq<string>)
    ensures FeedAll(Start, lines).result == Render(lines)
  {
    FeedOutside([], [], [], lines);
    assert [] + Render(lines) == Render(lines);
  }

  /** From outside a code block, the loop appends the pieces of the rest. */
  lemma {:induction false} FeedOutside(result: seq<string>, language: string, code: seq<string>,
                                       lines: seq<string>)
    ensures FeedAll(Converter(result, false, language, code), lines).result == result + Render(lines)
    decreases |lines|, 1
  {
    if lines == [] {
      assert result + [] == result;
    } else if !IsFence(lines[0]) {
      OutsideLine(result, language, code, lines);
    } else {
      OutsideFence(result, language, code, lines);
    }
  }

  /** FeedOutside for a line that is kept. */
  lemma {:induction false} OutsideLine(result: seq<string>, language: string, code: seq<string>,
                                       lines: seq<string>)
    requires lines != [] && !IsFence(lines[0])
    ensures FeedAll(Converter(result, false, language, code), lines).result == result + Render(lines)
    decreases |lines|, 0
  {
    FeedOutside(result + [lines[0]], language, code, lines[1..]);
    Associative(result, [lines[0]], Render(lines[1..]));
  }

  /** FeedOutside for a fence that opens a code block. */
  lemma {:induction false} OutsideFence(result: seq<string>, language: string, code: seq<string>,
                                        lines: seq<string>)
    requires lines != [] && IsFence(lines[0])
    ensures FeedAll(Converter(result, false, language, code), lines).result == result + Render(lines)
    decreases |lines|, 0
  {
    var rest := lines[1..];
    FeedInside(result, FenceLanguage(lines[0]), [], rest);
    match FirstFrom(rest, 0, IsFence)
    case None =>
      assert result + [] == result;
    case Some(c) =>
      assert [] + rest[..c] == rest[..c];
      Associative(result, [CodeBlock(FenceLanguage(lines[0]), rest[..c])], Render(rest[c + 1..]));
  }

  /** Inside a code block opened with `language` that has collected `code`,
      the loop closes the block at the next fence and goes on outside; with
      no fence left, nothing more is appended. */
  lemma {:induction false} FeedInside(result: seq<string>, language: string, code: seq<string>,
                                      lines: seq<string>)
    ensures FeedAll(Converter(result, true, language, code), lines).result
      == match FirstFrom(lines, 0, IsFence)
         case None => result
         case Some(c) => result + [CodeBlock(language, code + lines[..c])] + Render(lines[c + 1..])
    decreases |lines|, 1
  {
    if lines == [] {
    } else if IsFence(lines[0]) {
      InsideFence(result, language, code, lines);
    } else {
      InsideLine(result, language, code, lines);
    }
  }

  /** FeedInside for the fence that closes the block. */
  lemma {:induction false} InsideFence(result: seq<string>, language: string, code: seq<string>,
                                       lines: seq<string>)
    requires lines != [] && IsFence(lines[0])
    ensures FeedAll(Converter(result, true, language, code), lines).result
      == result + [CodeBlock(language, code + lines[..0])] + Render(lines[1..])
    ensures FirstFrom(lines, 0, IsFence) == Some(0)
    decreases |lines|, 0
  {
    FeedOutside(result + [CodeBlock(language, code)], language, code, lines[1..]);
    assert code + lines[..0] == code;
  }

  /** FeedInside for a line collected into the block. */
  lemma {:induction false} InsideLine(result: seq<string>, language: string, code: seq<string>,
                                      lines: seq<string>)
    requires lines != [] && !IsFence(lines[0])
    ensures FeedAll(Converter(result, true, language, code), lines).result
      == match FirstFrom(lines, 0, IsFence)
         case None => result
         case Some(c) => result + [CodeBlock(language, code + lines[..c])] + Render(lines[c + 1..])
    decreases |lines|, 0
  {
    FeedInside(result, language, code + [lines[0]], lines[1..]);
    FirstFromTail(lines, IsFence);
    match FirstFrom(lines[1..], 0, IsFence)
    case None =>
    case Some(c) =>
      TailSlices(code, lines, c);
  }

  /** Without fence lines, every line is a piece of its own: the conversion
      only turns newlines into `<br>`. */
  lemma {:induction false} RenderPlain(lines: seq<string>)
    requires forall k :: 0 <= k < |lines| ==> !IsFence(lines[k])
    ensures Render(lines) == lines
    decreases |lines|
  {
    if lines != [] {
      RenderPlain(lines[1..]);
    }
  }

  /** Pieces of text that closes its code blocks are followed by the pieces
      of whatever comes after it: the conversion works block by block. */
  lemma RenderAppend(a: seq<string>, b: seq<string>)
    requires !FeedAll(Start, a).inCodeblock
    ensures Render(a + b) == Render(a) + Render(b)
  {
    FeedAllAppend(Start, a, b);
    FeedRenders(a + b);
    FeedRenders(a);
    var st := FeedAll(Start, a);
    FeedOutside(st.result, st.language, st.codeLines, b);
  }

  /** A fence that is never closed hides the rest of the text: after text
      that closes its code blocks, it and the lines after it add no piece. */
  lemma UnclosedFenceDropped(a: seq<string>, tail: seq<string>)
    requires !FeedAll(Start, a).inCodeblock
    requires tail != [] && IsFence(tail[0])
    requires forall k :: 1 <= k < |tail| ==> !IsFence(tail[k])
    ensures Render(a + tail) == Render(a)
  {
    RenderAppend(a, tail);
  }

  /** Running the loop over two pieces of text runs it over the second from
      where the first left it. */
  lemma {:induction false} FeedAllAppend(st: Converter, a: seq<string>, b: seq<string>)
    ensures FeedAll(st, a + b) == FeedAll(FeedAll(st, a), b)
    decreases |a|
  {
    if a == [] {
      assert a + b == b;
    } else {
      assert (a + b)[1..] == a[1..] + b;
      FeedAllAppend(Feed(st, a[0]), a[1..], b);
    }
  }

  /** Each closed code block is one piece, joined by `&#10;` and marked with
      a language class exactly when the opening fence names a language. */
  lemma CodeBlockShape(language: string, code: seq<string>)
    ensures var b := CodeBlock(language, code);
      var text := Join(code, "&#10;");
      && StartsWith(b, "<pre><code") && EndsWith(b, text + "</code></pre>")
      && (language != [] <==> StartsWith(b, "<pre><code class=\"language-"))
  {
    var b := CodeBlock(language, code);
    var text := Join(code, "&#10;");
    var tail := text + "</code></pre>";
    if language != [] {
      var head := "<pre><code class=\"language-" + language + "\">";
      assert b == head + tail;
      assert b[|b| - |tail|..] == tail;
      assert b[..10] == head[..10];
      assert b[..27] == head[..27];
    } else {
      var head := "<pre><code>";
      assert b == head + tail;
      assert b[|b| - |tail|..] == tail;
      assert b[..10] == head[..10];
      assert b[10] == '>';
    }
  }

  // ------------------------------------------------------------ replace_match

  /** `file_name` after the alias handling: the link text stripped, cut at its
      first `\|` (or else at its first `|`) and stripped again. */
  function LinkStem(inner: string): string {
    var name := Strip(inner);
    if Contains(name, "\\|") then Strip(Split(name, "\\|")[0])
    else if Contains(name, "|") then Strip(Split(name, "|")[0])
    else name
  }

  /** The name of the note a link `[[inner]]` refers to. */
  function TargetName(inner: string): (name: string)
    ensures EndsWith(name, ".md")
  {
    var stem := LinkStem(inner);
    if EndsWith(stem, ".md") then stem
    else
      var r := stem + ".md";
      assert r[|r| - 3..] == ".md";
      r
  }

  /** Without a `\|`, the alias after the first `|` is cut off: the name
      holds no pipe at all. */
  lemma TargetNameNoAlias(inner: string)
    requires !Contains(Strip(inner), "\\|")
    ensures '|' !in TargetName(inner)
  {
    StemNoPipe(inner);
    var stem := LinkStem(inner);
    if !EndsWith(stem, ".md") {
      NoCharAppended(stem, ".md", '|');
    }
  }

  /** Without a `\|`, the stem holds no pipe. */
  lemma StemNoPipe(inner: string)
    requires !Contains(Strip(inner), "\\|")
    ensures '|' !in LinkStem(inner)
  {
    var name := Strip(inner);
    if Contains(name, "|") {
      NoCharBeforeFirst(name, '|');
      StripWithout(Split(name, "|")[0], '|');
    } else {
      NotFoundNoChar(name, '|');
    }
  }

  /** A character in neither part is not in their concatenation. */
  lemma NoCharAppended(a: string, b: string, c: char)
    requires c !in a && c !in b
    ensures c !in a + b
  {
  }

  /** A link without any pipe names its stripped text, with `.md` added
      unless it is already there. */
  lemma TargetNamePlain(inner: string)
    requires '|' !in Strip(inner)
    ensures TargetName(inner)
      == if EndsWith(Strip(inner), ".md") then Strip(inner) else Strip(inner) + ".md"
  {
    var name := Strip(inner);
    NoCharNotFound(name, '|');
    NoLastCharNotFound(name, "\\|");
  }

  /** Normalising a name that holds no `\|` a second time changes nothing. */
  lemma TargetNameIdempotent(inner: string)
    requires !Contains(Strip(inner), "\\|")
    ensures TargetName(TargetName(inner)) == TargetName(inner)
  {
    var y := TargetName(inner);
    TargetNameNoAlias(inner);
    var stem := LinkStem(inner);
    assert Strip(stem) == stem by {
      var name := Strip(inner);
      StripTwice(inner);
      if Contains(name, "|") {
        StripTwice(Split(name, "|")[0]);
      }
    }
    if !EndsWith(stem, ".md") {
      StripAppendMd(stem);
    }
    TargetNamePlain(y);
  }

  /** Adding `.md` to stripped text leaves it stripped. */
  lemma StripAppendMd(t: string)
    requires Strip(t) == t
    ensures Strip(t + ".md") == t + ".md"
  {
    StripFacts(t);
    var u := t + ".md";
    assert u[|u| - 1] == 'd';
    assert u[0] == if t == [] then '.' else t[0];
    StripOf([], u, []);
    assert [] + u + [] == u;
  }

  /** What replace_match puts in place of the link `[[inner]]`. `read` stands
      for read_file_content's file access: the text of the note of that name
      in the folder of the linking file, or None when it cannot be read. The
      note's text loses its frontmatter, is stripped and converted; a note
      that cannot be read leaves the link as it was. */
  function Replacement(inner: string, read: string -> Option<string>): string {
    match read(TargetName(inner))
    case None => "[[" + inner + "]]"
    case Some(content) => ConvertedText(Strip(WithoutFrontmatter(content)))
  }

  /** A readable note without code fences is put in as its lines joined by
      `<br>`; an unreadable one leaves the link text in place. */
  lemma ReplacementShape(inner: string, read: string -> Option<string>)
    ensures read(TargetName(inner)).None? ==> Replacement(inner, read) == "[[" + inner + "]]"
    ensures read(TargetName(inner)).Some? ==>
      var lines := Split(Strip(WithoutFrontmatter(read(TargetName(inner)).value)), "\n");
      (forall k :: 0 <= k < |lines| ==> !IsFence(lines[k])) ==>
        Replacement(inner, read) == Join(lines, "<br>")
  {
    if read(TargetName(inner)).Some? {
      var lines := Split(Strip(WithoutFrontmatter(read(TargetName(inner)).value)), "\n");
      if forall k :: 0 <= k < |lines| ==> !IsFence(lines[k]) {
        RenderPlain(lines);
      }
    }
  }
}
