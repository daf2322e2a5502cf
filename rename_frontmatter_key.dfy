/** Model of rename_frontmatter_key.py: in the frontmatter of a Markdown
    note, every key `old:` that starts a line (after optional whitespace)
    becomes `new:`, and the note is reported changed when that alters its
    text. */
module RenameFrontmatterKey {
  import opened Wrappers
  import opened Lists
  import opened PyStr

  // ------------------------------------------------------------ the pattern ^(\s*)old:

  /** `^` under `re.MULTILINE` matches at index `j`. */
  predicate LineStart(s: string, j: nat) {
    j == 0 || (j <= |s| && s[j - 1] == '\n')
  }

  /** The length of the run of whitespace starting at index `j`. */
  function SpaceRun(s: string, j: nat): (n: nat)
    requires j <= |s|
    ensures j + n <= |s|
    decreases |s| - j
  {
    if j < |s| && IsSpace(s[j]) then 1 + SpaceRun(s, j + 1) else 0
  }

  /** The run is all whitespace and as long as it can be. */
  lemma {:induction false} SpaceRunFacts(s: string, j: nat)
    requires j <= |s|
    ensures forall m :: j <= m < j + SpaceRun(s, j) ==> IsSpace(s[m])
    ensures j + SpaceRun(s, j) == |s| || !IsSpace(s[j + SpaceRun(s, j)])
    decreases |s| - j
  {
    if j < |s| && IsSpace(s[j]) {
      SpaceRunFacts(s, j + 1);
    }
  }

  /** The group `(\s*)` the matcher settles on: it tries the longest run of
      whitespace first and gives back one character at a time until `pat`
      follows. */
  function GroupLength(s: string, j: nat, pat: string, k: nat): (r: Option<nat>)
    requires j + k <= |s|
    ensures r.Some? ==> r.value <= k && j + r.value + |pat| <= |s|
    decreases k
  {
    if OccursAt(s, pat, j + k) then Some(k)
    else if k == 0 then None
    else GroupLength(s, j, pat, k - 1)
  }

  /** `pat` follows the group, and the group is the longest one it follows. */
  lemma {:induction false} GroupLengthLongest(s: string, j: nat, pat: string, k: nat)
    requires j + k <= |s|
    ensures var r := GroupLength(s, j, pat, k);
      && (r.Some? ==> OccursAt(s, pat, j + r.value))
      && (r.Some? ==> forall q :: j + r.value < q <= j + k ==> !OccursAt(s, pat, q))
      && (r.None? ==> forall q :: j <= q <= j + k ==> !OccursAt(s, pat, q))
    decreases k
  {
    if !OccursAt(s, pat, j + k) && k > 0 {
      GroupLengthLongest(s, j, pat, k - 1);
    }
  }

  /** The match of `^(\s*)key:` at index `j`, as the length of its group. */
  function MatchAt(s: string, j: nat, key: string): (r: Option<nat>)
    requires j <= |s|
    ensures r.Some? ==> j + r.value + |key| + 1 <= |s|
  {
    if LineStart(s, j) then GroupLength(s, j, key + ":", SpaceRun(s, j)) else None
  }

  /** A match ends in `key:` behind its group. */
  lemma MatchAtKey(s: string, j: nat, key: string)
    requires j <= |s| && MatchAt(s, j, key).Some?
    ensures var e := j + MatchAt(s, j, key).value; s[e..e + |key| + 1] == key + ":"
  {
    GroupLengthLongest(s, j, key + ":", SpaceRun(s, j));
  }

  /** A match starts at a line start, its group is whitespace, and no longer
      group of whitespace is followed by `key:`. */
  lemma MatchAtFacts(s: string, j: nat, key: string)
    requires j <= |s|
    ensures var r := MatchAt(s, j, key);
      && (r.Some? ==> LineStart(s, j) && forall m :: j <= m < j + r.value ==> IsSpace(s[m]))
      && (r.Some? ==> forall q :: j + r.value < q <= j + SpaceRun(s, j) ==> !OccursAt(s, key + ":", q))
      && (r.None? && LineStart(s, j) ==> forall q :: j <= q <= j + SpaceRun(s, j) ==> !OccursAt(s, key + ":", q))
  {
    if LineStart(s, j) {
      SpaceRunFacts(s, j);
      GroupLengthLongest(s, j, key + ":", SpaceRun(s, j));
    }
  }

  /** `key_regex.search(s)` finds a match. */
  predicate HasKey(s: string, key: string) {
    exists j :: 0 <= j <= |s| && MatchAt(s, j, key).Some?
  }

  // ------------------------------------------------------------ the template \1new:

  /** A piece of a parsed replacement template: a literal character, or a
      reference to a group of the match, 0 being the whole match. */
  datatype Piece = Lit(c: char) | Ref(group: nat)

  /** The pattern `^(\s*)old:` has one group. */
  const Groups := 1

  /** The replacement `fr"\1{new_key}:"` handed to `key_regex.sub`. */
  function KeyTemplate(newKey: string): string {
    "\\1" + newKey + ":"
  }

  predicate IsOctal(c: char) {
    '0' <= c <= '7'
  }

  predicate IsAsciiLetter(c: char) {
    ('a' <= c <= 'z') || ('A' <= c <= 'Z')
  }

  /** The character a one-letter escape such as `\n` stands for. */
  function EscapeChar(c: char): Option<char> {
    match c
    case 'a' => Some(7 as char)
    case 'b' => Some(8 as char)
    case 'f' => Some(12 as char)
    case 'n' => Some('\n')
    case 'r' => Some('\r')
    case 't' => Some('\t')
    case 'v' => Some(11 as char)
    case '\\' => Some('\\')
    case _ => None
  }

  /** The length of the run of ASCII digits starting at index `j`. */
  function DigitRun(t: string, j: nat): (n: nat)
    requires j <= |t|
    ensures j + n <= |t|
    decreases |t| - j
  {
    if j < |t| && IsDigit(t[j]) then 1 + DigitRun(t, j + 1) else 0
  }

  function Prepend(ps: seq<Piece>, r: Result<seq<Piece>, string>): Result<seq<Piece>, string> {
    match r
    case Ok(rest) => Ok(ps + rest)
    case Err(e) => Err(e)
  }

  /** What one escape of a template stands for, and how many characters of
      the template it takes. */
  datatype Token = Token(pieces: seq<Piece>, width: nat)

  /** The escape at the start of `t`, as Python's `re` module reads it in a
      replacement template for a pattern with `Groups` groups. `\g<n>`
      refers to group `n` by ASCII number; `\0` and digits, and `\` and
      digits, are read by `ZeroEscape` and `DigitEscape`; `\n` and the other
      one-letter escapes stand for a character; `\` and an unknown letter is
      an error; `\` and any other character stands for both characters; a
      lone `\` at the end is an error. */
  function Escape(t: string): (r: Result<Token, string>)
    requires t != [] && t[0] == '\\'
    ensures r.Ok? ==> 2 <= r.value.width <= |t|
    ensures r.Ok? ==> forall i :: 0 <= i < |r.value.pieces| && r.value.pieces[i].Ref? ==> r.value.pieces[i].group <= Groups
  {
    if |t| == 1 then Err("bad escape (end of pattern)")
    else if t[1] == 'g' then GroupEscape(t)
    else if t[1] == '0' then Ok(ZeroEscape(t))
    else if IsDigit(t[1]) then DigitEscape(t)
    else if EscapeChar(t[1]).Some? then Ok(Token([Lit(EscapeChar(t[1]).value)], 2))
    else if IsAsciiLetter(t[1]) then Err("bad escape")
    else Ok(Token([Lit('\\'), Lit(t[1])], 2))
  }

  /** `\g<n>`: a reference to group `n`, written in ASCII digits. */
  function GroupEscape(t: string): (r: Result<Token, string>)
    requires |t| >= 2 && t[..2] == "\\g"
    ensures r.Ok? ==> 2 <= r.value.width <= |t|
    ensures r.Ok? ==> |r.value.pieces| == 1 && r.value.pieces[0].Ref? && r.value.pieces[0].group <= Groups
  {
    if |t| < 3 || t[2] != '<' then Err("missing <")
    else
      var n := DigitRun(t, 3);
      if 3 + n == |t| || t[3 + n] != '>' then Err("bad group name")
      else if n == 0 then Err("missing group name")
      else if DigitsValue(t[3..3 + n]) > Groups then Err("invalid group reference")
      else Ok(Token([Ref(DigitsValue(t[3..3 + n]))], 3 + n + 1))
  }

  /** `\0` and up to two more octal digits: the character with that octal
      code. */
  function ZeroEscape(t: string): (r: Token)
    requires |t| >= 2 && t[1] == '0'
    ensures 2 <= r.width <= |t| && |r.pieces| == 1 && r.pieces[0].Lit?
  {
    if |t| > 2 && IsOctal(t[2]) then
      if |t| > 3 && IsOctal(t[3]) then Token([Lit((8 * DigitValue(t[2]) + DigitValue(t[3])) as char)], 4)
      else Token([Lit(DigitValue(t[2]) as char)], 3)
    else Token([Lit(0 as char)], 2)
  }

  /** `\` and a digit other than 0: three octal digits are an octal escape
      (an error above 0o377), two digits otherwise a two-digit group number,
      one digit a one-digit group number; a group the pattern lacks is an
      error. */
  function DigitEscape(t: string): (r: Result<Token, string>)
    requires |t| >= 2 && IsDigit(t[1]) && t[1] != '0'
    ensures r.Ok? ==> 2 <= r.value.width <= |t| && |r.value.pieces| == 1
    ensures r.Ok? && r.value.pieces[0].Ref? ==> r.value.pieces[0].group <= Groups
  {
    if |t| > 2 && IsDigit(t[2]) then
      if IsOctal(t[1]) && IsOctal(t[2]) && |t| > 3 && IsOctal(t[3]) then
        if 64 * DigitValue(t[1]) + 8 * DigitValue(t[2]) + DigitValue(t[3]) > 255 then
          Err("octal escape value outside of range 0-0o377")
        else Ok(Token([Lit((64 * DigitValue(t[1]) + 8 * DigitValue(t[2]) + DigitValue(t[3])) as char)], 4))
      else if 10 * DigitValue(t[1]) + DigitValue(t[2]) > Groups then Err("invalid group reference")
      else Ok(Token([Ref(10 * DigitValue(t[1]) + DigitValue(t[2]))], 3))
    else if DigitValue(t[1]) > Groups then Err("invalid group reference")
    else Ok(Token([Ref(DigitValue(t[1]))], 2))
  }

  /** How Python's `re` module parses a replacement template: characters
      other than `\` stand for themselves, and each escape for what `Escape`
      reads; the first error is the result. Every reference names a group
      of the pattern. */
  function ParseTemplate(t: string): (r: Result<seq<Piece>, string>)
    ensures r.Ok? ==> forall i :: 0 <= i < |r.value| && r.value[i].Ref? ==> r.value[i].group <= Groups
    decreases |t|
  {
    if t == [] then Ok([])
    else if t[0] != '\\' then Prepend([Lit(t[0])], ParseTemplate(t[1..]))
    else match Escape(t)
      case Err(e) => Err(e)
      case Ok(tok) => Prepend(tok.pieces, ParseTemplate(t[tok.width..]))
  }

  /** The text of a parsed template at a match: `whole` is the match and
      `group` its group 1. */
  function Expand(rep: seq<Piece>, whole: string, group: string): string
    decreases |rep|
  {
    if rep == [] then []
    else
      (match rep[0] case Lit(c) => [c] case Ref(g) => if g == 0 then whole else group)
      + Expand(rep[1..], whole, group)
  }

  /** A text as template pieces, character by character. */
  function Lits(x: string): seq<Piece>
    decreases |x|
  {
    if x == [] then [] else [Lit(x[0])] + Lits(x[1..])
  }

  /** The template `\1new:` read as the key's author means it: the group,
      then the new key and the colon as they are. */
  function Plain(newKey: string): seq<Piece> {
    [Ref(1)] + Lits(newKey + ":")
  }

  /** A key the template reads literally: no backslash, and no digit right
      behind the `\1`. */
  predicate PlainKey(k: string) {
    '\\' !in k && (k == [] || !IsDigit(k[0]))
  }

  /** A template without a backslash is its characters. */
  lemma {:induction false} LiteralTemplate(x: string)
    requires '\\' !in x
    ensures ParseTemplate(x) == Ok(Lits(x))
    decreases |x|
  {
    if x != [] {
      assert '\\' !in x[1..];
      LiteralTemplate(x[1..]);
    }
  }

  /** For a plain key the template is the group, the key and the colon. */
  lemma PlainTemplate(newKey: string)
    requires PlainKey(newKey)
    ensures ParseTemplate(KeyTemplate(newKey)) == Ok(Plain(newKey))
  {
    var t := KeyTemplate(newKey);
    assert t[2..] == newKey + ":";
    assert t[0] == '\\' && t[1] == '1' && !IsDigit(t[2]);
    assert '\\' !in newKey + ":";
    LiteralTemplate(newKey + ":");
  }

  /** A digit right behind the `\1` that does not start a three-digit
      octal escape makes the group number 10 to 19, which the pattern lacks. */
  lemma DigitKeyRejected(newKey: string)
    requires newKey != [] && IsDigit(newKey[0])
    requires !(IsOctal(newKey[0]) && |newKey| >= 2 && IsOctal(newKey[1]))
    ensures ParseTemplate(KeyTemplate(newKey)).Err?
  {
    var t := KeyTemplate(newKey);
    assert t[1] == '1' && t[2] == newKey[0];
    assert |newKey| >= 2 ==> t[3] == newKey[1];
    assert |newKey| == 1 ==> t[3] == ':';
  }

  /** Two octal digits right behind the `\1` make an octal escape with it:
      the replacement starts with that character and drops the group. */
  lemma OctalKeyDropsGroup(newKey: string)
    requires |newKey| >= 2 && IsOctal(newKey[0]) && IsOctal(newKey[1])
    ensures ParseTemplate(KeyTemplate(newKey))
      == Prepend([Lit((64 + 8 * DigitValue(newKey[0]) + DigitValue(newKey[1])) as char)],
                 ParseTemplate(newKey[2..] + ":"))
  {
    var t := KeyTemplate(newKey);
    assert t[1] == '1' && t[2] == newKey[0] && t[3] == newKey[1];
    assert t[4..] == newKey[2..] + ":";
  }

  /** A text as pieces expands to itself. */
  lemma {:induction false} ExpandLits(x: string, whole: string, group: string)
    ensures Expand(Lits(x), whole, group) == x
    decreases |x|
  {
    if x != [] {
      ExpandLits(x[1..], whole, group);
      assert Lits(x)[1..] == Lits(x[1..]);
    }
  }

  /** The plain template expands to the group, the key and the colon. */
  lemma ExpandPlain(newKey: string, whole: string, group: string)
    ensures Expand(Plain(newKey), whole, group) == group + (newKey + ":")
  {
    assert Plain(newKey)[1..] == Lits(newKey + ":");
    ExpandLits(newKey + ":", whole, group);
  }

  // ------------------------------------------------------------ the substitution key_regex.sub

  /** `key_regex.sub(template, s)` with the parsed template `rep`, scanning
      from index `i`: at each match the template's text replaces the match,
      and the scan goes on behind it; elsewhere characters are copied one by
      one. */
  function SubFrom(s: string, oldKey: string, rep: seq<Piece>, i: nat): string
    requires i <= |s|
    decreases |s| - i
  {
    if i == |s| then []
    else match MatchAt(s, i, oldKey)
      case Some(k) =>
        Expand(rep, s[i..i + k + |oldKey| + 1], s[i..i + k]) + SubFrom(s, oldKey, rep, i + k + |oldKey| + 1)
      case None => [s[i]] + SubFrom(s, oldKey, rep, i + 1)
  }

  /** `key_regex.sub(template, s)` */
  function Substitute(s: string, oldKey: string, rep: seq<Piece>): string {
    SubFrom(s, oldKey, rep, 0)
  }

  // ------------------------------------------------------------ rename_frontmatter_key

  /** Whether the file is rewritten, and its text afterwards. */
  datatype Outcome = Outcome(changed: bool, content: string)

  /** rename_frontmatter_key, for a file of text `content`. A template that
      does not parse raises inside `key_regex.sub`, and the handler reports
      the file unchanged. */
  function Rename(content: string, oldKey: string, newKey: string): Outcome {
    if !StartsWith(content, "---") then Outcome(false, content)
    else
      var parts := SplitN(content, "---", 2);
      if |parts| < 3 then Outcome(false, content)
      else
        var frontmatter := parts[1];
        var body := parts[2];
        if !HasKey(frontmatter, oldKey) then Outcome(false, content)
        else match ParseTemplate(KeyTemplate(newKey))
          case Err(_) => Outcome(false, content)
          case Ok(rep) =>
            var renamed := Substitute(frontmatter, oldKey, rep);
            if renamed == frontmatter then Outcome(false, content)
            else Outcome(true, "---" + renamed + "---" + body)
  }

  /** `content.split('---', 2)` of text that starts with `---` has three parts
      exactly when a second `---` follows; then the text is `---`, the
      frontmatter, `---` and the body, and the frontmatter holds no `---`. */
  lemma SplitShape(content: string)
    requires StartsWith(content, "---")
    ensures var parts := SplitN(content, "---", 2);
      && (|parts| == 3 <==> Contains(content[3..], "---"))
      && (|parts| == 3 ==>
            && content == "---" + parts[1] + "---" + parts[2]
            && forall j :: !OccursAt(parts[1], "---", j))
  {
    SplitCount(content);
    SplitRejoin(content);
    SplitFrontmatterFree(content);
  }

  /** Three parts exactly when a second `---` follows the first. */
  lemma SplitCount(content: string)
    requires StartsWith(content, "---")
    ensures |SplitN(content, "---", 2)| == 3 <==> Contains(content[3..], "---")
  {
    var rest := content[3..];
    SplitOpening(content);
    if Contains(rest, "---") {
      SplitClosing(rest, Find(rest, "---").value);
    }
  }

  /** Three parts put back together with `---` give the text. */
  lemma SplitRejoin(content: string)
    requires StartsWith(content, "---")
    ensures var parts := SplitN(content, "---", 2);
      |parts| == 3 ==> content == "---" + parts[1] + "---" + parts[2]
  {
    var rest := content[3..];
    SplitCount(content);
    SplitOpening(content);
    if Contains(rest, "---") {
      var i := Find(rest, "---").value;
      SplitClosing(rest, i);
      AroundOccurrence(rest, "---", i);
      assert content[..3] == "---";
      PrefixRest(content, 3);
      Associative("---", rest[..i] + "---", rest[i + 3..]);
    }
  }

  /** The frontmatter part holds no `---`. */
  lemma SplitFrontmatterFree(content: string)
    requires StartsWith(content, "---")
    ensures var parts := SplitN(content, "---", 2);
      |parts| == 3 ==> forall j :: !OccursAt(parts[1], "---", j)
  {
    var rest := content[3..];
    SplitCount(content);
    SplitOpening(content);
    if Contains(rest, "---") {
      var i := Find(rest, "---").value;
      SplitClosing(rest, i);
      BeforeFirst(rest, "---", i);
    }
  }

  /** Text starting with `---` splits first at index 0. */
  lemma SplitOpening(content: string)
    requires StartsWith(content, "---")
    ensures SplitN(content, "---", 2) == [[]] + SplitN(content[3..], "---", 1)
  {
    assert content[..3] == "---";
    assert Find(content, "---") == Some(0);
  }

  /** A second split at the first `---` of the rest. */
  lemma SplitClosing(rest: string, i: nat)
    requires Find(rest, "---") == Some(i)
    ensures i + 3 <= |rest|
    ensures SplitN(rest, "---", 1) == [rest[..i]] + [rest[i + 3..]]
  {
    var tail := rest[i + 3..];
    assert SplitN(rest, "---", 1) == [rest[..i]] + SplitN(tail, "---", 0);
    assert SplitN(tail, "---", 0) == [tail];
  }

  /** The text around an occurrence of `pat`. */
  lemma AroundOccurrence(s: string, pat: string, i: nat)
    requires OccursAt(s, pat, i)
    ensures s == s[..i] + pat + s[i + |pat|..]
  {
    Concat3(s, i, i + |pat|);
  }

  /** The text before the first occurrence of `pat` holds no `pat`. */
  lemma BeforeFirst(s: string, pat: string, i: nat)
    requires pat != [] && Find(s, pat) == Some(i)
    ensures forall j :: !OccursAt(s[..i], pat, j)
  {
    forall j | OccursAt(s[..i], pat, j) ensures false {
      assert s[..i][j..j + |pat|] == s[j..j + |pat|];
      assert OccursAt(s, pat, j);
    }
  }

  /** The outcome: unchanged text when nothing is rewritten; otherwise the
      template parsed, the text is `---` + frontmatter + `---` + body, and
      the result keeps the frontmatter's place and the body byte for byte,
      with the frontmatter substituted. */
  lemma RenameShape(content: string, oldKey: string, newKey: string)
    returns (frontmatter: string, body: string)
    ensures var r := Rename(content, oldKey, newKey);
      && (!r.changed ==> r.content == content)
      && (r.changed ==>
            && ParseTemplate(KeyTemplate(newKey)).Ok?
            && content == "---" + frontmatter + "---" + body
            && r.content == "---" + Substitute(frontmatter, oldKey, ParseTemplate(KeyTemplate(newKey)).value) + "---" + body)
  {
    frontmatter, body := [], [];
    if StartsWith(content, "---") {
      var parts := SplitN(content, "---", 2);
      SplitShape(content);
      if |parts| == 3 {
        frontmatter, body := parts[1], parts[2];
      }
    }
  }

  /** A new key whose template does not parse never rewrites a file. */
  lemma TemplateErrorUnchanged(content: string, oldKey: string, newKey: string)
    requires ParseTemplate(KeyTemplate(newKey)).Err?
    ensures Rename(content, oldKey, newKey) == Outcome(false, content)
  {
  }

  /** For a plain new key, the text is rewritten exactly when it opens with
      a frontmatter block closed by a second `---`, the old key starts a line
      of it, and the two keys differ. */
  lemma ChangedIff(content: string, oldKey: string, newKey: string)
    requires PlainKey(newKey)
    ensures Rename(content, oldKey, newKey).changed
      <==> && StartsWith(content, "---")
           && |SplitN(content, "---", 2)| == 3
           && HasKey(SplitN(content, "---", 2)[1], oldKey)
           && oldKey != newKey
  {
    PlainTemplate(newKey);
    if StartsWith(content, "---") {
      var parts := SplitN(content, "---", 2);
      if |parts| == 3 && HasKey(parts[1], oldKey) {
        if oldKey == newKey {
          SameKeyIdentity(parts[1], oldKey, 0);
        } else {
          SubstituteChanges(parts[1], oldKey, newKey);
        }
      }
    }
  }

  /** Renaming a plain key to itself changes nothing. */
  lemma SameKeyUnchanged(content: string, key: string)
    requires PlainKey(key)
    ensures Rename(content, key, key) == Outcome(false, content)
  {
    PlainTemplate(key);
    if StartsWith(content, "---") {
      var parts := SplitN(content, "---", 2);
      if |parts| == 3 {
        SameKeyIdentity(parts[1], key, 0);
      }
    }
  }

  // ------------------------------------------------------------ substitution facts

  /** Substituting a key by itself gives the text back. */
  lemma {:induction false} SameKeyIdentity(s: string, key: string, i: nat)
    requires i <= |s|
    ensures SubFrom(s, key, Plain(key), i) == s[i..]
    decreases |s| - i
  {
    if i < |s| {
      if MatchAt(s, i, key).Some? {
        var k, e := AtMatch(s, key, key, i);
        SameKeyIdentity(s, key, e);
        Rejoin(SubFrom(s, key, Plain(key), i), s[i..], s[i..i + k], key + ":", SubFrom(s, key, Plain(key), e), key + ":", s[e..]);
      } else {
        SameKeyIdentity(s, key, i + 1);
        SubFromNoMatch(s, key, Plain(key), i);
        Uncons(s, i);
        Rejoin(SubFrom(s, key, Plain(key), i), s[i..], [s[i]], [], SubFrom(s, key, Plain(key), i + 1), [], s[i + 1..]);
      }
    }
  }

  /** A match at `i` with group length `k` ending at `e`: the text from `i`
      is the group, the old key with its colon and the rest, and the plain
      substitution from `i` is the group, the new key with its colon and the
      substitution from `e`. */
  lemma AtMatch(s: string, oldKey: string, newKey: string, i: nat) returns (k: nat, e: nat)
    requires i <= |s| && MatchAt(s, i, oldKey).Some?
    ensures k == MatchAt(s, i, oldKey).value && e == i + k + |oldKey| + 1 <= |s|
    ensures s[i..] == s[i..i + k] + (oldKey + ":") + s[e..]
    ensures SubFrom(s, oldKey, Plain(newKey), i) == s[i..i + k] + (newKey + ":") + SubFrom(s, oldKey, Plain(newKey), e)
  {
    k := MatchAt(s, i, oldKey).value;
    e := i + k + |oldKey| + 1;
    KeyAfterGroup(s, oldKey, i, k, e);
    SubFromAtMatch(s, oldKey, Plain(newKey), i, k, e);
    ExpandPlain(newKey, s[i..e], s[i..i + k]);
  }

  /** The text from a match: the group, the key with its colon, and the rest. */
  lemma KeyAfterGroup(s: string, key: string, i: nat, k: nat, e: nat)
    requires i <= |s| && MatchAt(s, i, key).Some?
    requires k == MatchAt(s, i, key).value && e == i + k + |key| + 1
    ensures e <= |s| && s[i..] == s[i..i + k] + (key + ":") + s[e..]
  {
    MatchAtKey(s, i, key);
    Slices3(s, i, i + k, e);
    Replaced(s[i..], s[i..i + k], s[i + k..e], s[e..], key + ":");
  }

  /** A part of a concatenation replaced by an equal value. */
  lemma Replaced<T>(w: seq<T>, a: seq<T>, x: seq<T>, r: seq<T>, x': seq<T>)
    requires w == a + x + r && x == x'
    ensures w == a + x' + r
  {
  }

  /** Equal parts make equal wholes. */
  lemma Rejoin<T>(u: seq<T>, v: seq<T>, a: seq<T>, x: seq<T>, r: seq<T>, x': seq<T>, r': seq<T>)
    requires u == a + x + r && v == a + x' + r' && x == x' && r == r'
    ensures u == v
  {
  }

  /** A text from index `i` is its character at `i` and the rest. */
  lemma Uncons<T>(s: seq<T>, i: nat)
    requires i < |s|
    ensures s[i..] == [s[i]] + [] + s[i + 1..]
  {
  }

  /** The substitution where no match starts. */
  lemma SubFromNoMatch(s: string, oldKey: string, rep: seq<Piece>, i: nat)
    requires i < |s| && MatchAt(s, i, oldKey).None?
    ensures SubFrom(s, oldKey, rep, i) == [s[i]] + [] + SubFrom(s, oldKey, rep, i + 1)
  {
  }

  /** Text without a match from index `i` on is copied as it is. */
  lemma {:induction false} NoMatchCopied(s: string, oldKey: string, rep: seq<Piece>, i: nat, j: nat)
    requires i <= j <= |s|
    requires forall m :: i <= m < j ==> MatchAt(s, m, oldKey).None?
    ensures SubFrom(s, oldKey, rep, i) == s[i..j] + SubFrom(s, oldKey, rep, j)
    decreases j - i
  {
    if i < j {
      NoMatchCopied(s, oldKey, rep, i + 1, j);
      ConsSlice(s, i, j);
      Associative([s[i]], s[i + 1..j], SubFrom(s, oldKey, rep, j));
    }
  }

  /** A frontmatter without the old key comes out of the substitution as it
      went in. */
  lemma NoKeyUnchanged(s: string, oldKey: string, rep: seq<Piece>)
    requires !HasKey(s, oldKey)
    ensures Substitute(s, oldKey, rep) == s
  {
    NoMatchCopied(s, oldKey, rep, 0, |s|);
    assert s[0..|s|] == s;
  }

  /** A longer new key never shortens the text. */
  lemma {:induction false} SubFromLonger(s: string, oldKey: string, newKey: string, i: nat)
    requires i <= |s| && |newKey| >= |oldKey|
    ensures |SubFrom(s, oldKey, Plain(newKey), i)| >= |s| - i
    decreases |s| - i
  {
    if i < |s| {
      if MatchAt(s, i, oldKey).Some? {
        var e := MatchLength(s, oldKey, newKey, i);
        SubFromLonger(s, oldKey, newKey, e);
      } else {
        NoMatchLength(s, oldKey, Plain(newKey), i);
        SubFromLonger(s, oldKey, newKey, i + 1);
      }
    }
  }


  /** The length of the plain substitution at a match: the group, the new
      key and its colon, then the rest. */
  lemma MatchLength(s: string, oldKey: string, newKey: string, i: nat) returns (e: nat)
    requires i <= |s| && MatchAt(s, i, oldKey).Some?
    ensures e == i + MatchAt(s, i, oldKey).value + |oldKey| + 1 <= |s|
    ensures |SubFrom(s, oldKey, Plain(newKey), i)|
      == MatchAt(s, i, oldKey).value + |newKey| + 1 + |SubFrom(s, oldKey, Plain(newKey), e)|
  {
    var k, e' := AtMatch(s, oldKey, newKey, i);
    e := e';
  }

  /** The length of the substitution where no match starts. */
  lemma NoMatchLength(s: string, oldKey: string, rep: seq<Piece>, i: nat)
    requires i < |s| && MatchAt(s, i, oldKey).None?
    ensures |SubFrom(s, oldKey, rep, i)| == 1 + |SubFrom(s, oldKey, rep, i + 1)|
  {
    SubFromNoMatch(s, oldKey, rep, i);
  }

  /** A shorter new key never lengthens the text. */
  lemma {:induction false} SubFromShorter(s: string, oldKey: string, newKey: string, i: nat)
    requires i <= |s| && |newKey| <= |oldKey|
    ensures |SubFrom(s, oldKey, Plain(newKey), i)| <= |s| - i
    decreases |s| - i
  {
    if i < |s| {
      if MatchAt(s, i, oldKey).Some? {
        var e := MatchLength(s, oldKey, newKey, i);
        SubFromShorter(s, oldKey, newKey, e);
      } else {
        NoMatchLength(s, oldKey, Plain(newKey), i);
        SubFromShorter(s, oldKey, newKey, i + 1);
      }
    }
  }


  /** The first match at or after `i`, given one at `j0`. */
  lemma {:induction false} FirstMatch(s: string, key: string, i: nat, j0: nat) returns (j: nat)
    requires i <= j0 <= |s| && MatchAt(s, j0, key).Some?
    ensures i <= j <= j0 && MatchAt(s, j, key).Some?
    ensures forall m :: i <= m < j ==> MatchAt(s, m, key).None?
    decreases j0 - i
  {
    if MatchAt(s, i, key).Some? {
      j := i;
    } else {
      j := FirstMatch(s, key, i + 1, j0);
    }
  }

  /** With a match for the old key, a different new key always changes the
      text: the `renamed == frontmatter` test only fires for equal keys. */
  lemma SubstituteChanges(s: string, oldKey: string, newKey: string)
    requires HasKey(s, oldKey) && oldKey != newKey
    ensures Substitute(s, oldKey, Plain(newKey)) != s
  {
    var j0 :| 0 <= j0 <= |s| && MatchAt(s, j0, oldKey).Some?;
    var j := FirstMatch(s, oldKey, 0, j0);
    var k, e := AtMatch(s, oldKey, newKey, j);
    PrefixCopied(s, oldKey, Plain(newKey), j);
    PrefixRest(s, j);
    if |newKey| >= |oldKey| {
      SubFromLonger(s, oldKey, newKey, e);
    } else {
      SubFromShorter(s, oldKey, newKey, e);
    }
    KeyColonDiffers(oldKey, newKey);
    DifferentMiddle(s[j..j + k], newKey + ":", SubFrom(s, oldKey, Plain(newKey), e), oldKey + ":", s[e..]);
    DifferentAfter(Substitute(s, oldKey, Plain(newKey)), s, s[..j], SubFrom(s, oldKey, Plain(newKey), j), s[j..]);
  }

  /** The text before the first match is copied unchanged. */
  lemma PrefixCopied(s: string, oldKey: string, rep: seq<Piece>, j: nat)
    requires j <= |s|
    requires forall m :: 0 <= m < j ==> MatchAt(s, m, oldKey).None?
    ensures Substitute(s, oldKey, rep) == s[..j] + SubFrom(s, oldKey, rep, j)
  {
    NoMatchCopied(s, oldKey, rep, 0, j);
    assert s[0..j] == s[..j];
  }

  /** Texts with a common start and different rests differ. */
  lemma DifferentAfter<T>(t: seq<T>, s: seq<T>, p: seq<T>, u: seq<T>, v: seq<T>)
    requires t == p + u && p + v == s && u != v
    ensures t != s
  {
    assert t[|p|..] == u;
    assert s[|p|..] == v;
  }

  lemma KeyColonDiffers(oldKey: string, newKey: string)
    requires oldKey != newKey
    ensures newKey + ":" != oldKey + ":"
  {
    if |newKey| == |oldKey| {
      assert (newKey + ":")[..|newKey|] == newKey;
      assert (oldKey + ":")[..|oldKey|] == oldKey;
    }
  }

  /** The substitution at a match. */
  lemma SubFromAtMatch(s: string, oldKey: string, rep: seq<Piece>, j: nat, k: nat, e: nat)
    requires j <= |s| && MatchAt(s, j, oldKey).Some?
    requires k == MatchAt(s, j, oldKey).value && e == j + k + |oldKey| + 1
    ensures e <= |s|
    ensures SubFrom(s, oldKey, rep, j) == Expand(rep, s[j..e], s[j..j + k]) + SubFrom(s, oldKey, rep, e)
  {
  }

  /** Two texts with a common start differ when their middles differ and the
      lengths of the rest do not make up for it. */
  lemma DifferentMiddle<T>(a: seq<T>, x: seq<T>, r1: seq<T>, y: seq<T>, r2: seq<T>)
    requires x != y
    requires |x| == |y| || (|x| > |y| && |r1| >= |r2|) || (|x| < |y| && |r1| <= |r2|)
    ensures a + x + r1 != a + y + r2
  {
    if |x| == |y| {
      assert (a + x + r1)[|a|..|a| + |x|] == x;
      assert (a + y + r2)[|a|..|a| + |y|] == y;
    }
  }
}
