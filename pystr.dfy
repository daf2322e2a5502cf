/** The Python `str` operations the scripts rely on, over `string` (a
    sequence of Unicode characters). */
module PyStr {
  import opened Wrappers

  /** `c.isspace()`: the characters CPython treats as whitespace; `strip()`,
      `split()` and the regular-expression class `\s` all use this set. */
  predicate IsSpace(c: char) {
    ('\t' <= c <= '\r') || ('\U{1C}' <= c <= '\U{1F}') || c == ' '
    || c == '\U{85}' || c == '\U{A0}' || c == '\U{1680}'
    || ('\U{2000}' <= c <= '\U{200A}') || c == '\U{2028}' || c == '\U{2029}'
    || c == '\U{202F}' || c == '\U{205F}' || c == '\U{3000}'
  }

  /** `s.lstrip()` */
  function LStrip(s: string): (r: string)
    ensures |r| <= |s|
    decreases |s|
  {
    if s != [] && IsSpace(s[0]) then LStrip(s[1..]) else s
  }

  /** `s.lstrip()` is the suffix of `s` behind its leading whitespace. */
  lemma {:induction false} LStripFacts(s: string)
    ensures var r := LStrip(s);
      && r == s[|s| - |r|..]
      && (forall i :: 0 <= i < |s| - |r| ==> IsSpace(s[i]))
      && (r == [] || !IsSpace(r[0]))
    decreases |s|
  {
    if s != [] && IsSpace(s[0]) {
      LStripFacts(s[1..]);
    }
  }

  /** `s.rstrip()` */
  function RStrip(s: string): (r: string)
    ensures |r| <= |s|
    decreases |s|
  {
    if s != [] && IsSpace(s[|s| - 1]) then RStrip(s[..|s| - 1]) else s
  }

  /** `s.rstrip()` is the prefix of `s` before its trailing whitespace. */
  lemma {:induction false} RStripFacts(s: string)
    ensures var r := RStrip(s);
      && r == s[..|r|]
      && (forall i :: |r| <= i < |s| ==> IsSpace(s[i]))
      && (r == [] || !IsSpace(r[|r| - 1]))
    decreases |s|
  {
    if s != [] && IsSpace(s[|s| - 1]) {
      RStripFacts(s[..|s| - 1]);
    }
  }

  /** `s.strip()` */
  function Strip(s: string): (r: string)
    ensures |r| <= |s|
  {
    RStrip(LStrip(s))
  }

  /** `s.strip()` is empty exactly for all-whitespace text, and otherwise
      begins and ends with a non-space. */
  lemma StripFacts(s: string)
    ensures var r := Strip(s);
      && (r == [] <==> forall i :: 0 <= i < |s| ==> IsSpace(s[i]))
      && (r == [] || (!IsSpace(r[0]) && !IsSpace(r[|r| - 1])))
  {
    var l := LStrip(s);
    LStripFacts(s);
    RStripFacts(l);
    assert RStrip(l) == [] ==> l == [];
  }

  /** A text of whitespace strips to nothing. */
  lemma AllSpaceStrip(s: string)
    requires forall i :: 0 <= i < |s| ==> IsSpace(s[i])
    ensures Strip(s) == []
  {
    StripFacts(s);
  }

  /** Left-stripping a run of whitespace in front of a string that does not
      itself begin with whitespace. */
  lemma {:induction false} LStripPrefix(x: string, y: string)
    requires forall i :: 0 <= i < |x| ==> IsSpace(x[i])
    requires y == [] || !IsSpace(y[0])
    ensures LStrip(x + y) == y
    decreases |x|
  {
    if x != [] {
      assert (x + y)[1..] == x[1..] + y;
      LStripPrefix(x[1..], y);
    } else {
      assert x + y == y;
    }
  }

  /** Right-stripping a run of whitespace behind a string that does not
      itself end with whitespace. */
  lemma {:induction false} RStripSuffix(x: string, y: string)
    requires forall i :: 0 <= i < |y| ==> IsSpace(y[i])
    requires x == [] || !IsSpace(x[|x| - 1])
    ensures RStrip(x + y) == x
    decreases |y|
  {
    if y != [] {
      assert (x + y)[..|x + y| - 1] == x + y[..|y| - 1];
      RStripSuffix(x, y[..|y| - 1]);
    } else {
      assert x + y == x;
    }
  }

  /** `s` is its leading whitespace, `Strip(s)` and its trailing whitespace. */
  lemma StripSplits(s: string) returns (lead: nat)
    ensures lead + |Strip(s)| <= |s|
    ensures s == s[..lead] + Strip(s) + s[lead + |Strip(s)|..]
    ensures forall i :: 0 <= i < lead ==> IsSpace(s[i])
    ensures forall i :: lead + |Strip(s)| <= i < |s| ==> IsSpace(s[i])
  {
    var l := LStrip(s);
    var r := RStrip(l);
    LStripFacts(s);
    RStripFacts(l);
    lead := |s| - |l|;
    assert r == Strip(s);
    assert r == s[lead..lead + |r|];
    Concat3(s, lead, lead + |r|);
    forall i | lead + |r| <= i < |s| ensures IsSpace(s[i]) {
      assert s[i] == l[i - lead];
    }
  }

  lemma Concat3<T>(s: seq<T>, a: nat, b: nat)
    requires a <= b <= |s|
    ensures s == s[..a] + s[a..b] + s[b..]
  {
  }

  /** Stripping a string already made of leading whitespace, a core and
      trailing whitespace gives the core, when the core has non-space ends. */
  lemma StripOf(lead: string, core: string, trail: string)
    requires forall i :: 0 <= i < |lead| ==> IsSpace(lead[i])
    requires forall i :: 0 <= i < |trail| ==> IsSpace(trail[i])
    requires core != [] && !IsSpace(core[0]) && !IsSpace(core[|core| - 1])
    ensures Strip(lead + core + trail) == core
  {
    assert lead + core + trail == lead + (core + trail);
    LStripPrefix(lead, core + trail);
    RStripSuffix(core, trail);
  }

  /** `s.strip().strip() == s.strip()` */
  lemma StripTwice(s: string)
    ensures Strip(Strip(s)) == Strip(s)
  {
    var c := Strip(s);
    StripFacts(s);
    if c != [] {
      StripOf([], c, []);
      assert [] + c + [] == c;
    }
  }

  /** `line.strip() == '---'`: the delimiter line of a YAML frontmatter block
      as three of the scripts recognise it. */
  predicate IsYamlDelimiter(line: string) {
    Strip(line) == "---"
  }

  /** `s.startswith(p)` */
  predicate StartsWith(s: string, p: string) {
    p <= s
  }

  /** `s.endswith(p)` */
  predicate EndsWith(s: string, p: string) {
    |p| <= |s| && s[|s| - |p|..] == p
  }

  /** `pat` occurs in `s` at index `j`. */
  predicate OccursAt(s: string, pat: string, j: int) {
    0 <= j && j + |pat| <= |s| && s[j..j + |pat|] == pat
  }

  /** `s.find(pat)`, with `None` for -1. */
  function Find(s: string, pat: string): (r: Option<nat>)
    ensures r.Some? ==> OccursAt(s, pat, r.value)
    ensures r.Some? ==> forall j :: 0 <= j < r.value ==> !OccursAt(s, pat, j)
    ensures r.None? ==> forall j :: !OccursAt(s, pat, j)
    decreases |s|
  {
    if |pat| > |s| then None
    else if s[..|pat|] == pat then Some(0)
    else match Find(s[1..], pat)
      case None =>
        assert forall j :: 1 <= j && OccursAt(s, pat, j) ==> OccursAt(s[1..], pat, j - 1) by {
          forall j | 1 <= j && OccursAt(s, pat, j) ensures OccursAt(s[1..], pat, j - 1) {
            assert s[1..][j - 1..j - 1 + |pat|] == s[j..j + |pat|];
          }
        }
        None
      case Some(i) =>
        assert OccursAt(s, pat, i + 1) by { assert s[1..][i..i + |pat|] == s[i + 1..i + 1 + |pat|]; }
        assert forall j :: 1 <= j < i + 1 && OccursAt(s, pat, j) ==> OccursAt(s[1..], pat, j - 1) by {
          forall j | 1 <= j < i + 1 && OccursAt(s, pat, j) ensures OccursAt(s[1..], pat, j - 1) {
            assert s[1..][j - 1..j - 1 + |pat|] == s[j..j + |pat|];
          }
        }
        Some(i + 1)
  }

  /** `pat in s` */
  predicate Contains(s: string, pat: string) {
    Find(s, pat).Some?
  }

  /** `s.split(sep)` for a non-empty separator. */
  function Split(s: string, sep: string): (parts: seq<string>)
    requires sep != []
    ensures |parts| >= 1
    decreases |s|
  {
    match Find(s, sep)
    case None => [s]
    case Some(i) => [s[..i]] + Split(s[i + |sep|..], sep)
  }

  /** `s.split(sep, n)`: at most `n` splits, the rest kept whole in the last part. */
  function SplitN(s: string, sep: string, n: nat): (parts: seq<string>)
    requires sep != []
    ensures 1 <= |parts| <= n + 1
    decreases n
  {
    if n == 0 then [s]
    else match Find(s, sep)
      case None => [s]
      case Some(i) => [s[..i]] + SplitN(s[i + |sep|..], sep, n - 1)
  }

  /** `sep.join(parts)` */
  function Join(parts: seq<string>, sep: string): string {
    if parts == [] then []
    else if |parts| == 1 then parts[0]
    else parts[0] + sep + Join(parts[1..], sep)
  }

  /** Joining what `split` produced gives back the string. */
  lemma {:induction false} JoinSplit(s: string, sep: string)
    requires sep != []
    ensures Join(Split(s, sep), sep) == s
    decreases |s|
  {
    match Find(s, sep)
    case None =>
    case Some(i) =>
      var rest := s[i + |sep|..];
      var tail := Split(rest, sep);
      JoinSplit(rest, sep);
      assert Split(s, sep) == [s[..i]] + tail;
      assert ([s[..i]] + tail)[1..] == tail;
      assert Join(Split(s, sep), sep) == s[..i] + sep + rest;
      assert s[i..i + |sep|] == sep;
      assert s == s[..i] + s[i..i + |sep|] + rest;
  }

  /** Splitting what `join` produced with a one-character separator that no
      part contains gives back the parts. */
  lemma {:induction false} SplitJoin(parts: seq<string>, c: char)
    requires parts != []
    requires forall k :: 0 <= k < |parts| ==> c !in parts[k]
    ensures Split(Join(parts, [c]), [c]) == parts
    decreases |parts|
  {
    var head := parts[0];
    if |parts| == 1 {
      NoCharNotFound(head, c);
      assert Join(parts, [c]) == head;
      assert Split(head, [c]) == [head];
    } else {
      var rest := Join(parts[1..], [c]);
      var s := Join(parts, [c]);
      assert s == head + [c] + rest;
      FindAfterFree(head, c, rest);
      assert s[..|head|] == head;
      assert s[|head| + 1..] == rest;
      SplitJoin(parts[1..], c);
      assert Split(s, [c]) == [head] + Split(rest, [c]);
      assert parts == [head] + parts[1..];
    }
  }

  /** A one-character pattern occurs exactly where that character is. */
  lemma OccursAtChar(s: string, c: char, j: int)
    ensures OccursAt(s, [c], j) <==> 0 <= j < |s| && s[j] == c
  {
    if 0 <= j < |s| && s[j] == c { assert s[j..j + 1] == [c]; }
  }

  /** A string without `c` holds no occurrence of `[c]`. */
  lemma NoCharNotFound(s: string, c: char)
    requires c !in s
    ensures Find(s, [c]).None?
  {
    if Find(s, [c]).Some? {
      OccursAtChar(s, c, Find(s, [c]).value);
    }
  }

  /** A string whose `[c]`-search fails does not contain `c`. */
  lemma NotFoundNoChar(s: string, c: char)
    requires Find(s, [c]).None?
    ensures c !in s
  {
    forall j | 0 <= j < |s| ensures s[j] != c { OccursAtChar(s, c, j); }
  }

  /** A pattern whose last character is not in `s` does not occur in it. */
  lemma NoLastCharNotFound(s: string, pat: string)
    requires pat != [] && pat[|pat| - 1] !in s
    ensures Find(s, pat).None?
  {
  }

  /** The text before the first `c` holds no `c`. */
  lemma NoCharBeforeFirst(s: string, c: char)
    requires Find(s, [c]).Some?
    ensures c !in s[..Find(s, [c]).value]
  {
    var i := Find(s, [c]).value;
    forall j | 0 <= j < i ensures s[..i][j] != c {
      OccursAtChar(s, c, j);
    }
  }

  /** Stripping adds no character. */
  lemma StripWithout(s: string, c: char)
    requires c !in s
    ensures c !in Strip(s)
  {
    var lead := StripSplits(s);
    var t := Strip(s);
    forall j | 0 <= j < |t| ensures t[j] != c {
      assert t[j] == s[lead + j];
    }
  }

  /** In `a + [c] + b` with `c` not in `a`, the first `c` is the one after `a`. */
  lemma FindAfterFree(a: string, c: char, b: string)
    requires c !in a
    ensures Find(a + [c] + b, [c]) == Some(|a|)
  {
    var s := a + [c] + b;
    OccursAtChar(s, c, |a|);
    var k := Find(s, [c]).value;
    assert k <= |a|;
    OccursAtChar(s, c, k);
  }

  /** Splitting on `c` a string that ends in `c` followed by a `c`-free tail. */
  lemma {:induction false} SplitLastFree(a: string, c: char, t: string)
    requires c !in t
    ensures Split(a + [c] + t, [c]) == Split(a, [c]) + [t]
    decreases |a|
  {
    if c in a {
      var k := FirstChar(a, c);
      SplitLastFree(a[k + 1..], c, t);
      SplitLastFreeStep(a, c, t, k);
    } else {
      SplitLastFreeBase(a, c, t);
    }
  }

  /** The last split when `a` has no `c`. */
  lemma SplitLastFreeBase(a: string, c: char, t: string)
    requires c !in a && c !in t
    ensures Split(a + [c] + t, [c]) == Split(a, [c]) + [t]
  {
    var s := a + [c] + t;
    assert s[..|a|] == a && s[|a| + 1..] == t;
    SplitAtFirst(s, c, |a|);
    NoCharNotFound(t, c);
    NoCharNotFound(a, c);
  }

  /** The split at the first `c` of `a`, given the split of the rest. */
  lemma SplitLastFreeStep(a: string, c: char, t: string, k: nat)
    requires k < |a| && a[k] == c && c !in a[..k]
    requires Split(a[k + 1..] + [c] + t, [c]) == Split(a[k + 1..], [c]) + [t]
    ensures Split(a + [c] + t, [c]) == Split(a, [c]) + [t]
  {
    SplitAtFirst(a, c, k);
    SplitAtFirstOf(a, c, t, k);
    ConsAppend(Split(a + [c] + t, [c]), Split(a[k + 1..] + [c] + t, [c]), Split(a, [c]),
      [a[..k]], Split(a[k + 1..], [c]), [t]);
  }

  /** The first split of `a + [c] + t` falls at the first `c` of `a`. */
  lemma SplitAtFirstOf(a: string, c: char, t: string, k: nat)
    requires k < |a| && a[k] == c && c !in a[..k]
    ensures Split(a + [c] + t, [c]) == [a[..k]] + Split(a[k + 1..] + [c] + t, [c])
  {
    var s := a + [c] + t;
    assert s[..k] == a[..k] && s[k] == c;
    DropFront(a, [c], t, k + 1);
    SplitAtFirst(s, c, k);
  }

  /** A head and a tail that ends in `x`, regrouped. */
  lemma ConsAppend<T>(u: seq<T>, w: seq<T>, v: seq<T>, h: seq<T>, q: seq<T>, x: seq<T>)
    requires u == h + w && w == q + x && v == h + q
    ensures u == v + x
  {
    assert h + (q + x) == h + q + x;
  }

  /** Dropping a front part of the first of three parts. */
  lemma DropFront<T>(a: seq<T>, b: seq<T>, d: seq<T>, k: nat)
    requires k <= |a|
    ensures (a + b + d)[k..] == a[k..] + b + d
  {
  }

  /** The index of the first `c` in `s`. */
  lemma FirstChar(s: string, c: char) returns (k: nat)
    requires c in s
    ensures k < |s| && s[k] == c && c !in s[..k]
  {
    k :| 0 <= k < |s| && s[k] == c && forall j :: 0 <= j < k ==> s[j] != c by {
      var i :| 0 <= i < |s| && s[i] == c;
      FirstCharBelow(s, c, i);
    }
  }

  lemma {:induction false} FirstCharBelow(s: string, c: char, i: nat)
    requires i < |s| && s[i] == c
    ensures exists k :: 0 <= k <= i && s[k] == c && forall j :: 0 <= j < k ==> s[j] != c
  {
    if exists j :: 0 <= j < i && s[j] == c {
      var j :| 0 <= j < i && s[j] == c;
      FirstCharBelow(s, c, j);
    }
  }

  /** Splitting at the first `c`: the text before it, then the split of the rest. */
  lemma SplitAtFirst(s: string, c: char, k: nat)
    requires k < |s| && s[k] == c && c !in s[..k]
    ensures Split(s, [c]) == [s[..k]] + Split(s[k + 1..], [c])
  {
    assert s == s[..k] + [c] + s[k + 1..];
    FindAfterFree(s[..k], c, s[k + 1..]);
  }

  /** The parts `split` produces on a one-character separator do not contain it. */
  lemma {:induction false} SplitPartsFree(s: string, c: char)
    ensures forall k :: 0 <= k < |Split(s, [c])| ==> c !in Split(s, [c])[k]
    decreases |s|
  {
    match Find(s, [c])
    case None => NotFoundNoChar(s, c);
    case Some(i) =>
      assert c !in s[..i] by {
        forall j | 0 <= j < i ensures s[..i][j] != c { OccursAtChar(s, c, j); }
      }
      SplitPartsFree(s[i + 1..], c);
  }

  /** `s.replace(a, b)` for single characters. */
  function ReplaceChar(s: string, a: char, b: char): (r: string)
    ensures |r| == |s|
    ensures forall i :: 0 <= i < |s| ==> r[i] == (if s[i] == a then b else s[i])
  {
    seq(|s|, i requires 0 <= i < |s| => if s[i] == a then b else s[i])
  }

  /** The length of the run of non-whitespace characters at the front of `t`. */
  function WordLength(t: string): (n: nat)
    ensures n <= |t|
    ensures forall i :: 0 <= i < n ==> !IsSpace(t[i])
    ensures n < |t| ==> IsSpace(t[n])
    decreases |t|
  {
    if t == [] || IsSpace(t[0]) then 0 else 1 + WordLength(t[1..])
  }

  /** `s.split()`: the maximal runs of non-whitespace characters, in order. */
  function Words(s: string): (ws: seq<string>)
    ensures forall k :: 0 <= k < |ws| ==> ws[k] != []
    decreases |s|
  {
    if s == [] then []
    else if IsSpace(s[0]) then Words(s[1..])
    else
      var n := WordLength(s);
      [s[..n]] + Words(s[n..])
  }

  predicate IsDigit(c: char) {
    '0' <= c <= '9'
  }

  /** The digits `int()` accepts: ASCII digits, with single underscores
      allowed between two digits. */
  predicate IsDigitGroup(d: string) {
    && d != [] && IsDigit(d[0]) && IsDigit(d[|d| - 1])
    && forall i :: 0 <= i < |d| ==> IsDigit(d[i]) || (d[i] == '_' && i + 1 < |d| && IsDigit(d[i + 1]))
  }

  /** The decimal value of a digit group, underscores ignored. */
  function DigitsValue(d: string): nat
    decreases |d|
  {
    if d == [] then 0
    else if d[|d| - 1] == '_' then DigitsValue(d[..|d| - 1])
    else
      10 * DigitsValue(d[..|d| - 1]) + DigitValue(d[|d| - 1])
  }

  /** The value of one decimal digit (0 for any other character). */
  function DigitValue(c: char): (v: nat)
    ensures v < 10
  {
    if IsDigit(c) then (c as int - '0' as int) as nat else 0
  }

  /** `int(s)`: surrounding whitespace, an optional sign, then a digit group;
      `None` where Python raises ValueError. */
  function ParseInt(s: string): Option<int> {
    var t := Strip(s);
    if t != [] && (t[0] == '+' || t[0] == '-') then
      var v: int := DigitsValue(t[1..]);
      if IsDigitGroup(t[1..]) then Some(if t[0] == '-' then -v else v)
      else None
    else if IsDigitGroup(t) then Some(DigitsValue(t))
    else None
  }

  /** `str(n)` for a natural number. */
  function Show(n: nat): (r: string)
    ensures r != [] && forall i :: 0 <= i < |r| ==> IsDigit(r[i])
  {
    var d := ['0' + (n % 10) as char];
    if n < 10 then d else Show(n / 10) + d
  }

  /** `int(str(n)) == n` */
  lemma ParseShow(n: nat)
    ensures ParseInt(Show(n)) == Some(n)
  {
    ShowValue(n);
    ShowStripped(n);
    ParseDigitGroup(Show(n));
  }

  lemma ShowStripped(n: nat)
    ensures Strip(Show(n)) == Show(n)
  {
    var s := Show(n);
    assert IsDigit(s[0]) && IsDigit(s[|s| - 1]);
    assert !IsSpace(s[0]) && !IsSpace(s[|s| - 1]);
    StripOf([], s, []);
    assert [] + s + [] == s;
  }

  lemma ParseDigitGroup(s: string)
    requires Strip(s) == s && IsDigitGroup(s)
    ensures ParseInt(s) == Some(DigitsValue(s))
  {
  }

  lemma {:induction false} ShowValue(n: nat)
    ensures IsDigitGroup(Show(n)) && DigitsValue(Show(n)) == n
  {
    var s := Show(n);
    if n >= 10 {
      ShowValue(n / 10);
      assert s[..|s| - 1] == Show(n / 10);
    }
  }

  /** `''.join(parts + [x]) == ''.join(parts) + x` */
  lemma {:induction false} JoinSnoc(parts: seq<string>, x: string)
    ensures Join(parts + [x], "") == Join(parts, "") + x
    decreases |parts|
  {
    if parts == [] {
      assert parts + [x] == [x];
    } else if |parts| == 1 {
      assert (parts + [x])[1..] == [x];
    } else {
      assert (parts + [x])[1..] == parts[1..] + [x];
      JoinSnoc(parts[1..], x);
    }
  }

  /** Joining two non-empty lists of parts puts one separator between them. */
  lemma {:induction false} JoinAppend(a: seq<string>, b: seq<string>, sep: string)
    requires a != [] && b != []
    ensures Join(a + b, sep) == Join(a, sep) + sep + Join(b, sep)
    decreases |a|
  {
    if |a| == 1 {
      assert (a + b)[1..] == b;
    } else {
      assert (a + b)[1..] == a[1..] + b;
      JoinAppend(a[1..], b, sep);
      var x, y, z := a[0] + sep, Join(a[1..], sep), sep + Join(b, sep);
      assert x + (y + z) == x + y + z;
    }
  }
}
