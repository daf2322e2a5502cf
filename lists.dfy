/** Python list operations that the scripts use on lists of lines. */
module Lists {
  import opened Wrappers

  /** `list(range(n))` */
  function Range(n: nat): (r: seq<int>)
    ensures |r| == n
    ensures forall i :: 0 <= i < n ==> r[i] == i
  {
    if n == 0 then [] else Range(n - 1) + [n - 1]
  }

  /** The list after `list.reverse()`. */
  function Reversed<T>(s: seq<T>): (r: seq<T>)
    ensures |r| == |s|
    ensures forall i :: 0 <= i < |s| ==> r[i] == s[|s| - 1 - i]
  {
    if s == [] then [] else Reversed(s[1..]) + [s[0]]
  }

  lemma {:induction false} ReversedTwice<T>(s: seq<T>)
    ensures Reversed(Reversed(s)) == s
  {
    var r := Reversed(Reversed(s));
    assert |r| == |s|;
    forall i | 0 <= i < |s| ensures r[i] == s[i] {
      assert r[i] == Reversed(s)[|s| - 1 - i];
    }
  }

  lemma {:induction false} ReversedMultiset<T>(s: seq<T>)
    ensures multiset(Reversed(s)) == multiset(s)
  {
    if s != [] {
      ReversedMultiset(s[1..]);
      assert s == [s[0]] + s[1..];
    }
  }

  /** The first index `i >= from` with `p(s[i])`: the early-exit search loop
      `for i in range(from, len(s)): if p(s[i]): ... break` that several of the
      scripts run, as a value. */
  function FirstFrom<T>(s: seq<T>, from: nat, p: T -> bool): (r: Option<nat>)
    ensures r.Some? ==> from <= r.value < |s| && p(s[r.value])
    ensures r.Some? ==> forall k :: from <= k < r.value ==> !p(s[k])
    ensures r.None? ==> forall k :: from <= k < |s| ==> !p(s[k])
    decreases |s| - from
  {
    if from >= |s| then None
    else if p(s[from]) then Some(from)
    else FirstFrom(s, from + 1, p)
  }

  /** The search moves past an element that fails the test. */
  lemma FirstFromStep<T>(s: seq<T>, i: nat, p: T -> bool)
    requires i < |s| && !p(s[i])
    ensures FirstFrom(s, i, p) == FirstFrom(s, i + 1, p)
  {
  }

  /** Searching from the front past an element that fails the test is
      searching the tail, one index further on. */
  lemma FirstFromTail<T>(s: seq<T>, p: T -> bool)
    requires s != [] && !p(s[0])
    ensures FirstFrom(s, 0, p) == match FirstFrom(s[1..], 0, p)
                                  case None => None
                                  case Some(c) => Some(c + 1)
  {
    match FirstFrom(s[1..], 0, p)
    case None =>
      assert forall k :: 1 <= k < |s| ==> !p(s[k]) by {
        forall k | 1 <= k < |s| ensures !p(s[k]) { assert s[k] == s[1..][k - 1]; }
      }
    case Some(c) =>
      assert s[c + 1] == s[1..][c];
      assert forall k :: 1 <= k < c + 1 ==> !p(s[k]) by {
        forall k | 1 <= k < c + 1 ensures !p(s[k]) { assert s[k] == s[1..][k - 1]; }
      }
      FirstFromAt(s, 0, p, c + 1);
  }

  /** The search returns an index at which the test holds and before which,
      from the start, it fails nowhere. */
  lemma {:induction false} FirstFromAt<T>(s: seq<T>, from: nat, p: T -> bool, c: nat)
    requires from <= c < |s| && p(s[c]) && forall k :: from <= k < c ==> !p(s[k])
    ensures FirstFrom(s, from, p) == Some(c)
    decreases c - from
  {
    if from < c {
      FirstFromAt(s, from + 1, p, c);
    }
  }

  /** Slices of the tail of `s`, seen as slices of `s`. */
  lemma TailSlices<T>(pre: seq<T>, s: seq<T>, c: nat)
    requires s != [] && c < |s| - 1
    ensures pre + [s[0]] + s[1..][..c] == pre + s[..c + 1]
    ensures s[1..][c + 1..] == s[c + 2..]
  {
    assert s[..c + 1] == [s[0]] + s[1..][..c];
  }

  /** A suffix cut in three. */
  lemma Slices3<T>(s: seq<T>, i: nat, a: nat, b: nat)
    requires i <= a <= b <= |s|
    ensures s[i..] == s[i..a] + s[a..b] + s[b..]
  {
  }

  /** A slice is its first element and the rest. */
  lemma ConsSlice<T>(s: seq<T>, i: nat, j: nat)
    requires i < j <= |s|
    ensures s[i..j] == [s[i]] + s[i + 1..j]
  {
  }

  /** A sequence with no element twice. */
  predicate Distinct<T(==)>(s: seq<T>) {
    forall i, j :: 0 <= i < j < |s| ==> s[i] != s[j]
  }

  predicate Sorted(s: seq<int>) {
    forall i, j :: 0 <= i < j < |s| ==> s[i] <= s[j]
  }

  /** `x` inserted into the sorted list `s` in front of the first element
      that is not smaller. */
  function Insert(x: int, s: seq<int>): (r: seq<int>)
    ensures |r| == |s| + 1 && r[0] == (if s == [] || x <= s[0] then x else s[0])
  {
    if s == [] || x <= s[0] then [x] + s else [s[0]] + Insert(x, s[1..])
  }

  /** Inserting into a sorted list keeps it sorted. */
  lemma {:induction false} InsertSorted(x: int, s: seq<int>)
    requires Sorted(s)
    ensures Sorted(Insert(x, s))
  {
    if s == [] || x <= s[0] {
      SortedCons(x, s);
    } else {
      assert Sorted(s[1..]);
      InsertSorted(x, s[1..]);
      assert |s| > 1 ==> s[0] <= s[1];
      SortedCons(s[0], Insert(x, s[1..]));
    }
  }

  /** Inserting adds exactly the one element. */
  lemma {:induction false} InsertMultiset(x: int, s: seq<int>)
    ensures multiset(Insert(x, s)) == multiset(s) + multiset{x}
  {
    if s != [] && x > s[0] {
      InsertMultiset(x, s[1..]);
      assert s == [s[0]] + s[1..];
    }
  }

  /** A sorted list stays sorted behind an element no greater than its head. */
  lemma SortedCons(h: int, t: seq<int>)
    requires Sorted(t) && (t == [] || h <= t[0])
    ensures Sorted([h] + t)
  {
    var r := [h] + t;
    forall i, j | 0 <= i < j < |r| ensures r[i] <= r[j] {
      if i == 0 && j > 1 {
        assert t[0] <= t[j - 1];
      }
    }
  }

  /** `sorted(s)` for a list of integers. */
  function Sort(s: seq<int>): (r: seq<int>)
    ensures Sorted(r) && multiset(r) == multiset(s)
  {
    if s == [] then []
    else
      assert s == [s[0]] + s[1..];
      InsertSorted(s[0], Sort(s[1..]));
      InsertMultiset(s[0], Sort(s[1..]));
      Insert(s[0], Sort(s[1..]))
  }

  /** Two sorted lists with the same elements are the same list. */
  lemma {:induction false} SortedUnique(a: seq<int>, b: seq<int>)
    requires Sorted(a) && Sorted(b) && multiset(a) == multiset(b)
    ensures a == b
    decreases |a|
  {
    if a == [] {
      assert |multiset(b)| == 0;
    } else {
      assert |multiset(b)| == |a|;
      assert b != [];
      assert b[0] in multiset(a) by { assert b[0] in multiset(b); }
      assert a[0] in multiset(b) by { assert a[0] in multiset(a); }
      HeadIsLeast(a, b[0]);
      HeadIsLeast(b, a[0]);
      SortedTail(a);
      SortedTail(b);
      assert a[0] == b[0];
      assert multiset(a[1..]) == multiset(a) - multiset{a[0]};
      assert multiset(b[1..]) == multiset(b) - multiset{b[0]};
      SortedUnique(a[1..], b[1..]);
    }
  }

  /** Without its head, a sorted list is sorted and holds the other elements. */
  lemma SortedTail(s: seq<int>)
    requires Sorted(s) && s != []
    ensures Sorted(s[1..])
    ensures multiset(s) == multiset{s[0]} + multiset(s[1..])
  {
    assert s == [s[0]] + s[1..];
  }

  /** The head of a sorted list is its least element. */
  lemma HeadIsLeast(s: seq<int>, v: int)
    requires Sorted(s) && v in multiset(s)
    ensures s[0] <= v
  {
    var i :| 0 <= i < |s| && s[i] == v;
  }

  /** No element twice exactly when every element occurs at most once. */
  lemma {:induction false} DistinctCounts<T>(s: seq<T>)
    ensures Distinct(s) <==> forall v :: multiset(s)[v] <= 1
    decreases |s|
  {
    if s != [] {
      var p, x := s[..|s| - 1], s[|s| - 1];
      assert s == p + [x];
      DistinctCounts(p);
      if Distinct(s) {
        assert Distinct(p);
        assert x !in p;
        forall v ensures multiset(s)[v] <= 1 {
          assert multiset(s)[v] == multiset(p)[v] + multiset([x])[v];
        }
      } else {
        var i, j :| 0 <= i < j < |s| && s[i] == s[j];
        var v := s[i];
        if j < |s| - 1 {
          assert !Distinct(p) by { assert p[i] == p[j]; }
          var w :| multiset(p)[w] > 1;
          assert multiset(s)[w] == multiset(p)[w] + multiset([x])[w];
        } else {
          assert p[i] == x;
          assert multiset(p)[x] >= 1;
          assert multiset(s)[x] == multiset(p)[x] + 1;
        }
      }
    }
  }

  /** The position of the first `v` in `s`: `s.index(v)`. */
  function IndexOf<T(==)>(s: seq<T>, v: T): (k: nat)
    requires v in s
    ensures k < |s| && s[k] == v
    ensures forall j :: 0 <= j < k ==> s[j] != v
  {
    if s[0] == v then 0 else 1 + IndexOf(s[1..], v)
  }

  /** `[f(x) for x in s]` */
  function Map<T, U>(s: seq<T>, f: T -> U): (r: seq<U>)
    ensures |r| == |s| && forall k :: 0 <= k < |s| ==> r[k] == f(s[k])
    decreases |s|
  {
    if s == [] then [] else Map(s[..|s| - 1], f) + [f(s[|s| - 1])]
  }

  /** Mapping one more element of a prefix. */
  lemma MapSnoc<T, U>(s: seq<T>, k: nat, f: T -> U)
    requires k < |s|
    ensures Map(s[..k + 1], f) == Map(s[..k], f) + [f(s[k])]
  {
    assert s[..k + 1][..k] == s[..k];
  }

  /** `[f(x) for x in s]` where `f` may raise: the results of all elements,
      or the failure of the first element that fails. */
  function MapResult<T, U, E>(s: seq<T>, f: T -> Result<U, E>): Result<seq<U>, E>
    decreases |s|
  {
    if s == [] then Ok([])
    else match MapResult(s[..|s| - 1], f)
      case Err(e) => Err(e)
      case Ok(done) =>
        match f(s[|s| - 1])
        case Err(e) => Err(e)
        case Ok(y) => Ok(done + [y])
  }

  /** The outcome of mapping `a + b`: `a`'s failure, else `b`'s failure,
      else both result lists. */
  function Then<U, E>(x: Result<seq<U>, E>, y: Result<seq<U>, E>): Result<seq<U>, E> {
    match x
    case Err(e) => Err(e)
    case Ok(p) =>
      match y
      case Err(e) => Err(e)
      case Ok(q) => Ok(p + q)
  }

  lemma {:induction false} MapResultAppend<T, U, E>(a: seq<T>, b: seq<T>, f: T -> Result<U, E>)
    ensures MapResult(a + b, f) == Then(MapResult(a, f), MapResult(b, f))
    decreases |b|
  {
    if b == [] {
      assert a + b == a;
      if MapResult(a, f).Ok? {
        assert MapResult(a, f).value + [] == MapResult(a, f).value;
      }
    } else {
      var b' := b[..|b| - 1];
      assert (a + b)[..|a + b| - 1] == a + b';
      assert (a + b)[|a + b| - 1] == b[|b| - 1];
      MapResultAppend(a, b', f);
      if MapResult(a, f).Ok? && MapResult(b', f).Ok? && f(b[|b| - 1]).Ok? {
        var p, q, y := MapResult(a, f).value, MapResult(b', f).value, f(b[|b| - 1]).value;
        assert p + q + [y] == p + (q + [y]);
      }
    }
  }

  /** Once a prefix fails, the whole fails the same way. */
  lemma MapResultFailureStays<T, U, E>(s: seq<T>, i: nat, f: T -> Result<U, E>)
    requires i <= |s| && MapResult(s[..i], f).Err?
    ensures MapResult(s, f) == MapResult(s[..i], f)
  {
    assert s == s[..i] + s[i..];
    MapResultAppend(s[..i], s[i..], f);
  }

  /** Mapping succeeds exactly when every element does, and then keeps the
      length and maps each element at its own position. */
  lemma {:induction false} MapResultOk<T, U, E>(s: seq<T>, f: T -> Result<U, E>)
    ensures MapResult(s, f).Ok? <==> forall j :: 0 <= j < |s| ==> f(s[j]).Ok?
    ensures MapResult(s, f).Ok? ==>
      && |MapResult(s, f).value| == |s|
      && forall j :: 0 <= j < |s| ==> MapResult(s, f).value[j] == f(s[j]).value
    decreases |s|
  {
    if s != [] {
      var p := s[..|s| - 1];
      MapResultOk(p, f);
      assert forall j :: 0 <= j < |p| ==> p[j] == s[j];
    }
  }

  /** A failed map fails with the failure of the first failing element. */
  lemma {:induction false} MapResultErr<T, U, E>(s: seq<T>, f: T -> Result<U, E>) returns (j: nat)
    requires MapResult(s, f).Err?
    ensures j < |s| && f(s[j]) == Err(MapResult(s, f).error)
    ensures forall k :: 0 <= k < j ==> f(s[k]).Ok?
    decreases |s|
  {
    var p := s[..|s| - 1];
    assert forall k :: 0 <= k < |p| ==> p[k] == s[k];
    if MapResult(p, f).Err? {
      j := MapResultErr(p, f);
    } else {
      MapResultOk(p, f);
      j := |s| - 1;
    }
  }

  /** Extending a slice by the next element. */
  lemma SliceExtend<T>(s: seq<T>, a: nat, b: nat)
    requires a <= b < |s|
    ensures s[a..b] + [s[b]] == s[a..b + 1]
  {
  }

  /** Extending a prefix by the next element. */
  lemma PrefixExtend<T>(s: seq<T>, i: nat)
    requires i < |s|
    ensures s[..i] + [s[i]] == s[..i + 1]
  {
  }

  /** A sequence is its prefix followed by the rest. */
  lemma PrefixRest<T>(s: seq<T>, i: nat)
    requires i <= |s|
    ensures s[..i] + s[i..] == s
  {
  }

  /** Cutting `a + b` inside `a`. */
  lemma AppendSlices<T>(a: seq<T>, b: seq<T>, n: nat)
    requires n <= |a|
    ensures (a + b)[..n] == a[..n]
    ensures (a + b)[n..] == a[n..] + b
  {
  }

  /** A prefix followed by the slice after it is the longer prefix. */
  lemma PrefixSlice<T>(s: seq<T>, a: nat, b: nat)
    requires a <= b <= |s|
    ensures s[..a] + s[a..b] == s[..b]
  {
  }

  lemma Associative<T>(a: seq<T>, b: seq<T>, c: seq<T>)
    ensures a + b + c == a + (b + c)
  {
  }
}
