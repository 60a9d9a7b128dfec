/**
 * The order in which Go's sort.Strings arranges keys: byte-wise
 * lexicographic comparison. Keys are Dafny strings of Unicode scalar
 * values; comparing scalar values in order gives the same result as
 * comparing their UTF-8 encodings byte by byte.
 */
module KeyOrder {

  /** `a` sorts strictly before `b`. */
  predicate Less(a: string, b: string)
    decreases |a|
  {
    if |a| == 0 then |b| > 0
    else if |b| == 0 then false
    else if a[0] != b[0] then a[0] < b[0]
    else Less(a[1..], b[1..])
  }

  predicate LessEq(a: string, b: string) {
    a == b || Less(a, b)
  }

  lemma {:induction false} LessIrreflexive(a: string)
    ensures !Less(a, a)
    decreases |a|
  {
    if |a| > 0 {
      LessIrreflexive(a[1..]);
    }
  }

  lemma {:induction false} LessTransitive(a: string, b: string, c: string)
    requires Less(a, b) && Less(b, c)
    ensures Less(a, c)
    decreases |a|
  {
    if |a| > 0 && a[0] == b[0] && b[0] == c[0] {
      LessTransitive(a[1..], b[1..], c[1..]);
    }
  }

  lemma LessAsymmetric(a: string, b: string)
    requires Less(a, b)
    ensures !Less(b, a)
  {
    if Less(b, a) {
      LessTransitive(a, b, a);
      LessIrreflexive(a);
    }
  }

  lemma {:induction false} LessTotal(a: string, b: string)
    requires a != b
    ensures Less(a, b) || Less(b, a)
    decreases |a|
  {
    if |a| > 0 && |b| > 0 && a[0] == b[0] {
      assert a == [a[0]] + a[1..] && b == [b[0]] + b[1..];
      LessTotal(a[1..], b[1..]);
    }
  }

  lemma LessEqTransitive(a: string, b: string, c: string)
    requires LessEq(a, b) && LessEq(b, c)
    ensures LessEq(a, c)
  {
    if a != b && b != c {
      LessTransitive(a, b, c);
    }
  }

  /** Ascending, duplicates allowed: what sort.Strings leaves behind. */
  ghost predicate Sorted(s: seq<string>) {
    forall i, j :: 0 <= i < j < |s| ==> LessEq(s[i], s[j])
  }

  /** Ascending without duplicates. */
  ghost predicate StrictlySorted(s: seq<string>) {
    forall i, j :: 0 <= i < j < |s| ==> Less(s[i], s[j])
  }

  lemma PrependSorted(h: string, t: seq<string>)
    requires Sorted(t)
    requires forall y :: y in t ==> LessEq(h, y)
    ensures Sorted([h] + t)
  {
    var s := [h] + t;
    forall i, j | 0 <= i < j < |s| ensures LessEq(s[i], s[j]) {
      if i > 0 {
        assert s[i] == t[i - 1] && s[j] == t[j - 1];
      } else {
        assert s[j] == t[j - 1] && s[j] in t;
      }
    }
  }

  /** Inserts `x` into the sorted sequence `s` before the first element it does not exceed. */
  function Insert(s: seq<string>, x: string): (r: seq<string>)
    requires Sorted(s)
    ensures Sorted(r)
    ensures multiset(r) == multiset(s) + multiset{x}
    decreases |s|
  {
    if s == [] then [x]
    else if LessEq(x, s[0]) then
      (forall y | y in s ensures LessEq(x, y) {
         var j :| 0 <= j < |s| && s[j] == y;
         if j > 0 { LessEqTransitive(x, s[0], y); }
       }
       PrependSorted(x, s);
       [x] + s)
    else
      var t := Insert(s[1..], x);
      assert s == [s[0]] + s[1..];
      (forall y | y in t ensures LessEq(s[0], y) {
         assert y in multiset(t);
         if y == x {
           LessTotal(x, s[0]);
         } else {
           assert y in multiset(s[1..]);
           var j :| 0 <= j < |s[1..]| && s[1..][j] == y;
           assert s[j + 1] == y;
         }
       }
       PrependSorted(s[0], t);
       [s[0]] + t)
  }

  /** sort.Strings: the keys in ascending order, a permutation of the input. */
  function SortKeys(s: seq<string>): (r: seq<string>)
    ensures Sorted(r)
    ensures multiset(r) == multiset(s)
  {
    if s == [] then []
    else
      assert s == s[..|s| - 1] + [s[|s| - 1]];
      Insert(SortKeys(s[..|s| - 1]), s[|s| - 1])
  }

  /** A sorted permutation of a sequence without repeats has no repeats either. */
  lemma SortedDistinctIsStrict(s: seq<string>, keys: set<string>)
    requires Sorted(s)
    requires multiset(s) == multiset(keys)
    ensures StrictlySorted(s)
  {
    forall i, j | 0 <= i < j < |s| ensures Less(s[i], s[j]) {
      if s[i] == s[j] {
        TwoOccurrences(s, i, j);
        assert false;
      }
    }
  }

  lemma TwoOccurrences(s: seq<string>, i: int, j: int)
    requires 0 <= i < j < |s| && s[i] == s[j]
    ensures multiset(s)[s[i]] >= 2
  {
    assert s == s[..j] + [s[j]] + s[j + 1..];
    assert s[..j][i] == s[i];
    assert s[i] in multiset(s[..j]);
  }
}
