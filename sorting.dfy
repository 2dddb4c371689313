/**
 * Ordering used to give the repository's ORDER BY clauses a meaning: a generic
 * insertion sort over any total preorder, and the lexicographic order of names.
 */
module Sorting {

  ghost predicate Total<T(!new)>(leq: (T, T) -> bool) {
    forall a, b :: leq(a, b) || leq(b, a)
  }

  ghost predicate Transitive<T(!new)>(leq: (T, T) -> bool) {
    forall a, b, c :: leq(a, b) && leq(b, c) ==> leq(a, c)
  }

  /** What an ORDER BY needs of its comparison: any two rows compare, and consistently. */
  ghost predicate TotalPreorder<T(!new)>(leq: (T, T) -> bool) {
    Total(leq) && Transitive(leq)
  }

  predicate SortedBy<T>(s: seq<T>, leq: (T, T) -> bool) {
    forall i, j :: 0 <= i < j < |s| ==> leq(s[i], s[j])
  }

  function Insert<T>(x: T, s: seq<T>, leq: (T, T) -> bool): (r: seq<T>)
    ensures multiset(r) == multiset(s) + multiset{x}
  {
    if s == [] then [x]
    else if leq(x, s[0]) then [x] + s
    else
      var rest := Insert(x, s[1..], leq);
      assert s == [s[0]] + s[1..];
      [s[0]] + rest
  }

  function Sort<T>(s: seq<T>, leq: (T, T) -> bool): (r: seq<T>)
    ensures multiset(r) == multiset(s)
  {
    if s == [] then []
    else
      assert s == [s[0]] + s[1..];
      Insert(s[0], Sort(s[1..], leq), leq)
  }

  /** Putting an element in front of a sorted sequence that it precedes entirely keeps it sorted. */
  lemma PrependSorted<T>(y: T, s: seq<T>, leq: (T, T) -> bool)
    requires SortedBy(s, leq)
    requires forall k :: 0 <= k < |s| ==> leq(y, s[k])
    ensures SortedBy([y] + s, leq)
  {
    var r := [y] + s;
    forall i, j | 0 <= i < j < |r| ensures leq(r[i], r[j]) {
      assert r[j] == s[j - 1];
      if i > 0 {
        assert r[i] == s[i - 1];
      }
    }
  }

  lemma {:induction false} InsertSorted<T(!new)>(x: T, s: seq<T>, leq: (T, T) -> bool)
    requires TotalPreorder(leq)
    requires SortedBy(s, leq)
    ensures SortedBy(Insert(x, s, leq), leq)
  {
    if s == [] {
    } else if leq(x, s[0]) {
      forall k | 0 <= k < |s| ensures leq(x, s[k]) {
        if k > 0 {
          assert leq(s[0], s[k]);
        }
      }
      PrependSorted(x, s, leq);
    } else {
      var tail := s[1..];
      assert SortedBy(tail, leq) by {
        forall i, j | 0 <= i < j < |tail| ensures leq(tail[i], tail[j]) {
          assert leq(s[i + 1], s[j + 1]);
        }
      }
      InsertSorted(x, tail, leq);
      InsertKeepsLowerBound(s[0], x, s, leq);
      PrependSorted(s[0], Insert(x, tail, leq), leq);
    }
  }

  /** When s[0] precedes x as well as the rest of the sorted s, it precedes everything Insert puts after it. */
  lemma InsertKeepsLowerBound<T(!new)>(y: T, x: T, s: seq<T>, leq: (T, T) -> bool)
    requires Total(leq) && s != [] && s[0] == y && SortedBy(s, leq) && !leq(x, y)
    ensures forall k :: 0 <= k < |Insert(x, s[1..], leq)| ==> leq(y, Insert(x, s[1..], leq)[k])
  {
    var rest := Insert(x, s[1..], leq);
    forall k | 0 <= k < |rest| ensures leq(y, rest[k]) {
      assert rest[k] in multiset(rest);
      if rest[k] != x {
        assert rest[k] in multiset(s[1..]);
        var m :| 0 <= m < |s[1..]| && s[1..][m] == rest[k];
        assert leq(s[0], s[m + 1]);
      }
    }
  }

  /** Sort returns its input rearranged so that every earlier element is leq every later one. */
  lemma {:induction false} SortSorted<T(!new)>(s: seq<T>, leq: (T, T) -> bool)
    requires TotalPreorder(leq)
    ensures SortedBy(Sort(s, leq), leq)
    ensures multiset(Sort(s, leq)) == multiset(s)
  {
    if s != [] {
      SortSorted(s[1..], leq);
      InsertSorted(s[0], Sort(s[1..], leq), leq);
    }
  }

  // ---------------------------------------------------------------- names

  /** Code-point lexicographic order of strings: the order ORDER BY name gives under a binary collation. */
  predicate LexLeq(a: string, b: string)
    decreases |a|
  {
    if a == [] then true
    else if b == [] then false
    else if a[0] != b[0] then a[0] < b[0]
    else LexLeq(a[1..], b[1..])
  }

  lemma {:induction false} LexTotal(a: string, b: string)
    ensures LexLeq(a, b) || LexLeq(b, a)
    decreases |a|
  {
    if a != [] && b != [] && a[0] == b[0] {
      LexTotal(a[1..], b[1..]);
    }
  }

  lemma {:induction false} LexTransitive(a: string, b: string, c: string)
    requires LexLeq(a, b) && LexLeq(b, c)
    ensures LexLeq(a, c)
    decreases |a|
  {
    if a != [] && b != [] && c != [] && a[0] == b[0] && b[0] == c[0] {
      LexTransitive(a[1..], b[1..], c[1..]);
    }
  }

  lemma {:induction false} LexAntisymmetric(a: string, b: string)
    requires LexLeq(a, b) && LexLeq(b, a)
    ensures a == b
    decreases |a|
  {
    if a != [] && b != [] {
      LexAntisymmetric(a[1..], b[1..]);
      assert a == [a[0]] + a[1..] && b == [b[0]] + b[1..];
    }
  }
}
