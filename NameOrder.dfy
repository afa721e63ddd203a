// The case-insensitive name order that sorts pages and tree nodes, and the
// sort itself.

module NameOrder {

  /** ASCII case folding of one character. */
  function FoldChar(c: char): char
  {
    if 'A' <= c <= 'Z' then (c as int + 32) as char else c
  }

  function Fold(s: string): (r: string)
    ensures |r| == |s|
  {
    if s == [] then [] else [FoldChar(s[0])] + Fold(s[1..])
  }

  /** Strict lexicographic order on character sequences. */
  predicate LexLess(a: string, b: string)
  {
    if a == [] then b != []
    else if b == [] then false
    else a[0] < b[0] || (a[0] == b[0] && LexLess(a[1..], b[1..]))
  }

  lemma {:induction false} LexLessIrreflexive(a: string)
    ensures !LexLess(a, a)
  {
    if a != [] {
      LexLessIrreflexive(a[1..]);
    }
  }

  lemma {:induction false} LexLessTransitive(a: string, b: string, c: string)
    requires LexLess(a, b) && LexLess(b, c)
    ensures LexLess(a, c)
  {
    if a != [] && b != [] && c != [] && a[0] == b[0] == c[0] {
      LexLessTransitive(a[1..], b[1..], c[1..]);
    }
  }

  lemma {:induction false} LexLessTotal(a: string, b: string)
    requires a != b
    ensures LexLess(a, b) || LexLess(b, a)
  {
    if a != [] && b != [] && a[0] == b[0] {
      assert a == [a[0]] + a[1..] && b == [b[0]] + b[1..];
      LexLessTotal(a[1..], b[1..]);
    }
  }

  /**
   * `lhs.localizedCaseInsensitiveCompare(rhs) == .orderedAscending`,
   * modelled as the lexicographic order of the case-folded names.
   */
  predicate NameLess(a: string, b: string)
    ensures NameLess(a, b) ==> Fold(a) != Fold(b)
  {
    LexLessIrreflexive(Fold(a));
    LexLess(Fold(a), Fold(b))
  }

  /** "Not after": the non-strict companion of NameLess. */
  predicate NameLeq(a: string, b: string)
  {
    !NameLess(b, a)
  }

  /** NameLess is a strict weak order, so NameLeq is a total preorder. */
  lemma NameLessAsymmetric(a: string, b: string)
    requires NameLess(a, b)
    ensures !NameLess(b, a)
  {
    if LexLess(Fold(b), Fold(a)) {
      LexLessTransitive(Fold(a), Fold(b), Fold(a));
      LexLessIrreflexive(Fold(a));
    }
  }

  lemma NameLeqTotal(a: string, b: string)
    ensures NameLeq(a, b) || NameLeq(b, a)
  {
    if NameLess(a, b) {
      NameLessAsymmetric(a, b);
    }
  }

  lemma NameLeqTransitive(a: string, b: string, c: string)
    requires NameLeq(a, b) && NameLeq(b, c)
    ensures NameLeq(a, c)
  {
    var fa, fb, fc := Fold(a), Fold(b), Fold(c);
    if fa != fb {
      LexLessTotal(fa, fb);
    }
    if LexLess(fc, fa) && LexLess(fa, fb) {
      LexLessTransitive(fc, fa, fb);
    }
  }

  /** Sorted in the sense of `sort(by:)`: no element is ordered before an earlier one. */
  ghost predicate SortedByName<T>(s: seq<T>, name: T -> string)
  {
    forall i, j :: 0 <= i < j < |s| ==> NameLeq(name(s[i]), name(s[j]))
  }

  /** Inserts `x` before the first element that is not ordered before it. */
  function InsertByName<T>(x: T, s: seq<T>, name: T -> string): (r: seq<T>)
    ensures multiset(r) == multiset(s) + multiset{x}
    ensures |r| == |s| + 1
  {
    if s == [] || !NameLess(name(s[0]), name(x)) then [x] + s
    else
      assert s == [s[0]] + s[1..];
      [s[0]] + InsertByName(x, s[1..], name)
  }

  /** The sort of page and node lists by name: an insertion sort. */
  function SortByName<T>(s: seq<T>, name: T -> string): (r: seq<T>)
    ensures multiset(r) == multiset(s)
    ensures |r| == |s|
  {
    if s == [] then []
    else
      assert s == [s[0]] + s[1..];
      InsertByName(s[0], SortByName(s[1..], name), name)
  }

  lemma {:induction false} InsertByNameSorted<T>(x: T, s: seq<T>, name: T -> string)
    requires SortedByName(s, name)
    ensures SortedByName(InsertByName(x, s, name), name)
  {
    var r := InsertByName(x, s, name);
    if s == [] || !NameLess(name(s[0]), name(x)) {
      forall i, j | 0 <= i < j < |r| ensures NameLeq(name(r[i]), name(r[j])) {
        if i == 0 {
          assert r[j] == s[j - 1];
          if j > 1 {
            NameLeqTransitive(name(x), name(s[0]), name(s[j - 1]));
          }
        } else {
          assert r[i] == s[i - 1] && r[j] == s[j - 1];
        }
      }
    } else {
      var tail := InsertByName(x, s[1..], name);
      assert SortedByName(s[1..], name) by {
        forall i, j | 0 <= i < j < |s[1..]| ensures NameLeq(name(s[1..][i]), name(s[1..][j])) {
          assert s[1..][i] == s[i + 1] && s[1..][j] == s[j + 1];
        }
      }
      InsertByNameSorted(x, s[1..], name);
      NameLessAsymmetric(name(s[0]), name(x));
      forall k | 0 <= k < |tail| ensures NameLeq(name(s[0]), name(tail[k])) {
        assert tail[k] in multiset(tail);
        assert tail[k] == x || tail[k] in multiset(s[1..]);
        if tail[k] != x {
          var m :| 0 <= m < |s[1..]| && s[1..][m] == tail[k];
          assert s[1..][m] == s[m + 1];
        }
      }
      forall i, j | 0 <= i < j < |r| ensures NameLeq(name(r[i]), name(r[j])) {
        if i == 0 {
          assert r[j] == tail[j - 1];
        } else {
          assert r[i] == tail[i - 1] && r[j] == tail[j - 1];
        }
      }
    }
  }

  /** The sort's result is ordered by name (and, by its contract, a permutation). */
  lemma {:induction false} SortByNameSorted<T>(s: seq<T>, name: T -> string)
    ensures SortedByName(SortByName(s, name), name)
  {
    if s != [] {
      SortByNameSorted(s[1..], name);
      InsertByNameSorted(s[0], SortByName(s[1..], name), name);
    }
  }

  /** Already-sorted input is returned as it is. */
  lemma {:induction false} SortByNameOfSorted<T>(s: seq<T>, name: T -> string)
    requires SortedByName(s, name)
    ensures SortByName(s, name) == s
  {
    if s != [] {
      assert SortedByName(s[1..], name) by {
        forall i, j | 0 <= i < j < |s[1..]| ensures NameLeq(name(s[1..][i]), name(s[1..][j])) {
          assert s[1..][i] == s[i + 1] && s[1..][j] == s[j + 1];
        }
      }
      SortByNameOfSorted(s[1..], name);
      if |s| > 1 {
        assert NameLeq(name(s[0]), name(s[1]));
      }
    }
  }
}
