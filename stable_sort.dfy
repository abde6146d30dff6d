/** Python's `sorted(xs, key=k)` and `xs.sort(key=k, reverse=True)` on string
    keys, as a stable insertion sort. A stable sort's result is fully
    determined, so any stable algorithm (Python's Timsort included) gives the
    same sequence; what is proved here is that determining pair of facts:
    the result is ordered, and elements with equal keys keep their input order. */
module StableSort {
  import opened Strings

  /** Key `a` sorts strictly before key `b`. */
  predicate Before(a: string, b: string, descending: bool) {
    if descending then LexLess(b, a) else LexLess(a, b)
  }

  lemma BeforeIrreflexive(a: string, descending: bool)
    ensures !Before(a, a, descending)
  {
    LexLessIrreflexive(a);
  }

  lemma BeforeTransitive(a: string, b: string, c: string, descending: bool)
    requires Before(a, b, descending) && Before(b, c, descending)
    ensures Before(a, c, descending)
  {
    if descending { LexLessTransitive(c, b, a); } else { LexLessTransitive(a, b, c); }
  }

  /** No element sorts strictly before an element to its left. */
  ghost predicate Sorted<T>(s: seq<T>, key: T -> string, descending: bool) {
    forall i, j :: 0 <= i < j < |s| ==> !Before(key(s[j]), key(s[i]), descending)
  }

  /** The elements of `s` whose key is `k`, in the order of `s`. */
  function KeyClass<T>(s: seq<T>, key: T -> string, k: string): seq<T> {
    if s == [] then []
    else (if key(s[0]) == k then [s[0]] else []) + KeyClass(s[1..], key, k)
  }

  /** The image of `s` under `f`, element by element. */
  function Project<T>(s: seq<T>, f: T -> string): (r: seq<string>)
    ensures |r| == |s|
    ensures forall i :: 0 <= i < |s| ==> r[i] == f(s[i])
  {
    seq(|s|, i requires 0 <= i < |s| => f(s[i]))
  }

  /** Puts `x` after every element that sorts strictly before it. */
  function Insert<T>(x: T, s: seq<T>, key: T -> string, descending: bool): seq<T> {
    if s == [] then [x]
    else if !Before(key(s[0]), key(x), descending) then [x] + s
    else [s[0]] + Insert(x, s[1..], key, descending)
  }

  function Sort<T>(s: seq<T>, key: T -> string, descending: bool): seq<T> {
    if s == [] then [] else Insert(s[0], Sort(s[1..], key, descending), key, descending)
  }

  lemma {:induction false} InsertMultiset<T>(x: T, s: seq<T>, key: T -> string, descending: bool)
    ensures multiset(Insert(x, s, key, descending)) == multiset{x} + multiset(s)
  {
    if s != [] && Before(key(s[0]), key(x), descending) {
      InsertMultiset(x, s[1..], key, descending);
      assert s == [s[0]] + s[1..];
    }
  }

  lemma BeforeTotal(a: string, b: string, descending: bool)
    ensures Before(a, b, descending) || a == b || Before(b, a, descending)
  {
    LexLessTotal(a, b);
  }

  /** Every element of the result is `x` or an element of `s`. */
  lemma InsertElements<T>(x: T, s: seq<T>, key: T -> string, descending: bool, y: T)
    requires y in Insert(x, s, key, descending)
    ensures y == x || y in s
  {
    InsertMultiset(x, s, key, descending);
    assert y in multiset(Insert(x, s, key, descending));
  }

  lemma {:induction false} InsertSorted<T>(x: T, s: seq<T>, key: T -> string, descending: bool)
    requires Sorted(s, key, descending)
    ensures Sorted(Insert(x, s, key, descending), key, descending)
  {
    var r := Insert(x, s, key, descending);
    if s == [] {
    } else if !Before(key(s[0]), key(x), descending) {
      forall i, j | 0 <= i < j < |r| ensures !Before(key(r[j]), key(r[i]), descending) {
        assert r[j] == s[j - 1];
        if i == 0 && j - 1 > 0 && Before(key(s[j - 1]), key(x), descending) {
          BeforeTotal(key(s[0]), key(s[j - 1]), descending);
          if key(s[0]) != key(s[j - 1]) {
            BeforeTransitive(key(s[0]), key(s[j - 1]), key(x), descending);
          }
          assert false;
        }
        if i > 0 {
          assert r[i] == s[i - 1];
        }
      }
    } else {
      var t := Insert(x, s[1..], key, descending);
      InsertSorted(x, s[1..], key, descending);
      forall i, j | 0 <= i < j < |r| ensures !Before(key(r[j]), key(r[i]), descending) {
        assert r[j] == t[j - 1];
        if i == 0 {
          InsertElements(x, s[1..], key, descending, r[j]);
          if r[j] == x {
            if Before(key(x), key(s[0]), descending) {
              BeforeTransitive(key(x), key(s[0]), key(x), descending);
              BeforeIrreflexive(key(x), descending);
            }
          } else {
            var m :| 0 <= m < |s[1..]| && s[1..][m] == r[j];
            assert s[m + 1] == r[j];
          }
        } else {
          assert r[i] == t[i - 1];
        }
      }
    }
  }

  lemma KeyClassCons<T>(x: T, s: seq<T>, key: T -> string, k: string)
    ensures KeyClass([x] + s, key, k) == (if key(x) == k then [x] else []) + KeyClass(s, key, k)
  {
    assert ([x] + s)[1..] == s;
  }

  lemma {:induction false} InsertKeyClass<T>(x: T, s: seq<T>, key: T -> string, descending: bool, k: string)
    ensures KeyClass(Insert(x, s, key, descending), key, k)
         == (if key(x) == k then [x] else []) + KeyClass(s, key, k)
  {
    if s == [] {
      KeyClassCons(x, s, key, k);
    } else if !Before(key(s[0]), key(x), descending) {
      KeyClassCons(x, s, key, k);
    } else {
      var t := Insert(x, s[1..], key, descending);
      KeyClassCons(s[0], t, key, k);
      InsertKeyClass(x, s[1..], key, descending, k);
      KeyClassCons(s[0], s[1..], key, k);
      assert [s[0]] + s[1..] == s;
      if key(x) == k && key(s[0]) == k {
        BeforeIrreflexive(k, descending);
      }
    }
  }

  lemma {:induction false} InsertProject<T>(x: T, s: seq<T>, key: T -> string, descending: bool, f: T -> string)
    ensures multiset(Project(Insert(x, s, key, descending), f)) == multiset{f(x)} + multiset(Project(s, f))
  {
    if s == [] {
      assert Project([x], f) == [f(x)];
    } else if !Before(key(s[0]), key(x), descending) {
      ProjectCons(x, s, f);
    } else {
      var t := Insert(x, s[1..], key, descending);
      InsertProject(x, s[1..], key, descending, f);
      ProjectCons(s[0], t, f);
      ProjectCons(s[0], s[1..], f);
      assert [s[0]] + s[1..] == s;
    }
  }

  lemma ProjectCons<T>(a: T, s: seq<T>, f: T -> string)
    ensures Project([a] + s, f) == [f(a)] + Project(s, f)
  {
  }

  /** The result is ordered by key. */
  lemma {:induction false} SortSorted<T>(s: seq<T>, key: T -> string, descending: bool)
    ensures Sorted(Sort(s, key, descending), key, descending)
  {
    if s != [] {
      SortSorted(s[1..], key, descending);
      InsertSorted(s[0], Sort(s[1..], key, descending), key, descending);
    }
  }

  /** The result is a rearrangement of the input. */
  lemma {:induction false} SortPermutation<T>(s: seq<T>, key: T -> string, descending: bool)
    ensures multiset(Sort(s, key, descending)) == multiset(s)
  {
    if s != [] {
      SortPermutation(s[1..], key, descending);
      InsertMultiset(s[0], Sort(s[1..], key, descending), key, descending);
      assert s == [s[0]] + s[1..];
    }
  }

  /** Stability: elements with the same key come out in their input order. */
  lemma {:induction false} SortStable<T>(s: seq<T>, key: T -> string, descending: bool, k: string)
    ensures KeyClass(Sort(s, key, descending), key, k) == KeyClass(s, key, k)
  {
    if s != [] {
      SortStable(s[1..], key, descending, k);
      InsertKeyClass(s[0], Sort(s[1..], key, descending), key, descending, k);
    }
  }

  /** Sorting keeps the multiset of any projection (used for file names). */
  lemma {:induction false} SortProject<T>(s: seq<T>, key: T -> string, descending: bool, f: T -> string)
    ensures multiset(Project(Sort(s, key, descending), f)) == multiset(Project(s, f))
  {
    if s != [] {
      SortProject(s[1..], key, descending, f);
      InsertProject(s[0], Sort(s[1..], key, descending), key, descending, f);
      assert Project(s, f) == [f(s[0])] + Project(s[1..], f);
    }
  }

  lemma SortedCons<T>(x: T, s: seq<T>, key: T -> string, descending: bool)
    requires Sorted(s, key, descending)
    requires forall y :: y in s ==> !Before(key(y), key(x), descending)
    ensures Sorted([x] + s, key, descending)
  {
    var r := [x] + s;
    forall i, j | 0 <= i < j < |r| ensures !Before(key(r[j]), key(r[i]), descending) {
      assert r[j] == s[j - 1];
      if i > 0 { assert r[i] == s[i - 1]; }
    }
  }

  lemma {:induction false} CountInKeyClass<T>(s: seq<T>, key: T -> string, e: T)
    ensures multiset(KeyClass(s, key, key(e)))[e] == multiset(s)[e]
  {
    if s != [] {
      CountInKeyClass(s[1..], key, e);
      assert s == [s[0]] + s[1..];
    }
  }

  /** Two sequences with the same key classes are rearrangements of each other. */
  lemma SameClassesPermutation<T>(a: seq<T>, b: seq<T>, key: T -> string)
    requires forall k :: KeyClass(a, key, k) == KeyClass(b, key, k)
    ensures multiset(a) == multiset(b)
  {
    forall e ensures multiset(a)[e] == multiset(b)[e] {
      CountInKeyClass(a, key, e);
      CountInKeyClass(b, key, e);
    }
  }
}
