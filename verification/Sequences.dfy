/** Sums, updates and orderings of finite sequences, shared by the other modules. */
module Sequences {

  function Sum(s: seq<int>): int {
    if s == [] then 0 else s[0] + Sum(s[1..])
  }

  lemma SumAppend(s: seq<int>, t: seq<int>)
    ensures Sum(s + t) == Sum(s) + Sum(t)
  {
    if s == [] {
      assert s + t == t;
    } else {
      assert (s + t)[1..] == s[1..] + t;
      SumAppend(s[1..], t);
    }
  }

  lemma SumUpdate(s: seq<int>, i: nat, v: int)
    requires i < |s|
    ensures Sum(s[i := v]) == Sum(s) - s[i] + v
  {
    assert s == s[..i] + [s[i]] + s[i + 1..];
    assert s[i := v] == s[..i] + [v] + s[i + 1..];
    SumAppend(s[..i] + [s[i]], s[i + 1..]);
    SumAppend(s[..i] + [v], s[i + 1..]);
    SumAppend(s[..i], [s[i]]);
    SumAppend(s[..i], [v]);
  }

  lemma SumConstant(s: seq<int>, v: int)
    requires forall i | 0 <= i < |s| :: s[i] == v
    ensures Sum(s) == |s| * v
  {
    if s != [] {
      SumConstant(s[1..], v);
      assert |s| * v == (|s| - 1) * v + v;
    }
  }

  // Pointwise comparison of two sequences carries over to their sums.
  lemma SumMonotone(s: seq<int>, t: seq<int>)
    requires |s| == |t|
    requires forall i | 0 <= i < |s| :: s[i] <= t[i]
    ensures Sum(s) <= Sum(t)
  {
    if s != [] {
      SumMonotone(s[1..], t[1..]);
    }
  }

  // An entry exceeds its floor by no more than the whole sum does.
  lemma SumBoundsEntry(s: seq<int>, lo: int, i: nat)
    requires i < |s|
    requires forall k | 0 <= k < |s| :: lo <= s[k]
    ensures s[i] + (|s| - 1) * lo <= Sum(s)
  {
    SumLowerBound(s[1..], lo);
    if i == 0 {
      assert |s[1..]| == |s| - 1;
    } else {
      SumBoundsEntry(s[1..], lo, i - 1);
      assert (|s| - 1) * lo == (|s| - 2) * lo + lo;
    }
  }

  lemma SumLowerBound(s: seq<int>, lo: int)
    requires forall k | 0 <= k < |s| :: lo <= s[k]
    ensures |s| * lo <= Sum(s)
  {
    if s != [] {
      SumLowerBound(s[1..], lo);
      assert |s| * lo == (|s| - 1) * lo + lo;
    }
  }

  ghost predicate NoDuplicates<T>(s: seq<T>) {
    forall i, j | 0 <= i < j < |s| :: s[i] != s[j]
  }

  function Below(n: nat): (s: set<nat>)
    ensures forall i: nat :: i in s <==> i < n
    ensures |s| == n
  {
    if n == 0 then {} else Below(n - 1) + {n - 1}
  }

  function Elements<T>(s: seq<T>): set<T> {
    set x | x in s
  }

  lemma {:induction false} DistinctCount<T>(s: seq<T>)
    requires NoDuplicates(s)
    ensures |Elements(s)| == |s|
  {
    if s != [] {
      var prefix, last := s[..|s| - 1], s[|s| - 1];
      DistinctCount(prefix);
      assert Elements(s) == Elements(prefix) + {last};
      assert last !in prefix;
    }
  }

  lemma {:induction false} SubsetSize<T>(a: set<T>, b: set<T>)
    requires a <= b
    ensures |a| <= |b| && (|a| == |b| ==> a == b)
  {
    if a == {} {
      if |b| == 0 { assert b == {}; }
    } else {
      var x :| x in a;
      SubsetSize(a - {x}, b - {x});
      assert a == (a - {x}) + {x} && b == (b - {x}) + {x};
    }
  }

  /** Distinct numbers below n: at most n of them, and all of them when there are n. */
  lemma Pigeonhole(s: seq<nat>, n: nat)
    requires NoDuplicates(s) && forall i | 0 <= i < |s| :: s[i] < n
    ensures |s| <= n && (|s| == n ==> forall i: nat | i < n :: i in s)
  {
    DistinctCount(s);
    SubsetSize(Elements(s), Below(n));
    if |s| == n {
      forall i: nat | i < n ensures i in s {
        assert i in Below(n);
      }
    }
  }

  function RemoveAt<T>(s: seq<T>, i: nat): (r: seq<T>)
    requires i < |s|
    ensures |r| == |s| - 1
    ensures forall k | 0 <= k < |r| :: r[k] == s[if k < i then k else k + 1]
  {
    s[..i] + s[i + 1..]
  }

  function InsertAt<T>(s: seq<T>, i: nat, x: T): (r: seq<T>)
    requires i <= |s|
    ensures |r| == |s| + 1
    ensures forall k | 0 <= k < |r| :: r[k] == if k < i then s[k] else if k == i then x else s[k - 1]
  {
    s[..i] + [x] + s[i..]
  }

  // Removing one occurrence from a list without duplicates removes the element.
  lemma Removed<T>(s: seq<T>, i: nat)
    requires NoDuplicates(s) && i < |s|
    ensures NoDuplicates(RemoveAt(s, i))
    ensures forall x :: x in RemoveAt(s, i) <==> x in s && x != s[i]
  {
    forall x ensures x in RemoveAt(s, i) <==> x in s && x != s[i] {
      if x in s && x != s[i] {
        var k :| 0 <= k < |s| && s[k] == x;
        assert RemoveAt(s, i)[if k < i then k else k - 1] == x;
      }
    }
  }

  lemma NoDuplicatesConcat<T>(s: seq<T>, t: seq<T>)
    ensures NoDuplicates(s + t) <==>
            NoDuplicates(s) && NoDuplicates(t) && forall x <- s :: x !in t
  {
    if NoDuplicates(s + t) {
      forall i, j | 0 <= i < j < |s| ensures s[i] != s[j] {
        assert (s + t)[i] != (s + t)[j];
      }
      forall i, j | 0 <= i < j < |t| ensures t[i] != t[j] {
        assert (s + t)[|s| + i] != (s + t)[|s| + j];
      }
      forall i, j | 0 <= i < |s| && 0 <= j < |t| ensures s[i] != t[j] {
        assert (s + t)[i] != (s + t)[|s| + j];
      }
    }
    if NoDuplicates(s) && NoDuplicates(t) && forall x <- s :: x !in t {
      forall i, j | 0 <= i < j < |s + t| ensures (s + t)[i] != (s + t)[j] {
        if i < |s| <= j {
          assert s[i] in s && t[j - |s|] in t;
        }
      }
    }
  }

  /** A list without an element; remove_sized_list, when the element occurs once. */
  function Without<T(==,!new)>(s: seq<T>, x: T): (r: seq<T>)
    ensures forall y :: y in r <==> y in s && y != x
  {
    if s == [] then [] else if s[0] == x then Without(s[1..], x) else [s[0]] + Without(s[1..], x)
  }

  /** The other elements keep their order. */
  lemma {:induction false} WithoutAppend<T(!new)>(s: seq<T>, y: T, x: T)
    ensures Without(s + [y], x) == Without(s, x) + if y == x then [] else [y]
  {
    if s == [] {
      assert s + [y] == [y] && [y][1..] == [];
    } else {
      WithoutAppend(s[1..], y, x);
      assert (s + [y])[0] == s[0] && (s + [y])[1..] == s[1..] + [y];
    }
  }

  lemma {:induction false} WithoutKeeps<T(!new)>(s: seq<T>, x: T)
    requires NoDuplicates(s)
    ensures NoDuplicates(Without(s, x))
    ensures |Without(s, x)| == |s| - if x in s then 1 else 0
  {
    if s != [] {
      var rest := s[1..];
      WithoutKeeps(rest, x);
      NoDuplicatesConcat([s[0]], rest);
      assert s == [s[0]] + rest;
      NoDuplicatesConcat([s[0]], Without(rest, x));
    }
  }

  lemma {:induction false} WithoutOther<T(!new)>(s: seq<T>, x: T)
    requires x !in s
    ensures Without(s, x) == s
  {
    if s != [] {
      WithoutOther(s[1..], x);
    }
  }
}
