/**
 * Sequence operations shared by several source files: the stable sort by a
 * string key that `Array.prototype.sort` performs with a consistent
 * comparator, order-preserving de-duplication (what a JavaScript `Set` or a
 * `seen`-set loop yields), and the facts about them the model relies on.
 */
module Seqs {
  import opened Strings

  predicate Distinct<T(==)>(s: seq<T>)
  {
    forall i, j :: 0 <= i < j < |s| ==> s[i] != s[j]
  }

  predicate SortedBy<T>(s: seq<T>, key: T -> string)
  {
    forall i, j :: 0 <= i < j < |s| ==> LexLe(key(s[i]), key(s[j]))
  }

  function Id(s: string): string { s }

  function MapSeq<A, B>(s: seq<A>, f: A -> B): (r: seq<B>)
    ensures |r| == |s| && forall i :: 0 <= i < |s| ==> r[i] == f(s[i])
  {
    seq(|s|, i requires 0 <= i < |s| => f(s[i]))
  }

  /** The keys of a list of key/value pairs, in order. */
  function KeysOf<V>(fs: seq<(string, V)>): (ks: seq<string>)
    ensures |ks| == |fs| && forall i :: 0 <= i < |fs| ==> ks[i] == fs[i].0
  {
    seq(|fs|, i requires 0 <= i < |fs| => fs[i].0)
  }

  // ------------------------------------------------------------ filter

  /** `s.filter(p)`. */
  function Filter<T>(s: seq<T>, p: T -> bool): (r: seq<T>)
    ensures |r| <= |s|
  {
    if |s| == 0 then []
    else Filter(s[..|s| - 1], p) + (if p(s[|s| - 1]) then [s[|s| - 1]] else [])
  }

  /** The positions of the elements `Filter` keeps. */
  function FilterIndices<T>(s: seq<T>, p: T -> bool): seq<nat>
  {
    if |s| == 0 then []
    else FilterIndices(s[..|s| - 1], p) + (if p(s[|s| - 1]) then [|s| - 1] else [])
  }

  /**
   * `Filter` keeps exactly the elements that satisfy `p`, in their original
   * order: the result is `s` read at strictly increasing positions, and a
   * position is read exactly when its element satisfies `p`.
   */
  lemma {:induction false} FilterSpec<T>(s: seq<T>, p: T -> bool)
    ensures var r, idx := Filter(s, p), FilterIndices(s, p);
      && |idx| == |r|
      && (forall k :: 0 <= k < |idx| ==> idx[k] < |s| && r[k] == s[idx[k]])
      && (forall k, l :: 0 <= k < l < |idx| ==> idx[k] < idx[l])
      && (forall j :: 0 <= j < |s| ==> (p(s[j]) <==> j in idx))
  {
    if |s| > 0 {
      var init := s[..|s| - 1];
      FilterSpec(init, p);
      var idx := FilterIndices(s, p);
      assert forall k :: 0 <= k < |init| ==> init[k] == s[k];
      forall j | 0 <= j < |s| ensures p(s[j]) <==> j in idx {
        if j < |init| {
          assert j in FilterIndices(init, p) <==> j in idx;
        }
      }
    }
  }

  /** Membership form of `FilterSpec`. */
  lemma FilterMembers<T>(s: seq<T>, p: T -> bool)
    ensures forall x :: x in Filter(s, p) <==> x in s && p(x)
  {
    FilterSpec(s, p);
    var r, idx := Filter(s, p), FilterIndices(s, p);
    forall x ensures x in r <==> x in s && p(x) {
      if x in r {
        var k :| 0 <= k < |r| && r[k] == x;
        assert s[idx[k]] == x;
      }
      if x in s && p(x) {
        var j :| 0 <= j < |s| && s[j] == x;
        var k :| 0 <= k < |idx| && idx[k] == j;
      }
    }
  }

  lemma {:induction false} FilterAll<T>(s: seq<T>, p: T -> bool)
    requires forall x :: x in s ==> p(x)
    ensures Filter(s, p) == s
  {
    if |s| > 0 {
      assert s[|s| - 1] in s;
      assert forall x :: x in s[..|s| - 1] ==> x in s;
      FilterAll(s[..|s| - 1], p);
      assert s == s[..|s| - 1] + [s[|s| - 1]];
    }
  }

  /** Filtering distributes over concatenation. */
  lemma {:induction false} FilterConcat<T>(a: seq<T>, b: seq<T>, p: T -> bool)
    ensures Filter(a + b, p) == Filter(a, p) + Filter(b, p)
    decreases |b|
  {
    if |b| == 0 {
      assert a + b == a;
    } else {
      assert (a + b)[..|a + b| - 1] == a + b[..|b| - 1];
      FilterConcat(a, b[..|b| - 1], p);
    }
  }

  // ------------------------------------------------------------ stable sort

  /**
   * Inserts `x` after every trailing element whose key is greater: `x` lands
   * after all elements with a key not above its own, which keeps equal keys
   * in arrival order.
   */
  function Insert<T>(t: seq<T>, x: T, key: T -> string): (r: seq<T>)
    ensures |r| == |t| + 1
  {
    if |t| == 0 then [x]
    else if LexLe(key(t[|t| - 1]), key(x)) then t + [x]
    else Insert(t[..|t| - 1], x, key) + [t[|t| - 1]]
  }

  /** The stable sort of `s` by `key`: insertion of each element in turn. */
  function SortBy<T>(s: seq<T>, key: T -> string): (r: seq<T>)
    ensures |r| == |s|
  {
    if |s| == 0 then [] else Insert(SortBy(s[..|s| - 1], key), s[|s| - 1], key)
  }

  lemma {:induction false} InsertPermutation<T>(t: seq<T>, x: T, key: T -> string)
    ensures multiset(Insert(t, x, key)) == multiset(t) + multiset{x}
  {
    if |t| > 0 && !LexLe(key(t[|t| - 1]), key(x)) {
      InsertPermutation(t[..|t| - 1], x, key);
      assert t == t[..|t| - 1] + [t[|t| - 1]];
    }
  }

  lemma {:induction false} InsertSorted<T>(t: seq<T>, x: T, key: T -> string)
    requires SortedBy(t, key)
    ensures SortedBy(Insert(t, x, key), key)
  {
    var n := |t|;
    if n == 0 {
    } else if LexLe(key(t[n - 1]), key(x)) {
      forall y | y in t ensures LexLe(key(y), key(x)) {
        var k :| 0 <= k < n && t[k] == y;
        if k < n - 1 { LexLeTransitive(key(t[k]), key(t[n - 1]), key(x)); }
      }
      AppendMaxSorted(t, x, key);
    } else {
      var t', last := t[..n - 1], t[n - 1];
      assert SortedBy(t', key);
      InsertSorted(t', x, key);
      InsertBelow(t', x, last, key);
      AppendMaxSorted(Insert(t', x, key), last, key);
    }
  }

  /** Appending an element no smaller than every element keeps a sequence sorted. */
  lemma AppendMaxSorted<T>(s: seq<T>, m: T, key: T -> string)
    requires SortedBy(s, key)
    requires forall y :: y in s ==> LexLe(key(y), key(m))
    ensures SortedBy(s + [m], key)
  {
    var r := s + [m];
    forall i, j | 0 <= i < j < |r| ensures LexLe(key(r[i]), key(r[j])) {
      if j == |s| {
        assert r[i] in s;
      } else {
        assert r[i] == s[i] && r[j] == s[j];
      }
    }
  }

  /** When the last element of sorted `t + [last]` is above `x`, so is everything after inserting `x` into `t`. */
  lemma InsertBelow<T>(t: seq<T>, x: T, last: T, key: T -> string)
    requires SortedBy(t + [last], key) && !LexLe(key(last), key(x))
    ensures forall y :: y in Insert(t, x, key) ==> LexLe(key(y), key(last))
  {
    InsertPermutation(t, x, key);
    LexLeTotal(key(last), key(x));
    forall y | y in Insert(t, x, key) ensures LexLe(key(y), key(last)) {
      assert y in multiset(Insert(t, x, key));
      if y != x {
        assert y in multiset(t);
        var k :| 0 <= k < |t| && t[k] == y;
        assert (t + [last])[k] == y && (t + [last])[|t|] == last;
      }
    }
  }

  /** The stable sort is a permutation of its input, ordered by key. */
  lemma {:induction false} SortByCorrect<T>(s: seq<T>, key: T -> string)
    ensures multiset(SortBy(s, key)) == multiset(s)
    ensures SortedBy(SortBy(s, key), key)
  {
    if |s| > 0 {
      var p := s[..|s| - 1];
      SortByCorrect(p, key);
      InsertPermutation(SortBy(p, key), s[|s| - 1], key);
      InsertSorted(SortBy(p, key), s[|s| - 1], key);
      assert s == p + [s[|s| - 1]];
    }
  }

  /**
   * Stability: the elements with any one key come out of the sort in the
   * order they went in (`p` selects the elements with that key).
   */
  lemma {:induction false} SortByStable<T>(s: seq<T>, key: T -> string, k: string, p: T -> bool)
    requires forall y :: p(y) <==> key(y) == k
    ensures Filter(SortBy(s, key), p) == Filter(s, p)
  {
    if |s| > 0 {
      var init, last := s[..|s| - 1], s[|s| - 1];
      SortByStable(init, key, k, p);
      InsertKeepsEqualKeys(SortBy(init, key), last, key, k, p);
    }
  }

  /** Inserting `x` puts it after every element of its key, and moves no two of one key past each other. */
  lemma {:induction false} InsertKeepsEqualKeys<T>(t: seq<T>, x: T, key: T -> string, k: string, p: T -> bool)
    requires forall y :: p(y) <==> key(y) == k
    ensures Filter(Insert(t, x, key), p) == Filter(t, p) + (if p(x) then [x] else [])
  {
    var n := |t|;
    if n == 0 {
      assert Insert(t, x, key) == [x];
      assert [x][..0] == [];
    } else if LexLe(key(t[n - 1]), key(x)) {
      assert (t + [x])[..n] == t;
    } else {
      var init, last := t[..n - 1], t[n - 1];
      var ins := Insert(init, x, key);
      InsertKeepsEqualKeys(init, x, key, k, p);
      assert (ins + [last])[..|ins|] == ins;
      assert key(last) != key(x) by { LexLeReflexive(key(x)); }
    }
  }

  lemma SortByMembers<T>(s: seq<T>, key: T -> string)
    ensures forall x :: x in SortBy(s, key) <==> x in s
  {
    SortByCorrect(s, key);
    forall x ensures x in SortBy(s, key) <==> x in s {
      assert x in SortBy(s, key) <==> x in multiset(SortBy(s, key));
      assert x in s <==> x in multiset(s);
    }
  }

  /** Sorts the array in place, stably, by `key` (insertion sort). */
  method InsertionSortBy<T>(a: array<T>, key: T -> string)
    modifies a
    ensures a[..] == SortBy(old(a[..]), key)
  {
    ghost var input := a[..];
    var i := 0;
    while i < a.Length
      invariant 0 <= i <= a.Length
      invariant a[..] == SortBy(input[..i], key) + input[i..]
    {
      SortStep(input, a[..], i, key);
      InsertAt(a, i, key);
      i := i + 1;
    }
    assert input[..a.Length] == input;
  }

  /** Inserting the next element into the sorted prefix sorts one more element. */
  lemma SortStep<T>(input: seq<T>, before: seq<T>, i: nat, key: T -> string)
    requires i < |input| && before == SortBy(input[..i], key) + input[i..]
    ensures Insert(before[..i], before[i], key) + before[i + 1..] == SortBy(input[..i + 1], key) + input[i + 1..]
  {
    assert input[..i + 1][..i] == input[..i];
    assert before[..i] == SortBy(input[..i], key);
    assert before[i] == input[i];
    assert before[i + 1..] == input[i + 1..];
  }

  /** One pass of insertion sort: moves `a[i]` left into the sorted prefix `a[..i]`. */
  method InsertAt<T>(a: array<T>, i: nat, key: T -> string)
    requires i < a.Length
    modifies a
    ensures a[..] == Insert(old(a[..i]), old(a[i]), key) + old(a[i + 1..])
  {
    ghost var sorted := a[..i];
    ghost var rest := a[i + 1..];
    var x := a[i];
    var j := i;
    assert sorted[..j] == sorted && sorted[j..] == [];
    while j > 0 && !LexLe(key(a[j - 1]), key(x))
      invariant 0 <= j <= i
      invariant forall k :: 0 <= k < j ==> a[k] == sorted[k]
      invariant forall k :: j < k <= i ==> a[k] == sorted[k - 1]
      invariant forall k :: i < k < a.Length ==> a[k] == rest[k - i - 1]
      invariant Insert(sorted, x, key) == Insert(sorted[..j], x, key) + sorted[j..]
    {
      InsertStep(sorted, j, x, key);
      a[j] := a[j - 1];
      j := j - 1;
    }
    a[j] := x;
    assert Insert(sorted[..j], x, key) == sorted[..j] + [x];
    Reassemble(a[..], sorted, rest, j, x);
  }

  lemma Reassemble<T>(s: seq<T>, sorted: seq<T>, rest: seq<T>, j: nat, x: T)
    requires j <= |sorted| && |s| == |sorted| + 1 + |rest|
    requires forall k :: 0 <= k < j ==> s[k] == sorted[k]
    requires s[j] == x
    requires forall k :: j < k <= |sorted| ==> s[k] == sorted[k - 1]
    requires forall k :: |sorted| < k < |s| ==> s[k] == rest[k - |sorted| - 1]
    ensures s == sorted[..j] + [x] + sorted[j..] + rest
  {
    var want := sorted[..j] + [x] + sorted[j..] + rest;
    forall k | 0 <= k < |s| ensures s[k] == want[k] {
      if k < j {
      } else if k == j {
      } else if k <= |sorted| {
        assert want[k] == sorted[j..][k - j - 1];
      } else {
        assert want[k] == rest[k - |sorted| - 1];
      }
    }
  }

  lemma InsertStep<T>(sorted: seq<T>, j: nat, x: T, key: T -> string)
    requires 0 < j <= |sorted| && !LexLe(key(sorted[j - 1]), key(x))
    ensures Insert(sorted[..j], x, key) + sorted[j..] == Insert(sorted[..j - 1], x, key) + sorted[j - 1..]
  {
    assert sorted[..j][..j - 1] == sorted[..j - 1];
    assert sorted[j - 1..] == [sorted[j - 1]] + sorted[j..];
  }

  // ------------------------------------------------ order-preserving dedup

  /** Keeps the first occurrence of every element, in order. */
  function Dedup<T(==)>(s: seq<T>): seq<T>
  {
    if |s| == 0 then []
    else
      var d := Dedup(s[..|s| - 1]);
      if s[|s| - 1] in d then d else d + [s[|s| - 1]]
  }

  /** Index of the first occurrence of `x` in `s`. */
  function FirstIndex<T(==)>(s: seq<T>, x: T): (k: nat)
    requires x in s
    ensures k < |s| && s[k] == x && x !in s[..k]
  {
    if s[0] == x then 0 else 1 + FirstIndex(s[1..], x)
  }

  lemma {:induction false} DedupCorrect<T>(s: seq<T>)
    ensures Distinct(Dedup(s))
    ensures forall x :: x in Dedup(s) <==> x in s
    ensures forall i, j :: 0 <= i < j < |Dedup(s)| ==> FirstIndex(s, Dedup(s)[i]) < FirstIndex(s, Dedup(s)[j])
  {
    if |s| > 0 {
      var p := s[..|s| - 1];
      var last := s[|s| - 1];
      DedupCorrect(p);
      var d := Dedup(s);
      assert s == p + [last];
      forall x | x in p ensures FirstIndex(s, x) == FirstIndex(p, x) {
        FirstIndexPrefix(p, [last], x);
      }
      if last !in Dedup(p) {
        assert last !in p;
        forall i | 0 <= i < |Dedup(p)| ensures FirstIndex(s, Dedup(p)[i]) < FirstIndex(s, last) {
          assert FirstIndex(s, last) == |p| by {
            assert s[|p|] == last;
            assert last !in s[..|p|] by { assert s[..|p|] == p; }
          }
        }
      }
    }
  }

  /** What `Dedup` keeps from a prefix stays, unchanged, at the front of the whole result. */
  lemma {:induction false} DedupPrefix<T>(a: seq<T>, b: seq<T>)
    ensures |Dedup(a)| <= |Dedup(a + b)| && Dedup(a + b)[..|Dedup(a)|] == Dedup(a)
    decreases |b|
  {
    if |b| == 0 {
      assert a + b == a;
    } else {
      var init := b[..|b| - 1];
      assert (a + b)[..|a + b| - 1] == a + init;
      DedupPrefix(a, init);
    }
  }

  lemma FirstIndexPrefix<T>(p: seq<T>, q: seq<T>, x: T)
    requires x in p
    ensures FirstIndex(p + q, x) == FirstIndex(p, x)
  {
    var k := FirstIndex(p, x);
    assert (p + q)[..k] == p[..k];
    FirstIndexUnique(p + q, x, k);
  }

  lemma FirstIndexUnique<T>(s: seq<T>, x: T, k: nat)
    requires k < |s| && s[k] == x && x !in s[..k]
    ensures FirstIndex(s, x) == k
  {
    var f := FirstIndex(s, x);
    assert s[..k + 1][..k] == s[..k];
  }

  lemma DedupOfDistinct<T>(s: seq<T>)
    requires Distinct(s)
    ensures Dedup(s) == s
  {
    if |s| > 0 {
      var p := s[..|s| - 1];
      assert Distinct(p);
      DedupOfDistinct(p);
    }
  }

  // ------------------------------------------------- distinct and sorted

  lemma {:induction false} DistinctCount<T>(s: seq<T>, x: T)
    requires Distinct(s)
    ensures multiset(s)[x] <= 1
  {
    if |s| > 0 {
      var p := s[..|s| - 1];
      assert s == p + [s[|s| - 1]];
      DistinctCount(p, x);
      if x == s[|s| - 1] { assert x !in p; }
    }
  }

  /** A permutation of a duplicate-free sequence is duplicate-free. */
  lemma DistinctPermutation<T>(a: seq<T>, b: seq<T>)
    requires Distinct(a) && multiset(a) == multiset(b)
    ensures Distinct(b)
  {
    forall i, j | 0 <= i < j < |b| ensures b[i] != b[j] {
      if b[i] == b[j] {
        assert b == b[..j] + b[j..];
        assert b[i] in b[..j] && b[j] in b[j..];
        assert multiset(b)[b[i]] == multiset(b[..j])[b[i]] + multiset(b[j..])[b[i]];
        DistinctCount(a, b[i]);
        assert false;
      }
    }
  }

  /** Two increasing duplicate-free string sequences with the same elements are equal. */
  lemma {:induction false} StrictlySortedUnique(a: seq<string>, b: seq<string>)
    requires SortedBy(a, Id) && Distinct(a)
    requires SortedBy(b, Id) && Distinct(b)
    requires forall x :: x in a <==> x in b
    ensures a == b
    decreases |a|
  {
    if |a| > 0 { assert a[0] in a; }
    if |b| > 0 { assert b[0] in b; }
    if |a| > 0 && |b| > 0 {
      if a[0] != b[0] {
        assert a[0] in a && b[0] in b;
        var i :| 0 <= i < |a| && a[i] == b[0];
        var j :| 0 <= j < |b| && b[j] == a[0];
        assert i > 0 && j > 0;
        assert LexLe(a[0], a[i]) && LexLe(b[0], b[j]);
        LexLeAntisymmetric(a[0], b[0]);
      }
      forall x ensures x in a[1..] <==> x in b[1..] {
        if x in a[1..] { var k :| 1 <= k < |a| && a[k] == x; assert a[0] != x; assert x in b; }
        if x in b[1..] { var k :| 1 <= k < |b| && b[k] == x; assert b[0] != x; assert x in a; }
        assert x in a ==> x == a[0] || x in a[1..];
        assert x in b ==> x == b[0] || x in b[1..];
      }
      assert SortedBy(a[1..], Id) && SortedBy(b[1..], Id);
      StrictlySortedUnique(a[1..], b[1..]);
      assert a == [a[0]] + a[1..] && b == [b[0]] + b[1..];
    }
  }
}
