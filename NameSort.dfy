/** `paths.sort()`: the collected names put in ascending `String` order, in
    place. Rust's sort is stable; because the order is total and
    antisymmetric, any two sorted permutations of the same names are equal
    (SortedUnique), so no other sorting algorithm can give a different result. */
module NameSort {
  import opened StringOrder

  /** Neighbours are in ascending order. */
  predicate Sorted(s: seq<string>) {
    forall k :: 0 < k < |s| ==> LexLe(s[k - 1], s[k])
  }

  /** Ordered neighbours give ordered pairs: for all `i <= j`, `s[i] <= s[j]`. */
  lemma {:induction false} SortedPairwise(s: seq<string>, i: int, j: int)
    requires Sorted(s) && 0 <= i <= j < |s|
    ensures LexLe(s[i], s[j])
    decreases j - i
  {
    if i == j {
      LexLeReflexive(s[i]);
    } else {
      SortedPairwise(s, i, j - 1);
      LexLeTransitive(s[i], s[j - 1], s[j]);
    }
  }

  /** `x` placed before the first element it does not exceed. */
  function Insert(x: string, s: seq<string>): seq<string> {
    if s == [] then [x]
    else if LexLe(x, s[0]) then [x] + s
    else [s[0]] + Insert(x, s[1..])
  }

  /** Reference sort: insertion sort as a function of the names. */
  function SortSpec(s: seq<string>): seq<string> {
    if s == [] then [] else Insert(s[0], SortSpec(s[1..]))
  }

  /** Inserting adds exactly `x` to the names. */
  lemma {:induction false} InsertPermutes(x: string, s: seq<string>)
    ensures multiset(Insert(x, s)) == multiset(s) + multiset{x}
    decreases |s|
  {
    if s != [] {
      assert s == [s[0]] + s[1..];
      if !LexLe(x, s[0]) { InsertPermutes(x, s[1..]); }
    }
  }

  /** The tail of a sorted sequence is sorted. */
  lemma SortedTail(s: seq<string>)
    requires Sorted(s) && s != []
    ensures Sorted(s[1..])
  {
  }

  /** Inserting into a sorted sequence keeps it sorted and puts either `x`
      or the old first element first. */
  lemma {:induction false} InsertSorted(x: string, s: seq<string>)
    requires Sorted(s)
    ensures |Insert(x, s)| == |s| + 1
    ensures Sorted(Insert(x, s))
    ensures Insert(x, s)[0] == x || (s != [] && Insert(x, s)[0] == s[0])
    decreases |s|
  {
    if s != [] && !LexLe(x, s[0]) {
      var tail := s[1..];
      SortedTail(s);
      InsertSorted(x, tail);
      LexLeTotal(x, s[0]);
      var rest := Insert(x, tail);
      var r := [s[0]] + rest;
      assert Insert(x, s) == r;
      forall k | 0 < k < |r| ensures LexLe(r[k - 1], r[k]) {
        if k > 1 { assert r[k - 1] == rest[k - 2] && r[k] == rest[k - 1]; }
      }
    }
  }

  /** The reference sort returns a sorted permutation of its input. */
  lemma {:induction false} SortSpecCorrect(s: seq<string>)
    ensures Sorted(SortSpec(s))
    ensures multiset(SortSpec(s)) == multiset(s)
    decreases |s|
  {
    if s != [] {
      var rest := SortSpec(s[1..]);
      SortSpecCorrect(s[1..]);
      InsertSorted(s[0], rest);
      InsertPermutes(s[0], rest);
      assert SortSpec(s) == Insert(s[0], rest);
      assert s == [s[0]] + s[1..];
      assert multiset(s) == multiset(s[1..]) + multiset{s[0]};
    }
  }

  /** A sorted sequence is determined by its multiset of names. */
  lemma {:induction false} SortedUnique(s: seq<string>, t: seq<string>)
    requires Sorted(s) && Sorted(t)
    requires multiset(s) == multiset(t)
    ensures s == t
    decreases |s|
  {
    if s == [] {
      assert |multiset(t)| == 0;
    } else {
      assert |multiset(t)| == |s|;
      assert s[0] in multiset(t) && t[0] in multiset(s);
      var k :| 0 <= k < |t| && t[k] == s[0];
      var m :| 0 <= m < |s| && s[m] == t[0];
      SortedPairwise(t, 0, k);
      SortedPairwise(s, 0, m);
      LexLeAntisymmetric(s[0], t[0]);
      assert s == [s[0]] + s[1..] && t == [t[0]] + t[1..];
      assert multiset(s) == multiset{s[0]} + multiset(s[1..]);
      assert multiset(t) == multiset{t[0]} + multiset(t[1..]);
      assert multiset(s[1..]) == multiset(s) - multiset{s[0]};
      assert multiset(t[1..]) == multiset(t) - multiset{t[0]};
      SortedTail(s);
      SortedTail(t);
      SortedUnique(s[1..], t[1..]);
    }
  }

  /** Whatever sorts the names correctly produces the reference sort's result. */
  lemma SortedPermutationIsSortSpec(s: seq<string>, t: seq<string>)
    requires Sorted(t) && multiset(t) == multiset(s)
    ensures t == SortSpec(s)
  {
    SortSpecCorrect(s);
    SortedUnique(t, SortSpec(s));
  }

  /** `.` sorts before the letters, and names are compared character by character. */
  lemma SortExample()
    ensures SortSpec(["b.txt", "a.txt", ".hidden"]) == [".hidden", "a.txt", "b.txt"]
  {
  }

  /** Exchanges `a[i - 1]` and `a[i]`. */
  method SwapDown(a: array<string>, i: int)
    requires 0 < i < a.Length
    modifies a
    ensures a[i - 1] == old(a[i]) && a[i] == old(a[i - 1])
    ensures forall k :: 0 <= k < a.Length && k != i - 1 && k != i ==> a[k] == old(a[k])
    ensures multiset(a[..]) == multiset(old(a[..]))
  {
    a[i - 1], a[i] := a[i], a[i - 1];
  }

  /** `paths.sort()` on line 16: insertion sort in place. */
  method SortInPlace(a: array<string>)
    modifies a
    ensures Sorted(a[..])
    ensures multiset(a[..]) == multiset(old(a[..]))
    ensures a[..] == SortSpec(old(a[..]))
  {
    var i := 0;
    while i < a.Length
      invariant 0 <= i <= a.Length
      invariant forall k :: 0 < k < i ==> LexLe(a[k - 1], a[k])
      invariant multiset(a[..]) == multiset(old(a[..]))
    {
      var j := i;
      while j > 0 && !LexLe(a[j - 1], a[j])
        invariant 0 <= j <= i
        invariant forall k :: 0 < k < j ==> LexLe(a[k - 1], a[k])
        invariant forall k :: j < k <= i ==> LexLe(a[k - 1], a[k])
        invariant 0 < j < i ==> LexLe(a[j - 1], a[j + 1])
        invariant multiset(a[..]) == multiset(old(a[..]))
      {
        LexLeTotal(a[j - 1], a[j]);
        SwapDown(a, j);
        j := j - 1;
      }
      i := i + 1;
    }
    SortedPermutationIsSortSpec(old(a[..]), a[..]);
  }
}
