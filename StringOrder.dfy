/** The ordering `Vec<String>::sort` uses: Rust's `Ord` for `String`, which
    compares lexicographically and puts a proper prefix first. Strings are
    sequences of Unicode scalar values; comparing scalar values one by one
    orders strings exactly as comparing their UTF-8 bytes does. */
module StringOrder {

  /** `a <= b` in Rust's `String` order. */
  predicate LexLe(a: string, b: string)
    decreases |a|
  {
    if |a| == 0 then true
    else if |b| == 0 then false
    else if a[0] != b[0] then a[0] < b[0]
    else LexLe(a[1..], b[1..])
  }

  /** `a` is a (not necessarily proper) prefix of `b`. */
  ghost predicate IsPrefix(a: string, b: string) {
    |a| <= |b| && b[..|a|] == a
  }

  /** `a` and `b` first differ at some position `k` they both have, and there `a` is smaller. */
  ghost predicate FirstDifferenceLess(a: string, b: string) {
    exists k :: 0 <= k < |a| && k < |b| && a[..k] == b[..k] && a[k] < b[k]
  }

  lemma {:induction false} LexLeReflexive(a: string)
    ensures LexLe(a, a)
    decreases |a|
  {
    if |a| > 0 { LexLeReflexive(a[1..]); }
  }

  lemma {:induction false} LexLeTotal(a: string, b: string)
    ensures LexLe(a, b) || LexLe(b, a)
    decreases |a|
  {
    if |a| > 0 && |b| > 0 && a[0] == b[0] { LexLeTotal(a[1..], b[1..]); }
  }

  lemma {:induction false} LexLeAntisymmetric(a: string, b: string)
    requires LexLe(a, b) && LexLe(b, a)
    ensures a == b
    decreases |a|
  {
    if |a| > 0 {
      LexLeAntisymmetric(a[1..], b[1..]);
      assert a == [a[0]] + a[1..] && b == [b[0]] + b[1..];
    }
  }

  lemma {:induction false} LexLeTransitive(a: string, b: string, c: string)
    requires LexLe(a, b) && LexLe(b, c)
    ensures LexLe(a, c)
    decreases |a|
  {
    if |a| > 0 && a[0] == b[0] && b[0] == c[0] { LexLeTransitive(a[1..], b[1..], c[1..]); }
  }

  /** The order is the textbook lexicographic one: `a <= b` exactly when `a`
      is a prefix of `b` or, at the first position where they differ, `a`
      holds the smaller character. */
  lemma {:induction false} LexLeCharacterization(a: string, b: string)
    ensures LexLe(a, b) <==> IsPrefix(a, b) || FirstDifferenceLess(a, b)
    decreases |a|
  {
    if |a| == 0 {
      assert b[..0] == a;
    } else if |b| == 0 {
    } else if a[0] != b[0] {
      assert !IsPrefix(a, b) by {
        if |a| <= |b| { assert b[..|a|][0] == b[0]; }
      }
      if a[0] < b[0] {
        assert a[..0] == b[..0];
      }
    } else {
      var a', b' := a[1..], b[1..];
      LexLeCharacterization(a', b');
      assert IsPrefix(a, b) <==> IsPrefix(a', b') by {
        if |a| <= |b| {
          assert b[..|a|] == [b[0]] + b'[..|a'|];
          assert a == [a[0]] + a';
        }
      }
      if FirstDifferenceLess(a, b) {
        var k :| 0 <= k < |a| && k < |b| && a[..k] == b[..k] && a[k] < b[k];
        assert k > 0;
        assert a'[..k - 1] == a[..k][1..] && b'[..k - 1] == b[..k][1..];
        assert FirstDifferenceLess(a', b');
      }
      if FirstDifferenceLess(a', b') {
        var k :| 0 <= k < |a'| && k < |b'| && a'[..k] == b'[..k] && a'[k] < b'[k];
        assert a[..k + 1] == [a[0]] + a'[..k] && b[..k + 1] == [b[0]] + b'[..k];
        assert FirstDifferenceLess(a, b);
      }
    }
  }
}
