/** Sequences without repetition, and elements and sizes of finite sets. */
module Collections {
  ghost predicate Distinct<T>(s: seq<T>) { forall i, j | 0 <= i < j < |s| :: s[i] != s[j] }

  lemma Element<T>(s: set<T>) returns (x: T)
    requires s != {}
    ensures x in s
  {
    x :| x in s;
  }

  lemma {:induction false} SubsetSize<T>(a: set<T>, b: set<T>)
    requires a <= b
    ensures |a| <= |b|
  {
    assert b == a + (b - a);
  }

  /** The values of a function at the numbers below n are at most n. */
  lemma {:induction false} ImageSize<T>(n: nat, f: nat -> T)
    ensures |set k: nat | k < n :: f(k)| <= n
  {
    if n == 0 {
      assert (set k: nat | k < 0 :: f(k)) == {};
    } else {
      ImageSize(n - 1, f);
      assert (set k: nat | k < n :: f(k)) == (set k: nat | k < n - 1 :: f(k)) + {f(n - 1)};
    }
  }
}
