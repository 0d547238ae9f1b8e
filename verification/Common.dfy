/** Small shared vocabulary: optional values, error answers and facts about sequences. */
module Common {

  datatype Option<+T> = None | Some(value: T)

  datatype Result<+T, +E> = Ok(value: T) | Err(error: E)

  /** No element occurs at two positions. */
  predicate Distinct<T(==)>(s: seq<T>) {
    forall i, j | 0 <= i < j < |s| :: s[i] != s[j]
  }

  /** `s` without any `x`, the rest in order. */
  function Without<T(==)>(s: seq<T>, x: T): seq<T> {
    if s == [] then []
    else
      var n := |s| - 1;
      Without(s[..n], x) + (if s[n] == x then [] else [s[n]])
  }

  lemma {:induction false} WithoutKeepsRest<T>(s: seq<T>, x: T)
    requires Distinct(s)
    ensures Distinct(Without(s, x))
    ensures forall y :: y in Without(s, x) <==> y in s && y != x
    ensures forall k | 0 <= k < |Without(s, x)| :: Without(s, x)[k] in s
  {
    if s != [] {
      var n := |s| - 1;
      WithoutKeepsRest(s[..n], x);
      assert s == s[..n] + [s[n]];
      assert s[n] !in s[..n];
    }
  }

  /** Taking one element out leaves the others where they were, those behind it one place further on. */
  lemma {:induction false} WithoutOne<T>(s: seq<T>, k: nat)
    requires Distinct(s) && k < |s|
    ensures Without(s, s[k]) == s[..k] + s[k + 1..]
  {
    var n := |s| - 1;
    if k == n {
      WithoutAbsent(s[..n], s[n]);
    } else {
      WithoutOne(s[..n], k);
      assert s[..n][..k] == s[..k] && s[..n][k + 1..] + [s[n]] == s[k + 1..];
    }
  }

  lemma {:induction false} WithoutAbsent<T>(s: seq<T>, x: T)
    requires x !in s
    ensures Without(s, x) == s
  {
    if s != [] {
      WithoutAbsent(s[..|s| - 1], x);
    }
  }

  /** The elements among the first `n` whose flag is `which`, in order. */
  function Picked<T>(all: seq<T>, flags: seq<bool>, n: nat, which: bool): seq<T>
    requires n <= |all| && n <= |flags|
  {
    if n == 0 then []
    else Picked(all, flags, n - 1, which) + (if flags[n - 1] == which then [all[n - 1]] else [])
  }

  /** Only the first `n` elements and flags matter. */
  lemma {:induction false} PickedLocal<T>(a: seq<T>, f: seq<bool>, b: seq<T>, g: seq<bool>, n: nat, which: bool)
    requires n <= |a| && n <= |f| && n <= |b| && n <= |g|
    requires forall i | 0 <= i < n :: a[i] == b[i] && f[i] == g[i]
    ensures Picked(a, f, n, which) == Picked(b, g, n, which)
  {
    if n > 0 {
      PickedLocal(a, f, b, g, n - 1, which);
    }
  }

  /** The elements of a duplicate-free sequence, counted. */
  lemma {:induction false} DistinctCount<T>(s: seq<T>)
    requires Distinct(s)
    ensures |set x | x in s| == |s|
  {
    if s == [] {
      assert (set x | x in s) == {};
    } else {
      var n := |s| - 1;
      var rest := s[..n];
      DistinctCount(rest);
      assert (set x | x in s) == (set x | x in rest) + {s[n]} by {
        assert s == rest + [s[n]];
      }
      assert s[n] !in rest;
    }
  }
}
