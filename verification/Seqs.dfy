/** Concatenation, for proofs that go by the head of a sequence, and counting. */
module Seqs {
  lemma ConcatAssociates<T>(a: seq<T>, b: seq<T>, c: seq<T>)
    ensures (a + b) + c == a + (b + c)
  {
  }

  lemma TailOfConcat<T>(a: seq<T>, b: seq<T>)
    requires a != []
    ensures (a + b)[0] == a[0] && (a + b)[1..] == a[1..] + b
  {
  }

  lemma SliceOfSlice<T>(s: seq<T>, i: nat, j: nat, k: nat, l: nat)
    requires i <= j <= |s| && k <= l <= j - i
    ensures s[i..j][k..l] == s[i + k..i + l]
  {
    var t := s[i..j];
    assert |t[k..l]| == |s[i + k..i + l]|;
    forall m | 0 <= m < l - k ensures t[k..l][m] == s[i + k..i + l][m] {
      assert t[k..l][m] == t[k + m] == s[i + (k + m)];
    }
  }

  lemma PartsOfConcat<T>(a: seq<T>, b: seq<T>, c: seq<T>)
    ensures (a + b + c)[..|a|] == a && (a + b + c)[|a|..|a| + |b|] == b && (a + b + c)[|a| + |b|..] == c
  {
  }

  lemma SliceSplit<T>(s: seq<T>, i: nat, j: nat, k: nat)
    requires i <= j <= k <= |s|
    ensures s[i..k] == s[i..j] + s[j..k]
  {
  }

  lemma SubsetSize<X>(a: set<X>, b: set<X>)
    requires a <= b
    ensures |a| <= |b|
  {
    assert b == a + (b - a);
  }

  /** The `n` numbers from `lo` on. */
  ghost function Numbers(lo: nat, n: nat): set<nat> {
    if n == 0 then {} else Numbers(lo, n - 1) + {lo + n - 1}
  }

  lemma {:induction false} NumbersMembers(lo: nat, n: nat, k: nat)
    ensures k in Numbers(lo, n) <==> lo <= k < lo + n
  {
    if n > 0 {
      NumbersMembers(lo, n - 1, k);
    }
  }

  lemma {:induction false} NumbersSize(lo: nat, n: nat)
    ensures |Numbers(lo, n)| == n
  {
    if n > 0 {
      NumbersSize(lo, n - 1);
      NumbersMembers(lo, n - 1, lo + n - 1);
    }
  }
}
