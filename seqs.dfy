/** Small facts about sequence concatenation and slicing, shared by the
    report layout and the audio traces. */
module Seqs {

  lemma AppendEmpty<T>(a: seq<T>)
    ensures a + [] == a
  {
  }

  lemma AppendAssoc<T>(a: seq<T>, b: seq<T>, c: seq<T>)
    ensures (a + b) + c == a + (b + c)
  {
  }

  lemma SliceOfAppend<T>(a: seq<T>, b: seq<T>, i: int, j: int)
    requires 0 <= i <= j <= |b|
    ensures (a + b)[|a| + i .. |a| + j] == b[i..j]
  {
  }

  lemma SliceOfPrefix<T>(a: seq<T>, b: seq<T>, i: int, j: int)
    requires 0 <= i <= j <= |a|
    ensures (a + b)[i..j] == a[i..j]
  {
  }

  lemma SliceOfSlice<T>(s: seq<T>, i: int, j: int, k: int, l: int)
    requires 0 <= i <= j <= |s| && 0 <= k <= l <= j - i
    ensures s[i..j][k..l] == s[i + k .. i + l]
  {
    forall t | 0 <= t < l - k
      ensures s[i..j][k..l][t] == s[i + k .. i + l][t]
    {
      assert s[i..j][k..l][t] == s[i..j][k + t] == s[i + k + t];
    }
  }
}
