/** Vocabulary shared by every module. */
module Prelude {
  datatype Option<+T> = None | Some(value: T) {
    function UnwrapOr(default: T): T {
      if Some? then value else default
    }
  }

  /** What an operation that can fail comes back with. */
  datatype Attempt<+T, +E> = Ok(value: T) | Err(error: E)

  function Max(a: nat, b: nat): nat {
    if a < b then b else a
  }

  // ---- slices of slices ----

  lemma DropDrop<T>(s: seq<T>, i: nat, j: nat, k: nat)
    requires i + j == k <= |s|
    ensures s[i..][j..] == s[k..]
  {
  }

  lemma TakeDrop<T>(s: seq<T>, i: nat, j: nat)
    requires i <= j <= |s|
    ensures s[..j][i..] == s[i..j]
    ensures s[i..][..j - i] == s[i..j]
  {
  }

  lemma HeadAndRest<T>(head: T, rest: seq<T>)
    ensures ([head] + rest)[0] == head && ([head] + rest)[1..] == rest
  {
  }

  lemma Cut<T>(s: seq<T>, i: nat)
    requires i <= |s|
    ensures s == s[..i] + s[i..]
  {
  }

  /** The parts of a concatenation. */
  lemma PartsOfConcat<T>(a: seq<T>, b: seq<T>, c: seq<T>)
    ensures var s := a + b + c;
            s[..|a|] == a && s[|a|..|a| + |b|] == b && s[|a| + |b|..] == c
  {
  }

  lemma SliceSlice<T>(s: seq<T>, lo: nat, hi: nat, i: nat, j: nat)
    requires lo + i <= lo + j <= hi <= |s|
    ensures s[lo..hi][i..j] == s[lo + i..lo + j]
  {
    assert |s[lo..hi][i..j]| == |s[lo + i..lo + j]| == j - i;
    assert forall k :: 0 <= k < j - i ==> s[lo..hi][i..j][k] == s[lo + i..lo + j][k];
  }

  lemma Associative<T>(a: seq<T>, b: seq<T>, c: seq<T>)
    ensures a + (b + c) == a + b + c
  {
  }

  lemma SetThenRemove<K, V>(m: map<K, V>, k: K, v: V)
    ensures m[k := v] - {k} == m - {k}
  {
  }
}
