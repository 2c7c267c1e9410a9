/**
  Identities about slicing and concatenation, stated once for any element
  type. Proved at a type parameter, they hold without looking inside the
  elements, which keeps proofs about sequences of strings cheap.
 */
module Sequences {

  lemma TakeDrop<T>(s: seq<T>, n: int)
    requires 0 <= n <= |s|
    ensures s[..n] + s[n..] == s
  {
  }

  lemma TakeAll<T>(s: seq<T>)
    ensures s[..|s|] == s
  {
  }

  lemma TakeOneMore<T>(s: seq<T>, k: int)
    requires 0 <= k < |s|
    ensures s[..k + 1][..k] == s[..k]
    ensures s[..k + 1] == s[..k] + [s[k]]
  {
  }

  lemma InitLast<T>(s: seq<T>)
    requires s != []
    ensures s == s[..|s| - 1] + [s[|s| - 1]]
  {
  }

  lemma AppendInit<T>(a: seq<T>, b: seq<T>)
    requires b != []
    ensures (a + b)[..|a + b| - 1] == a + b[..|b| - 1]
    ensures (a + b)[|a + b| - 1] == b[|b| - 1]
  {
  }

  lemma AppendTail<T>(a: seq<T>, b: seq<T>)
    requires a != []
    ensures (a + b)[1..] == a[1..] + b
  {
  }

  lemma DropKeeps<T>(s: seq<T>, k: int)
    requires 0 <= k <= |s|
    ensures forall y :: y in s[k..] ==> y in s
  {
    forall y | y in s[k..] ensures y in s {
      var j :| 0 <= j < |s| - k && s[k..][j] == y;
      assert s[k + j] == y;
    }
  }
}
