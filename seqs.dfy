/** Sequences of sequences laid end to end: the face groups of a texture
    and the per-face records of a binary mesh file. */
module Seqs {

  /** The sequences of `s`, one after the other. */
  function Flatten<T>(s: seq<seq<T>>): (r: seq<T>)
    ensures |r| == TotalSize(s)
    decreases |s|
  {
    if s == [] then [] else Flatten(s[..|s| - 1]) + s[|s| - 1]
  }

  /** The sum of the lengths. */
  function TotalSize<T>(s: seq<seq<T>>): nat
    decreases |s|
  {
    if s == [] then 0 else TotalSize(s[..|s| - 1]) + |s[|s| - 1]|
  }

  /** Flattening triples gives three entries per triple. */
  lemma {:induction false} FlattenThrees<T>(s: seq<seq<T>>)
    requires forall j :: 0 <= j < |s| ==> |s[j]| == 3
    ensures |Flatten(s)| == 3 * |s|
    decreases |s|
  {
    if s != [] {
      FlattenThrees(s[..|s| - 1]);
    }
  }

  /** Entry `i` of triple `j` sits at position `3 * j + i`. */
  lemma {:induction false} FlattenAt<T>(s: seq<seq<T>>, j: int, i: int)
    requires forall k :: 0 <= k < |s| ==> |s[k]| == 3
    requires 0 <= j < |s| && 0 <= i < 3
    ensures 3 * j + i < |Flatten(s)| && Flatten(s)[3 * j + i] == s[j][i]
    decreases |s|
  {
    var init := s[..|s| - 1];
    FlattenThrees(init);
    FlattenThrees(s);
    if j < |s| - 1 {
      FlattenAt(init, j, i);
    }
  }

  /** Flattening one more sequence appends it. */
  lemma {:induction false} FlattenPrefix<T>(s: seq<seq<T>>, n: int)
    requires 0 <= n < |s|
    ensures Flatten(s[..n + 1]) == Flatten(s[..n]) + s[n]
  {
    assert s[..n + 1][..n] == s[..n];
  }

  /** Concatenation is associative. */
  lemma {:induction false} Associative<T>(a: seq<T>, b: seq<T>, c: seq<T>)
    ensures a + (b + c) == a + b + c
  {
  }
}
