/** Small facts about sequences shared by the index and the codecs. */
module Seqs {

  datatype Option<+T> = None | Some(value: T)

  /** s with x placed at position i (at the end when i is past it). */
  function InsertAt<T>(s: seq<T>, i: nat, x: T): (r: seq<T>)
    ensures |r| == |s| + 1
  {
    if i <= |s| then s[..i] + [x] + s[i..] else s + [x]
  }

  /** s without the element at position i. */
  function RemoveAt<T>(s: seq<T>, i: nat): (r: seq<T>)
    requires i < |s|
    ensures |r| == |s| - 1
  {
    s[..i] + s[i + 1..]
  }

  /** Replacing an element by two: change it in place, then insert the second one after it. */
  lemma InsertAfter<T>(s: seq<T>, i: nat, l: T, r: T)
    requires i < |s|
    ensures InsertAt(s[i := l], i + 1, r) == s[..i] + [l, r] + s[i + 1..]
  {
  }

  /** A slice of a slice. */
  lemma Within<T>(s: seq<T>, at: nat, n: nat, i: nat, j: nat)
    requires i <= j <= n && at + n <= |s|
    ensures s[at..at + n][i..j] == s[at + i..at + j]
  {
    var a, b := s[at..at + n][i..j], s[at + i..at + j];
    assert forall k | 0 <= k < |a| :: a[k] == s[at + i + k] && b[k] == s[at + i + k];
  }
}
