/** Regrouping facts about concatenation, kept apart so that they are proved in a small context. */
module SeqFacts {
  lemma Assoc<T>(a: seq<T>, b: seq<T>, c: seq<T>)
    ensures a + b + c == a + (b + c)
  {
  }

  lemma Assoc4<T>(a: seq<T>, b: seq<T>, c: seq<T>, d: seq<T>)
    ensures a + b + c + d == a + (b + c + d)
  {
  }

  lemma Assoc5<T>(a: seq<T>, b: seq<T>, c: seq<T>, d: seq<T>, e: seq<T>)
    ensures a + b + c + d + e == a + (b + c + d) + e
  {
  }

  /** The slice from `i` to `k`, split at `j`. */
  lemma SplitSlice<T>(v: seq<T>, i: nat, j: nat, k: nat)
    requires i <= j <= k <= |v|
    ensures v[i..k] == v[i..j] + v[j..k]
  {
  }

  /** The pieces of a three-part concatenation, read back by slicing. */
  lemma Slices3<T>(v: seq<T>, a: seq<T>, b: seq<T>, c: seq<T>)
    requires v == a + b + c
    ensures v[..|a|] == a && v[|a|..|a| + |b|] == b && v[..|a| + |b|] == a + b
  {
  }

  /** A sequence is its prefix followed by its suffix. */
  lemma SplitAt<T>(v: seq<T>, k: nat)
    requires k <= |v|
    ensures v == v[..k] + v[k..]
  {
  }

  /** The first `k + 1` elements are the first `k` and then element `k`. */
  lemma TakeOneMore<T>(v: seq<T>, k: nat)
    requires k < |v|
    ensures v[..k + 1] == v[..k] + [v[k]]
  {
  }

  /** A non-empty sequence is its first element followed by the rest. */
  lemma HeadTail<T>(v: seq<T>)
    requires v != []
    ensures v == [v[0]] + v[1..]
  {
  }
}
