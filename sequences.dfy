/** Facts about slices of a list that grows at its end and is read from its front. */
module Sequences {

  /** Appending leaves every slice of the old list in place and extends the slices that reach its end. */
  lemma AppendSlices<T>(s: seq<T>, x: T, k: nat)
    requires k <= |s|
    ensures (s + [x])[..k] == s[..k]
    ensures (s + [x])[k..] == s[k..] + [x]
    ensures forall i :: 0 <= i < |s| ==> (s + [x])[i] == s[i]
  {
  }

  /** Appending a list leaves every slice of the old list in place and extends the slices that reach its end. */
  lemma AppendAllSlices<T>(s: seq<T>, t: seq<T>, k: nat)
    requires k <= |s|
    ensures (s + t)[..k] == s[..k]
    ensures (s + t)[k..] == s[k..] + t
    ensures forall i :: 0 <= i < |s| ==> (s + t)[i] == s[i]
  {
  }

  /** A non-empty appended list is its prefix followed by its last element. */
  lemma AppendLast<T>(s: seq<T>, t: seq<T>)
    requires t != []
    ensures s + t == (s + t[..|t| - 1]) + [t[|t| - 1]]
  {
  }

  /** One more element of a prefix. */
  lemma TakeOneMore<T>(s: seq<T>, k: nat)
    requires k < |s|
    ensures s[..k + 1] == s[..k] + [s[k]]
  {
  }

  /** Polling the head of the suffix from k leaves the suffix from k + 1. */
  lemma PollFront<T>(s: seq<T>, k: nat)
    requires k < |s|
    ensures s[k..][0] == s[k] && s[k..][1..] == s[k + 1..]
    ensures s[..k + 1] == s[..k] + [s[k]]
  {
  }
}
