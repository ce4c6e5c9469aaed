/**
 * Sequence identities stated once for any element type, so that proofs
 * over sequences of records do not make the solver compare the records.
 */
module Seqs {

  lemma HeadSplit<T>(s: seq<T>)
    requires |s| > 0
    ensures s == [s[0]] + s[1..]
  {
  }

  lemma LastSplit<T>(s: seq<T>)
    requires |s| > 0
    ensures s == s[..|s| - 1] + [s[|s| - 1]]
  {
  }

  lemma DropAppend<T>(a: seq<T>, b: seq<T>)
    requires |a| > 0
    ensures (a + b)[1..] == a[1..] + b
  {
  }

  lemma EmptyAppend<T>(a: seq<T>, b: seq<T>)
    requires |a| == 0
    ensures a + b == b
  {
  }

  lemma SliceJoin<T>(s: seq<T>, k: nat)
    requires k <= |s|
    ensures s[..k] + s[k..] == s
  {
  }

  lemma SnocParts<T>(t: seq<T>, e: T)
    ensures (t + [e])[..|t|] == t && (t + [e])[|t|] == e
  {
  }

  lemma SnocAt<T>(s: seq<T>, x: T)
    ensures |s + [x]| == |s| + 1 && (s + [x])[|s|] == x
    ensures forall j :: 0 <= j < |s| ==> (s + [x])[j] == s[j]
  {
  }

  lemma AppendTwice<T>(a: seq<T>, b: seq<T>, c: seq<T>)
    ensures a + b + c == a + (b + c)
  {
  }

  lemma ConsSlices<T>(s: seq<T>, k: nat, e: T)
    requires 0 < |s| && k < |s|
    ensures [s[0]] + (s[1..][..k] + [e] + s[1..][k..]) == s[..k + 1] + [e] + s[k + 1..]
  {
  }
}
