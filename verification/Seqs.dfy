/** Facts about sequences that are stated once here and used across the modules: how pieces join, split and are found
    again. They keep the larger proofs free of the axioms of sequences. */
module Seqs {

  lemma AppendAssociative<T>(a: seq<T>, b: seq<T>, c: seq<T>)
    ensures (a + b) + c == a + (b + c)
  {
  }

  lemma SplitAt<T>(s: seq<T>, i: nat)
    requires i <= |s|
    ensures s[..i] + s[i..] == s
  {
  }

  lemma TakeNext<T>(s: seq<T>, i: nat)
    requires i < |s|
    ensures s[..i + 1] == s[..i] + [s[i]]
  {
  }

  lemma SplitBetween<T>(s: seq<T>, i: nat, j: nat)
    requires i <= j <= |s|
    ensures s[i..] == s[i..j] + s[j..]
    ensures s[..j] == s[..i] + s[i..j]
  {
  }

  lemma CutThree<T>(s: seq<T>, i: nat, j: nat)
    requires i <= j < |s|
    ensures s[i..] == s[i..j] + ([s[j]] + s[j + 1..])
  {
  }

  lemma CutAppend<T>(x: seq<T>, y: seq<T>)
    ensures (x + y)[..|x|] == x && (x + y)[|x|..] == y
    ensures (x + y)[..|x + y| - |y|] == x && (x + y)[|x + y| - |y|..] == y
  {
  }

  lemma HeadTail<T>(a: seq<T>, b: seq<T>)
    requires a != []
    ensures (a + b)[0] == a[0] && (a + b)[1..] == a[1..] + b
  {
  }

  lemma IndexFirst<T>(a: seq<T>, b: seq<T>, k: nat)
    requires k < |a|
    ensures (a + b)[k] == a[k]
  {
  }

  lemma IndexLast<T>(a: seq<T>, b: seq<T>, c: seq<T>, k: nat)
    requires k < |c|
    ensures |a + (b + c)| == |a| + |b| + |c|
    ensures (a + (b + c))[|a| + |b| + k] == c[k]
  {
  }
}
