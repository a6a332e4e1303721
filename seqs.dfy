/** Small facts about sequences that the string proofs lean on. */
module Seqs {

  /** The text holds no line break. */
  predicate NoNewline(s: string) { forall i | 0 <= i < |s| :: s[i] != '\n' }

  lemma AppendAssoc<T>(a: seq<T>, b: seq<T>, c: seq<T>)
    ensures (a + b) + c == a + (b + c)
  {
  }

  lemma SliceSnoc<T>(s: seq<T>, i: nat)
    requires i < |s|
    ensures s[..i + 1] == s[..i] + [s[i]]
  {
  }

  /** `f` applied to every element, in order. */
  function Map<A, B>(f: A -> B, s: seq<A>): (r: seq<B>)
    ensures |r| == |s|
    ensures forall i | 0 <= i < |s| :: r[i] == f(s[i])
  {
    if s == [] then []
    else
      var r := [f(s[0])] + Map(f, s[1..]);
      assert forall i | 1 <= i < |s| :: r[i] == Map(f, s[1..])[i - 1];
      r
  }
}
