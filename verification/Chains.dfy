/** Linked lists threaded through arrays, as sequences of indices. */
module Chains {

  ghost predicate Distinct(s: seq<nat>) {
    forall i, j :: 0 <= i < j < |s| ==> s[i] != s[j]
  }

  /** The successor of `chain[i]`, or `last` at the end of the chain. */
  ghost function After(chain: seq<nat>, i: nat, last: nat): nat {
    if i + 1 < |chain| then chain[i + 1] else last
  }

  ghost function First(chain: seq<nat>, last: nat): nat {
    if chain == [] then last else chain[0]
  }

  lemma PushDistinct(chain: seq<nat>, x: nat)
    requires Distinct(chain) && x !in chain
    ensures Distinct([x] + chain)
    ensures forall y :: y in [x] + chain <==> y == x || y in chain
  {
  }

  lemma PopDistinct(chain: seq<nat>)
    requires chain != [] && Distinct(chain)
    ensures Distinct(chain[1..]) && chain[0] !in chain[1..]
    ensures forall y :: y in chain <==> y == chain[0] || y in chain[1..]
  {
    assert chain == [chain[0]] + chain[1..];
  }
}
