/** Sequence helpers shared by the three traders: the positions at which a
    filter holds (the order-preserving `Where(...)` / `FindAll(...)` over an
    inventory), and removal of one element. */
module Seqs {

  /** The ascending list of indices `i` with `mask[i]`. */
  function Positions(mask: seq<bool>): (r: seq<nat>)
    ensures forall j :: 0 <= j < |r| ==> r[j] < |mask| && mask[r[j]]
    ensures forall i :: 0 <= i < |mask| && mask[i] ==> i in r
    ensures forall a, b :: 0 <= a < b < |r| ==> r[a] < r[b]
  {
    if mask == [] then []
    else Positions(mask[..|mask| - 1]) + (if mask[|mask| - 1] then [|mask| - 1] else [])
  }

  /** Extending the mask by one entry extends the positions by at most that entry. */
  lemma PositionsSnoc(mask: seq<bool>, b: bool)
    ensures Positions(mask + [b]) == Positions(mask) + (if b then [|mask|] else [])
  {
    assert (mask + [b])[..|mask|] == mask;
  }

  /** No position means no entry is set; otherwise the first position is the first set entry. */
  lemma PositionsFirst(mask: seq<bool>)
    ensures Positions(mask) == [] <==> forall i :: 0 <= i < |mask| ==> !mask[i]
    ensures Positions(mask) != [] ==>
      mask[Positions(mask)[0]] && forall i :: 0 <= i < Positions(mask)[0] ==> !mask[i]
  {
  }

  /** `s` without its element at index `i`; the others keep their order. */
  function RemoveAt<T>(s: seq<T>, i: nat): (r: seq<T>)
    requires i < |s|
    ensures |r| == |s| - 1
    ensures forall j :: 0 <= j < i ==> r[j] == s[j]
    ensures forall j :: i <= j < |r| ==> r[j] == s[j + 1]
  {
    s[..i] + s[i + 1..]
  }

  /** Removing one element removes exactly one occurrence of it. */
  lemma RemoveAtMultiset<T>(s: seq<T>, i: nat)
    requires i < |s|
    ensures multiset(RemoveAt(s, i)) + multiset{s[i]} == multiset(s)
  {
    assert s == s[..i] + [s[i]] + s[i + 1..];
  }
}
