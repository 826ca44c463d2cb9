/** Concatenation of a sequence of sequences, the reference shape for
    "one part per input, in input order". */
module Seqs {

  function Flatten<T>(parts: seq<seq<T>>): (r: seq<T>)
    decreases |parts|
  {
    if parts == [] then [] else parts[0] + Flatten(parts[1..])
  }

  /** Appending one more part at the end appends its elements at the end. */
  lemma {:induction false} FlattenSnoc<T>(parts: seq<seq<T>>, last: seq<T>)
    ensures Flatten(parts + [last]) == Flatten(parts) + last
    decreases |parts|
  {
    if parts == [] {
      assert [] + [last] == [last];
      assert Flatten([last]) == last + Flatten([last][1..]);
    } else {
      assert (parts + [last])[1..] == parts[1..] + [last];
      FlattenSnoc(parts[1..], last);
    }
  }
}
