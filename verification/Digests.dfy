// Hash values as a free term algebra.

/** Stock result types. */
module Wrappers {
  datatype Option<+T> = None | Some(value: T) {
    predicate IsFailure() {
      None?
    }

    function PropagateFailure<U>(): Option<U>
      requires None?
    {
      None
    }

    function Extract(): T
      requires Some?
    {
      value
    }
  }

  datatype Result<+T, +E> = Ok(value: T) | Err(error: E)
}

module Integers {
  newtype int64 = x: int | -0x8000_0000_0000_0000 <= x < 0x8000_0000_0000_0000
}

/**
  A 32-byte digest, told apart by the preimage it was computed from.  The
  preimages have different widths (leaf 33 bytes, interior 72, bag 64), so the
  constructors are disjoint and collision resistance is injectivity.  Any other
  32-byte string, the all-zero root of an empty log included, is a `Raw` value;
  a prover may supply any term at all.
*/
module Digests {
  import opened Wrappers

  datatype Hash =
    | Raw(id: nat)
    | Leaf(body: Hash)
    | Interior(position: nat, left: Hash, right: Hash)
    | Bag(right: Hash, left: Hash)

  const ZERO_HASH := Raw(0)

  /**
    A proof element as received: a digest in hex, or a string that is none.  A
    digest counts as one element however its hex is spelt: upper case letters and
    white space between bytes, which the parser allows, are not told apart here.
  */
  datatype WireHash = Malformed | Hex(value: Hash)

  /** All digests of a list of proof elements, unless one is malformed. */
  function Parse(ws: seq<WireHash>): (r: Option<seq<Hash>>)
    ensures r.Some? <==> forall i :: 0 <= i < |ws| ==> ws[i].Hex?
    ensures r.Some? ==> |r.value| == |ws| && forall i :: 0 <= i < |ws| ==> r.value[i] == ws[i].value
  {
    if ws == [] then Some([])
    else
      match (ws[0], Parse(ws[1..]))
      case (Hex(h), Some(rest)) => Some([h] + rest)
      case _ => None
  }

  function ToWire(hs: seq<Hash>): (ws: seq<WireHash>)
    ensures |ws| == |hs|
    ensures forall i :: 0 <= i < |hs| ==> ws[i] == Hex(hs[i])
  {
    seq(|hs|, i requires 0 <= i < |hs| => Hex(hs[i]))
  }

  /** Reading back what was written, and only that, gives the digests. */
  lemma WireRoundTrip(ws: seq<WireHash>, hs: seq<Hash>)
    ensures Parse(ws) == Some(hs) <==> ws == ToWire(hs)
  {
    if ws == ToWire(hs) {
      assert Parse(ws).value == hs;
    }
  }
}
