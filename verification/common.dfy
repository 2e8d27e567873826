/** Small shared vocabulary: bytes, optional values and index filtering. */
module Common {

  /** An 8-bit byte as carried on the serial link. */
  type byte = bv8

  datatype Option<+T> = None | Some(value: T)

  /** The outcome of an operation that either yields a value or fails with an error. */
  datatype Result<+T, +E> = Ok(value: T) | Err(error: E)

  /** A sequence of `n` zero bytes. */
  function Zeros(n: nat): (z: seq<byte>)
    ensures |z| == n
    ensures forall i :: 0 <= i < n ==> z[i] == 0
  {
    seq(n, _ => 0)
  }

  /** The indices of `xs`, in increasing order, whose element satisfies `p`. */
  function IndicesWhere<T>(xs: seq<T>, p: T -> bool): (ix: seq<nat>)
    ensures forall k :: 0 <= k < |ix| ==> ix[k] < |xs| && p(xs[ix[k]])
    ensures forall i :: 0 <= i < |xs| && p(xs[i]) ==> i in ix
    ensures forall k, l :: 0 <= k < l < |ix| ==> ix[k] < ix[l]
    ensures |ix| == 0 <==> forall i :: 0 <= i < |xs| ==> !p(xs[i])
  {
    if |xs| == 0 then []
    else
      var front := IndicesWhere(xs[..|xs| - 1], p);
      assert forall i :: 0 <= i < |xs| - 1 ==> xs[..|xs| - 1][i] == xs[i];
      if p(xs[|xs| - 1]) then front + [|xs| - 1] else front
  }
}
