/** Notions that several modules share. */
module Common {
  datatype Option<T> = None | Some(value: T)

  type byte = n: nat | n < 0x100

  function Reverse<X>(s: seq<X>): (r: seq<X>)
    ensures |r| == |s|
    ensures forall i :: 0 <= i < |s| ==> r[i] == s[|s| - 1 - i]
  {
    seq(|s|, i requires 0 <= i < |s| => s[|s| - 1 - i])
  }
}
