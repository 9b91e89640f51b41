/** Machine integers and byte strings. */
module Machine {
  const U32: nat := 0x1_0000_0000
  const I32: nat := 0x8000_0000

  type byte = b: int | 0 <= b < 256

  /** n bytes of value b: memset, or erased flash. */
  function Fill(n: nat, b: byte): (s: seq<byte>)
    ensures |s| == n && forall i :: 0 <= i < n ==> s[i] == b
  {
    if n == 0 then [] else Fill(n - 1, b) + [b]
  }
}
