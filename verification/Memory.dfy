/** Copying bytes in place. */
module Memory {
  import opened Bits

  /** `memcpy` from a value into part of an array. */
  method CopyBytes(dest: array<Byte>, at: nat, data: seq<Byte>)
    requires at + |data| <= dest.Length
    modifies dest
    ensures dest[..] == old(dest[..])[..at] + data + old(dest[..])[at + |data|..]
  {
    var i := 0;
    while i < |data|
      invariant 0 <= i <= |data|
      invariant forall k :: 0 <= k < at || at + i <= k < dest.Length ==> dest[k] == old(dest[k])
      invariant forall k :: 0 <= k < i ==> dest[at + k] == data[k]
    {
      dest[at + i] := data[i];
      i := i + 1;
    }
    assert dest[at..at + |data|] == data;
  }
}
