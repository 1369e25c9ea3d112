/** Byte buffers that the encoders fill from the front. */
module ByteBuffer {
  import opened MachineInts

  /** Writes `bytes` at position `at`, behind what is already there. */
  method WriteAt(out: array<byte>, at: nat, bytes: seq<byte>)
    requires at + |bytes| <= out.Length
    modifies out
    ensures out[..at + |bytes|] == old(out[..at]) + bytes
  {
    for i := 0 to |bytes|
      invariant out[..at + i] == old(out[..at]) + bytes[..i]
    {
      out[at + i] := bytes[i];
    }
  }
}
