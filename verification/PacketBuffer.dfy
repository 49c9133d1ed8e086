/** A packet's byte buffer: append while it fits, read back what was appended. */
module PacketBuffer {
  import opened Bytes

  datatype Outcome = Appended | Rejected | Overrun

  /** The size check lets pass what fits and, because its sum is 32 bits wide, whatever makes the sum wrap. */
  lemma CheckPasses(used: size, n: size, capacity: size)
    requires used <= capacity
    ensures AddSize(n, used) <= capacity <==> used + n <= capacity || used + n >= SIZE_MODULUS
  {
    if used + n >= SIZE_MODULUS {
      assert AddSize(n, used) == used + n - SIZE_MODULUS;
    }
  }

  /** One byte in the packet and a size of 0xFFFFFFFF: the sum is zero, and the check passes. */
  lemma WrapPasses(capacity: size)
    requires 1 <= capacity
    ensures AddSize(0xFFFF_FFFF, 1) <= capacity < 1 + 0xFFFF_FFFF
  {
    CheckPasses(1, 0xFFFF_FFFF, capacity);
  }

  class Packet {
    const buffer: array<byte>  // max_packet_size bytes
    var used: nat

    ghost predicate Valid()
      reads this
    {
      used <= buffer.Length < SIZE_MODULUS
    }

    ghost function Contents(): seq<byte>
      reads this, buffer
      requires Valid()
    {
      buffer[..used]
    }

    /** What allocatePacket returns: the bytes are arbitrary, none of them is used. */
    constructor (capacity: size)
      ensures Valid() && fresh(buffer) && buffer.Length == capacity && Contents() == []
    {
      buffer := new byte[capacity](_ => 0x42);
      used := 0;
    }

    /**
     All of the data is appended iff it fits and nothing iff it does not, unless the sum of the sizes wraps:
     then the check passes and the copy would leave the buffer; the model reports that and stops.
     */
    method Append(data: seq<byte>) returns (r: Outcome)
      requires Valid() && |data| < SIZE_MODULUS
      modifies this, buffer
      ensures Valid()
      ensures r.Appended? <==> old(used) + |data| <= buffer.Length
      ensures r.Overrun? <==> old(used) + |data| >= SIZE_MODULUS
      ensures Contents() == old(Contents()) + if r.Appended? then data else []
    {
      CheckPasses(used, |data|, buffer.Length);
      if AddSize(|data|, used) > buffer.Length { return Rejected; }
      if used + |data| > buffer.Length { return Overrun; }
      ghost var before := buffer[..used];
      var i := 0;
      while i < |data|
        invariant i <= |data| && used == old(used)
        invariant buffer[..used] == before
        invariant buffer[used..used + i] == data[..i]
      {
        buffer[used + i] := data[i];
        i := i + 1;
      }
      assert buffer[..used + |data|] == buffer[..used] + buffer[used..used + |data|];
      used := used + |data|;
      return Appended;
    }

    method Data() returns (bytes: seq<byte>)
      requires Valid()
      ensures bytes == Contents()
    {
      bytes := buffer[..used];
    }
  }
}
