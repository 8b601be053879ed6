/** Numbers as their bytes in memory, least significant byte first. */
module ByteOrder {
  import opened Varint

  type Uint16 = n: nat | n < 0x1_0000

  /** A 32-bit number, least significant byte first. */
  function LittleEndian(n: Uint32): (bytes: Bytes)
    ensures |bytes| == 4
  {
    [n % 256, n / 256 % 256, n / 256 / 256 % 256, n / 256 / 256 / 256]
  }

  function FromLittleEndian(bytes: Bytes): Uint32
    requires |bytes| == 4
  {
    var b0: nat, b1: nat, b2: nat, b3: nat := bytes[0], bytes[1], bytes[2], bytes[3];
    b0 + 0x100 * b1 + 0x1_0000 * b2 + 0x100_0000 * b3
  }

  lemma LittleEndianRoundTrip(n: Uint32)
    ensures FromLittleEndian(LittleEndian(n)) == n
  {
    var n1 := n / 256;
    var n2 := n1 / 256;
    var n3 := n2 / 256;
    assert n == 256 * n1 + n % 256 && n1 == 256 * n2 + n1 % 256 && n2 == 256 * n3 + n2 % 256;
    assert LittleEndian(n) == [n % 256, n1 % 256, n2 % 256, n3];
  }

  lemma LastByte(front: nat, b: Byte)
    ensures (256 * front + b) / 256 == front && (256 * front + b) % 256 == b
  {
  }

  lemma FromLittleEndianRoundTrip(bytes: Bytes)
    requires |bytes| == 4
    ensures LittleEndian(FromLittleEndian(bytes)) == bytes
  {
    var b0, b1, b2, b3: nat := bytes[0], bytes[1], bytes[2], bytes[3];
    var n2 := 256 * b3 + b2;
    var n1 := 256 * n2 + b1;
    var n := 256 * n1 + b0;
    LastByte(b3, b2);
    LastByte(n2, b1);
    LastByte(n1, b0);
    assert FromLittleEndian(bytes) == n;
    assert LittleEndian(n) == [n % 256, n1 % 256, n2 % 256, b3];
  }

  function LittleEndian16(n: Uint16): (bytes: Bytes)
    ensures |bytes| == 2
  {
    [n % 256, n / 256]
  }

  function FromLittleEndian16(bytes: Bytes): Uint16
    requires |bytes| == 2
  {
    var b0: nat, b1: nat := bytes[0], bytes[1];
    b0 + 0x100 * b1
  }
}
