/** Flash as its users see it byte by byte: pw_kvs/flash_memory.cc and pw_kvs/fake_flash_memory.cc. */
module FlashMemory {
  import opened Varint
  import opened Stream
  import opened Division

  const ERASED: Byte := 0xFF

  ghost predicate Blank(bytes: Bytes, from: nat) {
    forall i :: from <= i < |bytes| ==> bytes[i] == ERASED
  }

  ghost predicate BlankBetween(bytes: Bytes, from: nat, to: nat) {
    forall i :: from <= i < to && i < |bytes| ==> bytes[i] == ERASED
  }

  lemma OutsideIsBlank(before: Bytes, after: Bytes, lo: nat, hi: nat, end: nat)
    requires SameOutside(before, after, lo, hi) && BlankBetween(before, lo, end)
    ensures BlankBetween(after, hi, end)
  {
    forall i | hi <= i < end && i < |after|
      ensures after[i] == ERASED
    {
      assert after[i] == after[hi..][i - hi] == before[hi..][i - hi] == before[i];
    }
  }

  /** A partition that must be written aligned, in bounds and onto erased bytes. Unless reliable, any operation may fail. */
  class Flash {
    const alignment: nat
    const reliable: bool
    var bytes: Bytes

    constructor (alignment: nat, reliable: bool, bytes: Bytes)
      ensures this.alignment == alignment && this.reliable == reliable && this.bytes == bytes
    {
      this.alignment := alignment;
      this.reliable := reliable;
      this.bytes := bytes;
    }

    /** A write that fails may have changed the bytes it was for, and no others. */
    method Write(address: nat, source: Bytes) returns (ok: bool)
      requires IsMultiple(address, alignment) && IsMultiple(|source|, alignment)
      requires address + |source| <= |bytes|
      requires BlankBetween(bytes, address, address + |source|)
      modifies this
      ensures |bytes| == |old(bytes)| && SameOutside(old(bytes), bytes, address, address + |source|)
      ensures ok ==> bytes == Spliced(old(bytes), address, source)
      ensures reliable ==> ok
    {
      SplicedOutside(bytes, address, source, address, address + |source|);
      bytes := Spliced(bytes, address, source);
      ok := *;
      if reliable {
        ok := true;
      }
    }

    method Read(address: nat, size: nat) returns (ok: bool, output: Bytes)
      ensures ok == (address + size <= |bytes|)
      ensures output == if ok then bytes[address..address + size] else []
    {
      ok := address + size <= |bytes|;
      output := if ok then bytes[address..address + size] else [];
    }

    /** Erases a range; whether it starts and ends with sectors is up to the owner of the partition. */
    method Erase(address: nat, size: nat) returns (ok: bool)
      requires address + size <= |bytes|
      modifies this
      ensures |bytes| == |old(bytes)| && SameOutside(old(bytes), bytes, address, address + size)
      ensures ok ==> BlankBetween(bytes, address, address + size)
      ensures reliable ==> ok
    {
      var erased := seq(size, _ => ERASED);
      SplicedOutside(bytes, address, erased, address, address + size);
      bytes := Spliced(bytes, address, erased);
      ok := *;
      if reliable {
        ok := true;
      }
    }
  }
}
