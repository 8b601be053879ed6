/** Writing to memory: pw_stream/memory_stream.cc. */
module Stream {
  import opened Varint

  datatype WriteStatus = Written | WriteOutOfRange | WriteResourceExhausted

  /** A buffer after bytes are copied into it at an offset. */
  function Spliced(b: Bytes, at: nat, data: Bytes): (b': Bytes)
    requires at + |data| <= |b|
    ensures |b'| == |b|
  {
    b[..at] + data + b[at + |data|..]
  }

  /** Bytes in front of `lo` and from `hi` on are as they were. */
  ghost predicate SameOutside(before: Bytes, after: Bytes, lo: nat, hi: nat) {
    |before| == |after| && lo <= hi <= |before| && before[..lo] == after[..lo] && before[hi..] == after[hi..]
  }

  lemma SplicedOutside(b: Bytes, at: nat, data: Bytes, lo: nat, hi: nat)
    requires lo <= at && at + |data| <= hi <= |b|
    ensures SameOutside(b, Spliced(b, at, data), lo, hi)
  {
    var b' := Spliced(b, at, data);
    assert b[..lo] == b'[..lo];
    assert b[hi..] == b'[hi..];
  }

  lemma OutsideTransitive(a: Bytes, b: Bytes, c: Bytes, lo: nat, hi: nat)
    requires SameOutside(a, b, lo, hi) && SameOutside(b, c, lo, hi)
    ensures SameOutside(a, c, lo, hi)
  {
  }

  lemma OutsideSmaller(a: Bytes, b: Bytes, lo: nat, hi: nat, lo': nat, hi': nat)
    requires SameOutside(a, b, lo, hi) && lo' <= lo && hi <= hi' <= |a|
    ensures SameOutside(a, b, lo', hi')
  {
    assert a[..lo'] == a[..lo][..lo'] && b[..lo'] == b[..lo][..lo'];
    assert a[hi'..] == a[hi..][hi' - hi..] && b[hi'..] == b[hi..][hi' - hi..];
  }

  lemma OutsideStart(b: Bytes, lo: nat, hi: nat)
    requires lo <= hi <= |b|
    ensures SameOutside(b, b, lo, hi)
  {
  }

  lemma OutsideSize(a: Bytes, b: Bytes, lo: nat, hi: nat)
    requires SameOutside(a, b, lo, hi)
    ensures |a| == |b|
  {
  }

  lemma OutsideSlice(a: Bytes, b: Bytes, lo: nat, hi: nat, from: nat, n: nat)
    requires SameOutside(a, b, lo, hi) && from + n <= |a| && (from + n <= lo || hi <= from)
    ensures a[from..from + n] == b[from..from + n]
  {
    forall i | from <= i < from + n
      ensures a[i] == b[i]
    {
      if from + n <= lo {
        assert a[..lo][i] == b[..lo][i];
      } else {
        assert a[hi..][i - hi] == b[hi..][i - hi];
      }
    }
  }

  /** Pieces one behind the other. */
  function Concatenated(chunks: seq<Bytes>): Bytes {
    if chunks == [] then [] else Concatenated(chunks[..|chunks| - 1]) + chunks[|chunks| - 1]
  }

  lemma {:induction false} PrefixFits(chunks: seq<Bytes>, i: nat)
    requires i < |chunks|
    ensures |Concatenated(chunks[..i])| + |chunks[i]| <= |Concatenated(chunks)|
  {
    var n := |chunks| - 1;
    if i < n {
      PrefixFits(chunks[..n], i);
      assert chunks[..n][..i] == chunks[..i];
    }
  }

  /** What a writer with so many bytes left says to a write of `size` bytes, even of none. */
  function StatusOfWrite(left: nat, size: nat): WriteStatus {
    if left == 0 then WriteOutOfRange else if left < size then WriteResourceExhausted else Written
  }

  /** Writes into the bytes [begin, end) of a buffer that others may use too. */
  class MemoryWriter {
    const buffer: array<Byte>
    const begin: nat
    const end: nat
    var position: nat

    ghost predicate Valid()
      reads this
    {
      begin + position <= end <= buffer.Length
    }

    function ConservativeWriteLimit(): nat
      requires Valid()
      reads this
    {
      end - begin - position
    }

    ghost function WrittenData(): Bytes
      requires Valid()
      reads this, buffer
    {
      buffer[begin..begin + position]
    }

    constructor (buffer: array<Byte>, begin: nat, end: nat)
      requires begin <= end <= buffer.Length
      ensures Valid() && this.buffer == buffer && this.begin == begin && this.end == end && position == 0
    {
      this.buffer := buffer;
      this.begin := begin;
      this.end := end;
      position := 0;
    }

    /** Writes all of the data or nothing. */
    method Write(data: Bytes) returns (status: WriteStatus)
      requires Valid()
      modifies this`position, buffer
      ensures Valid() && status == StatusOfWrite(old(ConservativeWriteLimit()), |data|)
      ensures status == Written ==>
        && position == old(position) + |data|
        && buffer[..] == Spliced(old(buffer[..]), begin + old(position), data)
        && WrittenData() == old(WrittenData()) + data
      ensures status != Written ==> position == old(position) && buffer[..] == old(buffer[..])
    {
      if ConservativeWriteLimit() == 0 {
        return WriteOutOfRange;
      }
      if ConservativeWriteLimit() < |data| {
        return WriteResourceExhausted;
      }
      if |data| == 0 {
        return Written;
      }
      ghost var b, at := buffer[..], begin + position;
      forall k | 0 <= k < |data| {
        buffer[begin + position + k] := data[k];
      }
      assert buffer[..] == Spliced(b, at, data);
      position := position + |data|;
      return Written;
    }
  }
}
