/** Entries of the key-value store as they lie in flash: pw_kvs/entry.cc and the headers it needs. */
module KvsEntry {
  import opened Alignment
  import Varint

  type Byte = Varint.Byte
  type Bytes = Varint.Bytes
  type Key = Bytes

  const HEADER_SIZE := 16       // sizeof(EntryHeader)
  const MAX_KEY_LENGTH := 63    // Entry::kMaxKeyLength
  const MAX_SECTOR_SIZE := 65534
  const MAX_TRANSACTION_ID := 0xFFFF_FFFF
  const DELETED_VALUE_LENGTH := 0xFFFF

  /**
   The fixed parameters of one store: its flash partition, its redundancy, its cache capacity, the function
   that hashes keys, and the keys its users use. `header` gives the bytes of an entry's header. `verifies` says
   whether the checksum of an entry, taken over another key than its own, passes the verification of a read;
   it always does in a store that does not verify what it reads.
   */
  datatype Parameters = Parameters(
    sectorCount: nat, sectorSize: nat, alignment: nat, redundancy: nat, maxEntries: nat, hash: Key -> nat,
    inUse: Key -> bool, header: (Entry, nat) -> Byte, verifies: (Entry, Key) -> bool) {

    // What KeyValueStore::Init checks before it scans, and the static asserts of its buffers. The
    // alignment is the effective one of an entry, in units of 16 bytes.
    predicate Usable() {
      && 2 <= sectorCount
      && 0 < sectorSize <= MAX_SECTOR_SIZE
      && 0 < alignment && alignment % 16 == 0
      && 0 < redundancy
      && 0 < maxEntries
    }
  }

  type Geometry = g: Parameters | g.Usable() witness
    Parameters(2, 512, 16, 1, 1, _ => 0, _ => true, (_, _) => 0, (_, _) => true)

  /** A whole entry in flash. A tombstone has no value. Being whole stands for a checksum that matches. */
  datatype Entry = Entry(key: Key, value: Bytes, deleted: bool, id: nat)

  /** What fits the fields of a header. */
  predicate Storable(e: Entry) {
    && 0 < |e.key| <= MAX_KEY_LENGTH && |e.value| < DELETED_VALUE_LENGTH
    && (e.deleted ==> e.value == []) && e.id <= MAX_TRANSACTION_ID
  }

  /** Padded size of an entry with this key and value. */
  function EntrySize(g: Geometry, key: Key, value: Bytes): (size: nat)
    ensures HEADER_SIZE + |key| + |value| <= size
  {
    AlignUp(HEADER_SIZE + |key| + |value|, g.alignment)
  }

  function Size(g: Geometry, e: Entry): (size: nat)
    ensures HEADER_SIZE <= size
  {
    EntrySize(g, e.key, e.value)
  }
}
