/**
 Flash as the key-value store uses it. A sector holds whole entries back to back and an erased tail;
 entries are found by the byte offset they start at. Address(s, o) stands for the flat address
 s * sectorSize + o.
 */
module KvsFlash {
  import opened Alignment
  import opened Division
  import opened KvsEntry

  datatype Address = Address(sector: nat, offset: nat)
  type Sector = map<nat, Entry>
  type Flash = seq<Sector>

  predicate Has(flash: Flash, a: Address) {
    a.sector < |flash| && a.offset in flash[a.sector]
  }

  function At(flash: Flash, a: Address): Entry
    requires Has(flash, a)
  {
    flash[a.sector][a.offset]
  }

  function Insert(m: Sector, offset: nat, e: Entry): Sector {
    m[offset := e]
  }

  /** Flash after the entry is written at the address. */
  function Put(flash: Flash, a: Address, e: Entry): Flash
    requires a.sector < |flash|
  {
    flash[a.sector := Insert(flash[a.sector], a.offset, e)]
  }

  /** Flash after the sector is erased. */
  function Wiped(flash: Flash, s: nat): Flash
    requires s < |flash|
  {
    flash[s := map[]]
  }

  /** Where the entry at this offset ends. */
  function After(g: Geometry, m: Sector, offset: nat): (r: nat)
    requires offset in m
    ensures offset < r
  {
    offset + Size(g, m[offset])
  }

  /** No entry reaches into the bytes [offset, offset + size) of the sector. */
  ghost predicate Erased(g: Geometry, m: Sector, offset: nat, size: nat) {
    forall o :: o in m ==> After(g, m, o) <= offset || offset + size <= o
  }

  ghost predicate Bounded(g: Geometry, m: Sector, end: nat) {
    forall o {:trigger After(g, m, o)} :: o in m ==> After(g, m, o) <= end
  }

  ghost predicate Gapless(g: Geometry, m: Sector, end: nat) {
    && (0 < end ==> 0 in m)
    && forall o {:trigger After(g, m, o)} :: o in m && After(g, m, o) < end ==> After(g, m, o) in m
  }

  ghost predicate Apart(g: Geometry, m: Sector) {
    forall o, p {:trigger After(g, m, o), p in m} :: o in m && p in m && o < p ==> After(g, m, o) <= p
  }

  /** The entries of the sector are back to back and fill exactly [0, end). */
  ghost predicate Tiled(g: Geometry, m: Sector, end: nat) {
    Bounded(g, m, end) && Gapless(g, m, end) && Apart(g, m)
  }

  lemma BelowEnd(g: Geometry, m: Sector, end: nat, o: nat)
    requires Tiled(g, m, end) && o in m
    ensures o < end
  {
    assert After(g, m, o) <= end;
  }

  lemma TiledIsFreeBehind(g: Geometry, m: Sector, end: nat, size: nat)
    requires Tiled(g, m, end)
    ensures end !in m && Erased(g, m, end, size)
  {
    if end in m {
      BelowEnd(g, m, end, end);
    }
  }

  lemma AfterInsert(g: Geometry, m: Sector, end: nat, e: Entry, o: nat)
    requires o in m || o == end
    ensures After(g, Insert(m, end, e), o) == if o == end then end + Size(g, e) else After(g, m, o)
  {
  }

  lemma TiledAppend(g: Geometry, m: Sector, end: nat, e: Entry, end': nat)
    requires Tiled(g, m, end) && end' == end + Size(g, e)
    ensures Tiled(g, Insert(m, end, e), end')
  {
    BoundedAppend(g, m, end, e, end');
    GaplessAppend(g, m, end, e, end');
    ApartAppend(g, m, end, e);
  }

  lemma BoundedAppend(g: Geometry, m: Sector, end: nat, e: Entry, end': nat)
    requires Bounded(g, m, end) && end' == end + Size(g, e)
    ensures Bounded(g, Insert(m, end, e), end')
  {
    forall o | o in Insert(m, end, e)
      ensures After(g, Insert(m, end, e), o) <= end'
    {
      AfterInsert(g, m, end, e, o);
    }
  }

  lemma GaplessAppend(g: Geometry, m: Sector, end: nat, e: Entry, end': nat)
    requires Bounded(g, m, end) && Gapless(g, m, end) && end' == end + Size(g, e)
    ensures Gapless(g, Insert(m, end, e), end')
  {
    forall o | o in Insert(m, end, e) && After(g, Insert(m, end, e), o) < end'
      ensures After(g, Insert(m, end, e), o) in Insert(m, end, e)
    {
      AfterInsert(g, m, end, e, o);
    }
  }

  lemma ApartAppend(g: Geometry, m: Sector, end: nat, e: Entry)
    requires Bounded(g, m, end) && Apart(g, m)
    ensures Apart(g, Insert(m, end, e))
  {
    forall p | p in m
      ensures p < end
    {
      assert After(g, m, p) <= end;
    }
    forall o, p | o in Insert(m, end, e) && p in Insert(m, end, e) && o < p
      ensures After(g, Insert(m, end, e), o) <= p
    {
      AfterInsert(g, m, end, e, o);
    }
  }

  lemma StartsTiled(g: Geometry, m: Sector, end: nat)
    requires Tiled(g, m, end)
    ensures 0 in m || end == 0
  {
  }

  /** Entries of aligned sizes back to back end aligned. */
  lemma EndIsMultiple(g: Geometry, m: Sector, end: nat, o: nat)
    requires Tiled(g, m, end) && (o in m || o == end) && IsMultiple(o, g.alignment)
    ensures IsMultiple(end, g.alignment)
    decreases if o in m then end - o else 0
  {
    hide IsMultiple;
    if o in m {
      BelowEnd(g, m, end, o);
      AlignUpIsMultiple(HEADER_SIZE + |m[o].key| + |m[o].value|, g.alignment);
      SumOfMultiples(o, Size(g, m[o]), g.alignment);
      EndIsMultiple(g, m, end, After(g, m, o));
    }
  }

  /** What is done to flash: an entry is written, or a sector is erased. */
  datatype Change = Program(at: Address, entry: Entry) | Wipe(sector: nat)

  /** A write is aligned, in bounds and onto erased bytes, of an entry that fits its header. */
  ghost predicate Writable(g: Geometry, flash: Flash, a: Address, e: Entry) {
    && a.sector < |flash| && a.offset + Size(g, e) <= g.sectorSize
    && Erased(g, flash[a.sector], a.offset, Size(g, e))
    && IsMultiple(a.offset, g.alignment) && Storable(e)
  }

  ghost predicate Possible(g: Geometry, flash: Flash, c: Change) {
    match c
    case Program(a, e) => Writable(g, flash, a, e)
    case Wipe(s) => s < |flash|
  }

  ghost function Changed(g: Geometry, flash: Flash, c: Change): Flash
    requires Possible(g, flash, c)
  {
    match c
    case Program(a, e) => Put(flash, a, e)
    case Wipe(s) => Wiped(flash, s)
  }

  /** Each state follows from the one before by a change that was possible. */
  ghost predicate Traced(g: Geometry, history: seq<Flash>, changes: seq<Change>) {
    && |history| == |changes| + 1
    && forall i :: 0 <= i < |changes| ==>
        Possible(g, history[i], changes[i]) && history[i + 1] == Changed(g, history[i], changes[i])
  }

  /** How many of these changes are erasures. */
  function Wipes(changes: seq<Change>): nat {
    if changes == [] then 0
    else Wipes(changes[..|changes| - 1]) + if changes[|changes| - 1].Wipe? then 1 else 0
  }

  lemma OneChangeMore(changes: seq<Change>, c: Change)
    ensures Wipes(changes + [c]) == Wipes(changes) + if c.Wipe? then 1 else 0
  {
    assert (changes + [c])[..|changes|] == changes;
  }

  lemma TracedOneMore(g: Geometry, history: seq<Flash>, changes: seq<Change>, c: Change)
    requires Traced(g, history, changes) && Possible(g, history[|changes|], c)
    ensures Traced(g, history + [Changed(g, history[|changes|], c)], changes + [c])
  {
    var history', changes' := history + [Changed(g, history[|changes|], c)], changes + [c];
    forall i | 0 <= i < |changes'|
      ensures Possible(g, history'[i], changes'[i]) && history'[i + 1] == Changed(g, history'[i], changes'[i])
    {
      if i < |changes| {
        assert Possible(g, history[i], changes[i]) && history[i + 1] == Changed(g, history[i], changes[i]);
      }
    }
  }

  /**
   A flash partition that keeps the contract of pw_kvs/fake_flash_memory.cc: a write is in bounds and
   onto erased bytes, and then succeeds. `history` is every state flash has been in between two whole
   writes or erases, the states a power cut can leave behind, and `changes` is what happened between them.
   */
  class FlashPartition {
    const g: Geometry
    var sectors: Flash
    ghost var history: seq<Flash>
    ghost var changes: seq<Change>

    ghost predicate Valid()
      reads this
    {
      && |sectors| == g.sectorCount && history != [] && history[|history| - 1] == sectors
      && Traced(g, history, changes)
    }

    ghost function Erasures(): nat
      reads this
    {
      Wipes(changes)
    }

    // A partition that already holds these entries.
    constructor (g: Geometry, sectors: Flash)
      requires |sectors| == g.sectorCount
      ensures Valid() && this.g == g && this.sectors == sectors && history == [sectors]
    {
      this.g := g;
      this.sectors := sectors;
      this.history := [sectors];
      changes := [];
    }

    method Write(a: Address, e: Entry)
      requires Valid() && Writable(g, sectors, a, e)
      modifies this
      ensures Valid()
      ensures sectors == Put(old(sectors), a, e)
      ensures history == old(history) + [sectors]
      ensures Erasures() == old(Erasures())
    {
      TracedOneMore(g, history, changes, Program(a, e));
      OneChangeMore(changes, Program(a, e));
      changes := changes + [Program(a, e)];
      sectors := Put(sectors, a, e);
      history := history + [sectors];
    }

    method Erase(s: nat)
      requires Valid() && s < |sectors|
      modifies this
      ensures Valid()
      ensures sectors == Wiped(old(sectors), s)
      ensures history == old(history) + [sectors]
      ensures Erasures() == old(Erasures()) + 1
    {
      TracedOneMore(g, history, changes, Wipe(s));
      OneChangeMore(changes, Wipe(s));
      changes := changes + [Wipe(s)];
      sectors := Wiped(sectors, s);
      history := history + [sectors];
    }
  }
}
