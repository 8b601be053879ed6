/**
 Sector accounting: the bytes counted as valid in a sector are the padded sizes of the live copies in it,
 and the writable bytes are its erased tail.
 */
module KvsAccounting {
  import opened Division
  import opened KvsEntry
  import opened KvsFlash
  import opened KvsSectors

  /** The summed sizes of the entries at live addresses, from `offset` to the end of the written part. */
  ghost function LiveBytes(g: Geometry, m: Sector, s: nat, live: set<Address>, offset: nat, end: nat): (n: nat)
    ensures n == 0 || n <= end - offset
    decreases if offset in m then end - offset else 0
  {
    if offset !in m || end < After(g, m, offset) then 0 else
    var here := if Address(s, offset) in live then Size(g, m[offset]) else 0;
    here + LiveBytes(g, m, s, live, After(g, m, offset), end)
  }

  lemma LiveBytesSame(g: Geometry, m: Sector, s: nat, live: set<Address>, live': set<Address>, offset: nat, end: nat)
    requires forall o :: offset <= o && Address(s, o) in live ==> Address(s, o) in live'
    requires forall o :: offset <= o && Address(s, o) in live' ==> Address(s, o) in live
    ensures LiveBytes(g, m, s, live, offset, end) == LiveBytes(g, m, s, live', offset, end)
    decreases if offset in m then end - offset else 0
  {
    if offset in m && After(g, m, offset) <= end {
      LiveBytesSame(g, m, s, live, live', After(g, m, offset), end);
    }
  }

  lemma {:induction false} LiveBytesAdd(
    g: Geometry, m: Sector, s: nat, live: set<Address>, added: nat, offset: nat, end: nat)
    requires Tiled(g, m, end) && added in m && Address(s, added) !in live
    requires offset in m && offset <= added
    ensures LiveBytes(g, m, s, live + {Address(s, added)}, offset, end)
         == LiveBytes(g, m, s, live, offset, end) + Size(g, m[added])
    decreases end - offset
  {
    var next, live' := After(g, m, offset), live + {Address(s, added)};
    assert next <= end;
    if offset == added {
      LiveBytesSame(g, m, s, live, live', next, end);
    } else {
      assert next <= added;
      BelowEnd(g, m, end, added);
      LiveBytesAdd(g, m, s, live, added, next, end);
    }
  }

  /** Appending a live entry adds its size. */
  lemma {:induction false} LiveBytesAppend(
    g: Geometry, m: Sector, s: nat, live: set<Address>, e: Entry, offset: nat, end: nat, end': nat)
    requires Tiled(g, m, end) && (offset in m || offset == end) && end' == end + Size(g, e)
    requires Address(s, end) !in live
    ensures LiveBytes(g, Insert(m, end, e), s, live + {Address(s, end)}, offset, end')
         == LiveBytes(g, m, s, live, offset, end) + Size(g, e)
    decreases if offset in m then end - offset else 0
  {
    var m', live' := Insert(m, end, e), live + {Address(s, end)};
    AppendFree(g, m, end, e);
    if offset == end {
      LiveBytesLast(g, m', s, live', end, end');
    } else {
      var next := After(g, m, offset);
      assert next == After(g, m', offset) <= end;
      LiveBytesAppend(g, m, s, live, e, next, end, end');
    }
  }

  lemma LiveBytesLast(g: Geometry, m: Sector, s: nat, live: set<Address>, offset: nat, end: nat)
    requires offset in m && After(g, m, offset) == end && end !in m && Address(s, offset) in live
    ensures LiveBytes(g, m, s, live, offset, end) == Size(g, m[offset])
  {
  }

  lemma AppendFree(g: Geometry, m: Sector, end: nat, e: Entry)
    requires Tiled(g, m, end)
    ensures end !in m && end + Size(g, e) !in m
  {
    if end in m {
      BelowEnd(g, m, end, end);
    }
    if end + Size(g, e) in m {
      BelowEnd(g, m, end, end + Size(g, e));
    }
  }

  /** No live bytes means no live entry. */
  lemma {:induction false} LiveBytesZero(g: Geometry, m: Sector, s: nat, live: set<Address>, o: nat, end: nat)
    requires Tiled(g, m, end) && o in m && Address(s, o) in live
    ensures Size(g, m[o]) <= LiveBytes(g, m, s, live, 0, end)
  {
    BelowEnd(g, m, end, o);
    var rest := live - {Address(s, o)};
    assert rest + {Address(s, o)} == live;
    LiveBytesAdd(g, m, s, rest, o, 0, end);
  }

  lemma LiveBytesNone(g: Geometry, m: Sector, s: nat, live: set<Address>, offset: nat, end: nat)
    requires forall o :: o in m ==> Address(s, o) !in live
    ensures LiveBytes(g, m, s, live, offset, end) == 0
    decreases if offset in m then end - offset else 0
  {
    if offset in m && After(g, m, offset) <= end {
      LiveBytesNone(g, m, s, live, After(g, m, offset), end);
    }
  }

  /** Where the erased tail of a sector begins. */
  function Used(g: Geometry, d: SectorDescriptor): nat
    requires d.tailFree <= g.sectorSize
  {
    g.sectorSize - d.tailFree
  }

  /** The descriptor of sector s is exact: its tail is the erased one, its valid bytes are the live ones. */
  ghost predicate Exact(g: Geometry, m: Sector, d: SectorDescriptor, s: nat, live: set<Address>) {
    && d.tailFree <= g.sectorSize
    && Tiled(g, m, Used(g, d))
    && d.validBytes == LiveBytes(g, m, s, live, 0, Used(g, d))
  }

  /** Every descriptor is exact for these live addresses. */
  ghost predicate Accounts(g: Geometry, flash: Flash, ds: Descriptors, live: set<Address>) {
    && |flash| == |ds| == g.sectorCount
    && (forall s :: 0 <= s < |ds| ==> Exact(g, flash[s], ds[s], s, live))
    && (forall a :: a in live ==> Has(flash, a))
  }

  /** valid + recoverable + writable is the sector size, with no wrap-around. */
  lemma AccountsAreSane(g: Geometry, flash: Flash, ds: Descriptors, live: set<Address>)
    requires Accounts(g, flash, ds, live)
    ensures AllSane(g, ds)
    ensures forall s :: 0 <= s < |ds| ==> ds[s].validBytes + ds[s].Recoverable(g) + ds[s].Writable() == g.sectorSize
  {
    forall s | 0 <= s < |ds|
      ensures ds[s].Sane(g)
    {
      assert Exact(g, flash[s], ds[s], s, live);
    }
  }

  /** The descriptor of a sector after `size` live bytes are appended to it. */
  function Appended(d: SectorDescriptor, size: nat): SectorDescriptor {
    d.RemoveWritable(size).AddValid(size)
  }

  lemma ExactAppend(g: Geometry, m: Sector, d: SectorDescriptor, s: nat, live: set<Address>, e: Entry)
    requires Exact(g, m, d, s, live) && d.HasSpace(Size(g, e)) && Address(s, Used(g, d)) !in live
    ensures Exact(g, Insert(m, Used(g, d), e), Appended(d, Size(g, e)), s, live + {Address(s, Used(g, d))})
  {
    var end := Used(g, d);
    UsedAppended(g, d, Size(g, e));
    var end' := Used(g, Appended(d, Size(g, e)));
    TiledAppend(g, m, end, e, end');
    LiveBytesAppend(g, m, s, live, e, 0, end, end');
  }

  lemma UsedAppended(g: Geometry, d: SectorDescriptor, size: nat)
    requires d.tailFree <= g.sectorSize && d.HasSpace(size)
    ensures Used(g, Appended(d, size)) == Used(g, d) + size <= g.sectorSize
    ensures Appended(d, size).validBytes == d.validBytes + size && Appended(d, size).tailFree <= g.sectorSize
  {
  }

  lemma ExactElsewhere(g: Geometry, m: Sector, d: SectorDescriptor, s: nat, live: set<Address>, live': set<Address>)
    requires Exact(g, m, d, s, live)
    requires forall a: Address :: a.sector == s ==> (a in live <==> a in live')
    ensures Exact(g, m, d, s, live')
  {
    LiveBytesSame(g, m, s, live, live', 0, Used(g, d));
  }

  lemma ExactRemove(g: Geometry, m: Sector, d: SectorDescriptor, s: nat, live: set<Address>, o: nat)
    requires Exact(g, m, d, s, live) && o in m && Address(s, o) in live
    ensures Size(g, m[o]) <= d.validBytes
    ensures Exact(g, m, d.RemoveValid(Size(g, m[o])), s, live - {Address(s, o)})
  {
    var live' := live - {Address(s, o)};
    LiveBytesZero(g, m, s, live, o, Used(g, d));
    BelowEnd(g, m, Used(g, d), o);
    LiveBytesAdd(g, m, s, live', o, 0, Used(g, d));
    assert live' + {Address(s, o)} == live;
  }

  /** Where the next entry of a sector goes: Sectors::NextWritableAddress. */
  function NextWritable(g: Geometry, ds: Descriptors, s: nat): Address
    requires s < |ds| && ds[s].tailFree <= g.sectorSize
  {
    Address(s, Used(g, ds[s]))
  }

  /** A sector with room has it at its next writable address, in bounds and erased. */
  lemma RoomAtNextWritable(g: Geometry, flash: Flash, ds: Descriptors, live: set<Address>, s: nat, e: Entry)
    requires Accounts(g, flash, ds, live) && s < |ds| && ds[s].HasSpace(Size(g, e))
    ensures ds[s].tailFree <= g.sectorSize
    ensures !Has(flash, NextWritable(g, ds, s))
    ensures Erased(g, flash[s], NextWritable(g, ds, s).offset, Size(g, e))
    ensures NextWritable(g, ds, s).offset + Size(g, e) <= g.sectorSize
    ensures IsMultiple(NextWritable(g, ds, s).offset, g.alignment)
  {
    hide IsMultiple, Gapless, Bounded, Apart, LiveBytes;
    assert Exact(g, flash[s], ds[s], s, live);
    TiledIsFreeBehind(g, flash[s], Used(g, ds[s]), Size(g, e));
    MultipleOfItself(g.alignment);
    StartsTiled(g, flash[s], Used(g, ds[s]));
    EndIsMultiple(g, flash[s], Used(g, ds[s]), 0);
  }

  lemma AccountsAppend(g: Geometry, flash: Flash, ds: Descriptors, live: set<Address>, s: nat, e: Entry)
    requires Accounts(g, flash, ds, live) && s < |ds| && ds[s].HasSpace(Size(g, e))
    ensures ds[s].tailFree <= g.sectorSize
    ensures Accounts(g, Put(flash, NextWritable(g, ds, s), e), ds[s := Appended(ds[s], Size(g, e))],
                     live + {NextWritable(g, ds, s)})
  {
    assert Exact(g, flash[s], ds[s], s, live);
    var a := NextWritable(g, ds, s);
    var flash', ds', live' := Put(flash, a, e), ds[s := Appended(ds[s], Size(g, e))], live + {a};
    assert flash'[s] == Insert(flash[s], a.offset, e);
    AppendFree(g, flash[s], a.offset, e);
    ExactAppend(g, flash[s], ds[s], s, live, e);
    forall t | 0 <= t < |ds'| && t != s
      ensures Exact(g, flash'[t], ds'[t], t, live')
    {
      ExactElsewhere(g, flash[t], ds[t], t, live, live');
    }
  }

  /** Taking an address out of the live set takes its bytes out of its sector. */
  lemma AccountsRemove(g: Geometry, flash: Flash, ds: Descriptors, live: set<Address>, a: Address)
    requires Accounts(g, flash, ds, live) && a in live
    ensures Has(flash, a) && Size(g, At(flash, a)) <= ds[a.sector].validBytes
    ensures Accounts(g, flash, ds[a.sector := ds[a.sector].RemoveValid(Size(g, At(flash, a)))], live - {a})
  {
    var s := a.sector;
    var ds', live' := ds[s := ds[s].RemoveValid(Size(g, At(flash, a)))], live - {a};
    assert a == Address(s, a.offset);
    assert Exact(g, flash[s], ds[s], s, live);
    ExactRemove(g, flash[s], ds[s], s, live, a.offset);
    forall t | 0 <= t < |ds'|
      ensures Exact(g, flash[t], ds'[t], t, live')
    {
      if t != s {
        ExactElsewhere(g, flash[t], ds[t], t, live, live');
      }
    }
  }

  lemma AccountsWipe(g: Geometry, flash: Flash, ds: Descriptors, live: set<Address>, s: nat)
    requires Accounts(g, flash, ds, live) && s < |ds|
    requires forall a :: a in live ==> a.sector != s
    ensures Accounts(g, Wiped(flash, s), ds[s := SectorDescriptor(g.sectorSize, 0)], live)
  {
    var flash', ds' := Wiped(flash, s), ds[s := SectorDescriptor(g.sectorSize, 0)];
    forall t | 0 <= t < |ds'|
      ensures Exact(g, flash'[t], ds'[t], t, live)
    {
      if t != s {
        assert Exact(g, flash[t], ds[t], t, live);
      }
    }
  }

  /** A sector counts no valid bytes exactly when no live address is in it. */
  lemma ValidBytesZero(g: Geometry, flash: Flash, ds: Descriptors, live: set<Address>, s: nat)
    requires Accounts(g, flash, ds, live) && s < |ds|
    ensures ds[s].validBytes == 0 <==> forall a :: a in live ==> a.sector != s
  {
    assert Exact(g, flash[s], ds[s], s, live);
    if a :| a in live && a.sector == s {
      assert a == Address(s, a.offset);
      LiveBytesZero(g, flash[s], s, live, a.offset, Used(g, ds[s]));
    } else {
      LiveBytesNone(g, flash[s], s, live, 0, Used(g, ds[s]));
    }
  }
}
