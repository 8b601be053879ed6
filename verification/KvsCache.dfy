/** The entry cache of the store, pw_kvs/entry_cache.cc: descriptors and addresses changed in place. */
module KvsCache {
  import opened KvsEntry
  import opened KvsFlash
  import opened KvsIndex

  datatype Status =
    | Ok | NotFound | AlreadyExists | ResourceExhausted | InvalidArgument | FailedPrecondition | DataLoss | OutOfRange

  class EntryCache {
    const g: Geometry
    var entries: Index

    constructor (g: Geometry)
      ensures this.g == g && entries == []
    {
      this.g := g;
      entries := [];
    }

    method FindIndex(hash: nat) returns (index: int)
      ensures -1 <= index < |entries|
      ensures 0 <= index ==> entries[index].hash == hash && forall k :: 0 <= k < index ==> entries[k].hash != hash
      ensures index == -1 ==> forall i :: 0 <= i < |entries| ==> entries[i].hash != hash
    {
      for i := 0 to |entries|
        invariant forall k :: 0 <= k < i ==> entries[k].hash != hash
      {
        if entries[i].hash == hash {
          return i;
        }
      }
      return -1;
    }

    method AddNew(descriptor: Metadata, a: Address)
      modifies this
      ensures entries == old(entries) + [descriptor.(addresses := [a])]
    {
      entries := entries + [descriptor.(addresses := [a])];
    }

    /** Points a descriptor at a new entry, forgetting the copies of the old one. */
    method Reset(i: nat, descriptor: Metadata, a: Address)
      requires i < |entries|
      modifies this
      ensures entries == old(entries)[i := descriptor.(addresses := [a])]
    {
      entries := entries[i := descriptor.(addresses := [a])];
    }

    method AddNewAddress(i: nat, a: Address)
      requires i < |entries|
      modifies this
      ensures entries == old(entries)[i := old(entries)[i].(addresses := old(entries)[i].addresses + [a])]
    {
      entries := entries[i := entries[i].(addresses := entries[i].addresses + [a])];
    }

    method SetAddress(i: nat, j: nat, a: Address)
      requires i < |entries| && j < |entries[i].addresses|
      modifies this
      ensures entries == old(entries)[i := old(entries)[i].(addresses := old(entries)[i].addresses[j := a])]
    {
      entries := entries[i := entries[i].(addresses := entries[i].addresses[j := a])];
    }

    /** What one entry found in flash does to the cache. */
    method AddNewOrUpdateExisting(descriptor: Metadata, a: Address) returns (status: Status)
      modifies this
      ensures (entries, status) == Loaded(g, old(entries), descriptor, a)
    {
      var index := FindIndex(descriptor.hash);
      LoadedAt(g, entries, descriptor, a, index);
      if index == -1 {
        if |entries| == g.maxEntries {
          return ResourceExhausted;
        }
        AddNew(descriptor, a);
        return Ok;
      }
      if entries[index].id < descriptor.id {
        Reset(index, descriptor, a);
        return Ok;
      }
      if entries[index].id == descriptor.id {
        for j := 0 to |entries[index].addresses|
          invariant entries == old(entries)
          invariant forall k :: 0 <= k < j ==> entries[index].addresses[k].sector != a.sector
        {
          if entries[index].addresses[j].sector == a.sector {
            return DataLoss;
          }
        }
        if |entries[index].addresses| < g.redundancy {
          AddNewAddress(index, a);
        }
      }
      return Ok;
    }
  }

  function IndexOf(index: Index, hash: nat): (i: int)
    ensures -1 <= i < |index|
    ensures 0 <= i ==> index[i].hash == hash
    ensures i == -1 ==> forall k :: 0 <= k < |index| ==> index[k].hash != hash
    ensures forall k :: 0 <= k < i ==> index[k].hash != hash
  {
    if index == [] then -1
    else if index[0].hash == hash then 0
    else
      var i := IndexOf(index[1..], hash);
      if i == -1 then -1 else i + 1
  }

  function Loaded(g: Geometry, index: Index, descriptor: Metadata, a: Address): (Index, Status) {
    LoadedInto(g, index, descriptor, a, IndexOf(index, descriptor.hash))
  }

  function LoadedInto(g: Geometry, index: Index, descriptor: Metadata, a: Address, i: int): (Index, Status)
    requires -1 <= i < |index|
  {
    var newer := descriptor.(addresses := [a]);
    if i == -1 then
      if |index| == g.maxEntries then (index, ResourceExhausted) else (index + [newer], Ok)
    else if index[i].id < descriptor.id then
      (index[i := newer], Ok)
    else if index[i].id == descriptor.id then
      if exists j :: 0 <= j < |index[i].addresses| && index[i].addresses[j].sector == a.sector then
        (index, DataLoss)
      else if |index[i].addresses| < g.redundancy then
        (index[i := index[i].(addresses := index[i].addresses + [a])], Ok)
      else
        (index, Ok)
    else
      (index, Ok)
  }

  lemma LoadedAt(g: Geometry, index: Index, descriptor: Metadata, a: Address, i: int)
    requires -1 <= i < |index|
    requires 0 <= i ==> index[i].hash == descriptor.hash && forall k :: 0 <= k < i ==> index[k].hash != descriptor.hash
    requires i == -1 ==> forall k :: 0 <= k < |index| ==> index[k].hash != descriptor.hash
    ensures Loaded(g, index, descriptor, a) == LoadedInto(g, index, descriptor, a, i)
  {
  }
}
