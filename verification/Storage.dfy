/** The block device under the file system: disk_read and disk_write as failable sector transfers. */
module Storage {
  import opened Bytes

  /** What a write may leave: the data if it succeeds, anything in those sectors if it fails, and the rest as it was. */
  ghost predicate MayLeave(before: seq<Sector>, sector: nat, data: seq<Sector>, ok: bool, after: seq<Sector>)
  {
    && |after| == |before|
    && (ok ==> sector + |data| <= |before| && after[sector..sector + |data|] == data)
    && forall k :: 0 <= k < |before| && !(sector <= k < sector + |data|) ==> after[k] == before[k]
  }

  /**
    A failed write may leave anything in the sectors it was asked to change; a failed read
    delivers no usable data. A reliable device never fails inside its capacity.
   */
  class Disk {
    var store: seq<Sector>
    const reliable: bool

    constructor (image: seq<Sector>, isReliable: bool)
      ensures store == image && reliable == isReliable
    {
      store := image;
      reliable := isReliable;
    }

    method Read(sector: nat, count: nat) returns (ok: bool, data: seq<Sector>)
      ensures ok ==> sector + count <= |store| && data == store[sector..sector + count]
      ensures reliable && sector + count <= |store| ==> ok
    {
      data := [];
      if sector + count > |store| {
        return false, data;
      }
      ok := *;
      ok := ok || reliable;
      if ok {
        data := store[sector..sector + count];
      }
    }

    method Write(sector: nat, data: seq<Sector>) returns (ok: bool)
      modifies this
      ensures |store| == |old(store)|
      ensures ok ==> sector + |data| <= |store|
      ensures ok ==> store == old(store)[..sector] + data + old(store)[sector + |data|..]
      ensures MayLeave(old(store), sector, data, ok, store)
      ensures forall k :: 0 <= k < |store| && !(sector <= k < sector + |data|) ==> store[k] == old(store[k])
      ensures reliable && sector + |data| <= |store| ==> ok
    {
      if sector + |data| > |store| {
        return false;
      }
      ok := *;
      ok := ok || reliable;
      var result := data;
      if !ok {
        result :| |result| == |data|;
      }
      store := store[..sector] + result + store[sector + |data|..];
    }

    /** A one-sector transfer. */
    method WriteSector(sector: nat, data: Sector) returns (ok: bool)
      modifies this
      ensures |store| == |old(store)|
      ensures ok ==> sector < |store| && store == old(store)[sector := data]
      ensures forall k :: 0 <= k < |store| && k != sector ==> store[k] == old(store[k])
      ensures reliable && sector < |store| ==> ok
    {
      ok := Write(sector, [data]);
    }

    method ReadSector(sector: nat) returns (ok: bool, data: Sector)
      ensures ok ==> sector < |store| && data == store[sector]
      ensures reliable && sector < |store| ==> ok
    {
      var sectors;
      ok, sectors := Read(sector, 1);
      data := if ok then sectors[0] else seq(SS, i => 0);
    }
  }
}
