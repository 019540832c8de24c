/**
  The FATFS object: a one-sector write-back window over the disk, FAT entries read and written through
  it, and the cluster allocator on top.
 */
module FileSystem {
  import opened Bytes
  import opened Storage
  import opened Volume
  import opened FatTable
  import opened Chains

  datatype FResult = Ok | DiskErr | IntErr | NoFile | Denied | InvalidName

  /** What get_fat returns for a cluster number outside the volume and for a disk error. */
  const INTERNAL_ERROR: dword := 1
  const DISK_ERROR: dword := 0xFFFF_FFFF

  class Fatfs {
    const disk: Disk
    const win: array<byte>
    const g: Geometry
    var winsect: dword
    var wflag: bool
    var lastClst: dword
    var freeClst: dword
    var fsiFlag: byte
    /** Set once a write to the second FAT has failed. */
    ghost var mirrorLost: bool

    ghost predicate Valid()
      reads this`winsect, this`wflag, this`mirrorLost, win, disk
    {
      && win.Length == SS
      && g.Valid()
      && g.End() <= |disk.store| <= NO_SECTOR
      && (wflag || winsect != NO_SECTOR ==> winsect < |disk.store|)
      && (!wflag && winsect != NO_SECTOR ==> win[..] == disk.store[winsect])
      && !g.InFat2(winsect)
      && (mirrorLost || MirroredExcept(g, disk.store, Hole()))
    }

    /** The one sector whose copy may lag behind: a dirty window. */
    ghost function Hole(): dword
      reads this`winsect, this`wflag
    {
      if wflag then winsect else NO_SECTOR
    }

    /** The logical disk contents: the dirty window overlaid on the disk. */
    ghost function View(): (img: seq<Sector>)
      requires Valid()
      reads this`winsect, this`wflag, this`mirrorLost, win, disk
      ensures |img| == |disk.store|
    {
      if wflag then disk.store[winsect := win[..]] else disk.store
    }

    /** The same in any state, also one in which a failed write has left the window out of step with the disk. */
    ghost function Image(): (img: seq<Sector>)
      reads this`winsect, this`wflag, win, disk
      ensures |img| == |disk.store|
      ensures Valid() ==> img == View()
    {
      if wflag && winsect < |disk.store| && win.Length == SS then disk.store[winsect := win[..]] else disk.store
    }

    lemma DiskBounds()
      requires Valid()
      ensures g.Valid() && g.End() <= |disk.store| == |View()| <= NO_SECTOR
    {
    }

    /** A window over a sector of the first FAT shows its logical contents. */
    lemma WindowCurrent()
      requires Valid() && g.InFat1(winsect)
      ensures winsect < |disk.store| && win[..] == View()[winsect]
    {
    }

    /** The FAT entries the file system sees. */
    ghost function Fat(): (t: seq<nat>)
      requires Valid()
      ensures |t| == g.nFatent
      reads this`winsect, this`wflag, this`mirrorLost, win, disk
    {
      Table(g, View())
    }

    /** The window holds no sector, one of the first FAT, or the one it held before. */
    twostate predicate WindowMoved()
      reads this`winsect, this`wflag
    {
      && (winsect == NO_SECTOR || g.InFat1(winsect) || winsect == old(winsect))
      && (wflag ==> g.InFat1(winsect) || (winsect == old(winsect) && old(wflag)))
    }

    /** The object as find_volume leaves it: an empty window and unknown or FSInfo-supplied allocation hints. */
    constructor (d: Disk, geo: Geometry, free: dword, last: dword, fsi: byte)
      requires geo.Valid() && geo.End() <= |d.store| <= NO_SECTOR
      ensures Valid() && fresh(win)
      ensures disk == d && g == geo && winsect == NO_SECTOR && !wflag
      ensures freeClst == free && lastClst == last && fsiFlag == fsi
      ensures View() == d.store
      ensures mirrorLost ==> !MirroredExcept(g, disk.store, NO_SECTOR)
    {
      disk, g, win := d, geo, new byte[SS];
      winsect, wflag := NO_SECTOR, false;
      freeClst, lastClst, fsiFlag := free, last, fsi;
      new;
      mirrorLost := !MirroredExcept(g, disk.store, NO_SECTOR);
    }

    /** sync_window. */
    method SyncWindow() returns (res: FResult, ghost copied: bool)
      requires Valid()
      modifies this`wflag, this`mirrorLost, disk
      ensures Valid()
      ensures SameOutsideFat2(g, old(View()), View())
      ensures |disk.store| == |old(disk.store)|
      ensures res == Ok || res == DiskErr
      ensures disk.reliable ==> res == Ok && (mirrorLost ==> old(mirrorLost))
      ensures wflag == (old(wflag) && res != Ok)
      ensures mirrorLost == (old(mirrorLost) || !copied)
      ensures !copied ==> res == Ok && old(wflag) && g.nFats == 2 && g.InFat1(winsect)
    {
      hide PowerOfTwo, FatBytes, EntryLimit, EntryRange, MirroredExcept;
      res, copied := Ok, true;
      if wflag {
        ghost var was := View();
        ghost var before := disk.store;
        var ok := disk.WriteSector(winsect, win[..]);
        if !mirrorLost { MirrorAfterWrite(g, before, disk.store, winsect); }
        if ok {
          assert disk.store == was;
          copied := CopyToSecondFat();
          wflag := false;
        } else {
          assert disk.store[winsect := win[..]] == was;
          res := DiskErr;
        }
      }
    }

    /** The second half of sync_window: reflect a sector of the first FAT to the second, ignoring failure. */
    method CopyToSecondFat() returns (ok: bool)
      requires Valid() && wflag && disk.store[winsect] == win[..]
      modifies this`mirrorLost, disk
      ensures |disk.store| == |old(disk.store)|
      ensures SameOutsideFat2(g, old(disk.store), disk.store)
      ensures mirrorLost == (old(mirrorLost) || !ok)
      ensures mirrorLost || MirroredExcept(g, disk.store, NO_SECTOR)
      ensures g.nFats == 2 && g.InFat1(winsect) && ok ==>
                winsect + g.fsize < |disk.store| && disk.store[winsect + g.fsize] == disk.store[winsect]
      ensures !ok ==> g.nFats == 2 && g.InFat1(winsect)
      ensures disk.reliable ==> ok
    {
      hide PowerOfTwo, FatBytes, EntryLimit, EntryRange, MirroredExcept, Sub32, SameExcept, Geometry.InFat2,
        Geometry.End;
      FatTest(g, winsect);
      ghost var before := disk.store;
      ok := true;
      if Sub32(winsect, g.fatbase) < g.fsize && g.nFats == 2 {
        ok := disk.WriteSector(winsect + g.fsize, win[..]);
        CopyFrame(g, before, disk.store, winsect + g.fsize);
        if ok && !mirrorLost { MirrorAfterCopy(g, before, disk.store, winsect); }
      } else if !mirrorLost {
        SameItself(before, winsect);
        MirrorAfterWrite(g, before, disk.store, winsect);
      }
      if !ok {
        mirrorLost := true;
      }
    }

    /** move_window. */
    method MoveWindow(sector: dword) returns (res: FResult, ghost copied: bool)
      requires Valid() && sector != NO_SECTOR && !g.InFat2(sector)
      modifies this`winsect, this`wflag, this`mirrorLost, win, disk
      ensures Valid()
      ensures SameOutsideFat2(g, old(View()), View())
      ensures |disk.store| == |old(disk.store)|
      ensures res == Ok || res == DiskErr
      ensures res == Ok ==> winsect == sector < |disk.store| && win[..] == View()[sector]
      ensures disk.reliable && sector < |disk.store| ==> res == Ok && (mirrorLost ==> old(mirrorLost))
      ensures winsect == NO_SECTOR || winsect == sector || winsect == old(winsect)
      ensures wflag ==> winsect == old(winsect) && old(wflag)
      ensures mirrorLost == (old(mirrorLost) || !copied)
      ensures !copied ==> old(wflag) && sector != old(winsect) && g.nFats == 2 && g.InFat1(old(winsect))
    {
      hide PowerOfTwo, FatBytes, EntryLimit, EntryRange, MirroredExcept;
      res, copied := Ok, true;
      if sector != winsect {
        res, copied := SyncWindow();
        if res == Ok {
          res := FillWindow(sector);
        }
      }
    }

    /** The second half of move_window: fill a clean window with new data or invalidate it. */
    method FillWindow(sector: dword) returns (res: FResult)
      requires Valid() && !wflag && sector != NO_SECTOR && !g.InFat2(sector)
      modifies this`winsect, win
      ensures Valid()
      ensures res == Ok || res == DiskErr
      ensures winsect == if res == Ok then sector else NO_SECTOR
      ensures res == Ok ==> sector < |disk.store| && win[..] == disk.store[sector]
      ensures disk.reliable && sector < |disk.store| ==> res == Ok
    {
      hide PowerOfTwo, FatBytes, EntryLimit, EntryRange, MirroredExcept;
      var ok, data := disk.ReadSector(sector);
      if ok {
        LoadWindow(data);
        winsect, res := sector, Ok;
      } else {
        winsect, res := NO_SECTOR, DiskErr;
      }
    }

    /** disk_read into win[]. */
    method LoadWindow(data: Sector)
      requires win.Length == SS
      modifies win
      ensures win[..] == data
    {
      for i := 0 to SS
        invariant forall k :: 0 <= k < i ==> win[k] == data[k]
      {
        win[i] := data[i];
      }
    }

    /** Store one byte of the first FAT through the window. */
    method Poke(k: nat, b: byte)
      requires Valid() && k < SS * g.fsize && winsect == g.fatbase + k / SS
      modifies this`wflag, win
      ensures Valid() && wflag
      ensures FatData(g, View()) == old(FatData(g, View()))[k := b]
      ensures SameOutsideFat(g, old(View()), View())
    {
      hide PowerOfTwo, FatBytes, EntryLimit, EntryRange, MirroredExcept;
      ghost var was := View();
      assert win[..] == was[winsect];
      if !mirrorLost && !wflag { MirrorWeaken(g, disk.store, winsect); }
      win[k % SS] := b;
      wflag := true;
      assert View() == was[winsect := was[winsect][k % SS := b]];
      FatDataUpdate(g, was, k, b);
    }

    /** The contract shared by everything that only reads the FAT. */
    twostate predicate FatKept()
      requires old(Valid()) && Valid()
      reads this`winsect, this`wflag, this`mirrorLost, win, disk
    {
      && SameOutsideFat2(g, old(View()), View())
      && FatData(g, View()) == old(FatData(g, View()))
      && Fat() == old(Fat())
      && |disk.store| == |old(disk.store)|
      && WindowMoved()
      && (disk.reliable && mirrorLost ==> old(mirrorLost))
    }

    /** move_window to a sector of the first FAT. */
    method SeekFatSector(sector: dword) returns (res: FResult)
      requires Valid() && g.InFat1(sector)
      modifies this`winsect, this`wflag, this`mirrorLost, win, disk
      ensures Valid() && FatKept()
      ensures res == Ok || res == DiskErr
      ensures disk.reliable ==> res == Ok
      ensures res == Ok ==> winsect == sector && win[..] == View()[winsect]
    {
      hide PowerOfTwo, FatBytes, EntryLimit, EntryRange, MirroredExcept, Table, FatData;
      ghost var was := View();
      ghost var copied;
      res, copied := MoveWindow(sector);
      TableFrame(g, was, View());
    }

    /** move_window to the sector of the first FAT that holds byte k. */
    method SeekFat(k: nat) returns (res: FResult)
      requires Valid() && k < SS * g.fsize
      modifies this`winsect, this`wflag, this`mirrorLost, win, disk
      ensures Valid() && FatKept()
      ensures res == Ok || res == DiskErr
      ensures disk.reliable ==> res == Ok
      ensures res == Ok ==> winsect == g.fatbase + k / SS && g.InFat1(winsect)
      ensures res == Ok ==> win[k % SS] == FatData(g, View())[k] && win[..] == View()[winsect]
    {
      hide PowerOfTwo, FatBytes, EntryLimit, EntryRange, MirroredExcept, Table, FatData, Fatfs.View;
      res := SeekFatSector(g.fatbase + k / SS);
    }

    /** get_fat. */
    method GetFat(clst: dword) returns (val: dword)
      requires Valid()
      modifies this`winsect, this`wflag, this`mirrorLost, win, disk
      ensures Valid() && FatKept()
      ensures !g.IsCluster(clst) ==> val == INTERNAL_ERROR
      ensures g.IsCluster(clst) ==> val == DISK_ERROR || val == Fat()[clst]
      ensures g.IsCluster(clst) && disk.reliable ==> val == Fat()[clst]
      ensures disk.reliable ==> val != DISK_ERROR
    {
      hide PowerOfTwo, FatBytes, EntryLimit, MirroredExcept, Table, FatData, Fatfs.View;
      if clst < 2 || clst >= g.nFatent {
        return INTERNAL_ERROR;
      }
      match g.fsType
      case Fat12 => val := GetFat12(clst);
      case Fat16 => val := GetFat16(clst);
      case Fat32 => val := GetFat32(clst);
    }

    /** get_fat on FAT12, where an entry may straddle two sectors. */
    method GetFat12(clst: dword) returns (val: dword)
      requires Valid() && g.fsType == Fat12 && g.IsCluster(clst)
      modifies this`winsect, this`wflag, this`mirrorLost, win, disk
      ensures Valid() && FatKept()
      ensures val == DISK_ERROR || val == Fat()[clst]
      ensures disk.reliable ==> val == Fat()[clst]
    {
      hide PowerOfTwo, FatBytes, EntryLimit, EntryRange, MirroredExcept, Table, FatData, Fatfs.View, Offset, Decode12;
      TableAt(g, View(), clst);
      val := DISK_ERROR;
      var bc := Offset(Fat12, clst);
      var res := SeekFat(bc);
      if res == Ok {
        var wc := win[bc % SS];
        res := SeekFat(bc + 1);
        if res == Ok {
          val := Decode12(clst, wc as int + 0x100 * win[(bc + 1) % SS] as int);
          TableAt(g, View(), clst);
        }
      }
    }

    /** get_fat on FAT16. */
    method GetFat16(clst: dword) returns (val: dword)
      requires Valid() && g.fsType == Fat16 && g.IsCluster(clst)
      modifies this`winsect, this`wflag, this`mirrorLost, win, disk
      ensures Valid() && FatKept()
      ensures val == DISK_ERROR || val == Fat()[clst]
      ensures disk.reliable ==> val == Fat()[clst]
    {
      hide PowerOfTwo, FatBytes, EntryLimit, EntryRange, MirroredExcept, Table, FatData, Fatfs.View, LdWord, LdDword,
        Geometry.End, Geometry.InFat1;
      EntryInSector16(g, View(), clst);
      val := DISK_ERROR;
      var res := SeekFat(2 * clst);
      if res == Ok {
        val := LdWord(win[..], clst * 2 % SS);
        EntryInSector16(g, View(), clst);
      }
    }

    /** get_fat on FAT32. */
    method GetFat32(clst: dword) returns (val: dword)
      requires Valid() && g.fsType == Fat32 && g.IsCluster(clst)
      modifies this`winsect, this`wflag, this`mirrorLost, win, disk
      ensures Valid() && FatKept()
      ensures val == DISK_ERROR || val == Fat()[clst]
      ensures disk.reliable ==> val == Fat()[clst]
    {
      hide PowerOfTwo, FatBytes, EntryLimit, EntryRange, MirroredExcept, Table, FatData, Fatfs.View, LdWord, LdDword;
      EntryInSector32(g, View(), clst);
      val := DISK_ERROR;
      var res := SeekFat(4 * clst);
      if res == Ok {
        val := LdDword(win[..], clst * 4 % SS) % 0x1000_0000;
        EntryInSector32(g, View(), clst);
      }
    }

    /** The first n bytes of an entry have been stored; nothing outside the FAT copies has changed. */
    twostate predicate BytesStored(clst: dword, val: dword, n: nat)
      requires old(Valid()) && Valid() && n <= Span(g.fsType) && Offset(g.fsType, clst) + Span(g.fsType) <= SS * g.fsize
      reads this`winsect, this`wflag, this`mirrorLost, win, disk
    {
      && SameOutsideFat(g, old(View()), View())
      && FatData(g, View()) == Stored(g.fsType, old(FatData(g, View())), clst, val, n)
      && |disk.store| == |old(disk.store)|
      && WindowMoved()
      && (disk.reliable && mirrorLost ==> old(mirrorLost))
    }

    /** Store the next byte of an entry into the sector in the window. */
    method PokeNext(clst: dword, val: dword, k: nat, ghost fat: seq<byte>)
      requires Valid() && k < Span(g.fsType) && Offset(g.fsType, clst) + Span(g.fsType) <= SS * g.fsize == |fat|
      requires winsect == g.fatbase + (Offset(g.fsType, clst) + k) / SS && g.InFat1(winsect)
      requires FatData(g, View()) == Stored(g.fsType, fat, clst, val, k)
      modifies this`wflag, win
      ensures Valid() && wflag
      ensures FatData(g, View()) == Stored(g.fsType, fat, clst, val, k + 1)
      ensures SameOutsideFat(g, old(View()), View())
    {
      hide PowerOfTwo, FatBytes, EntryLimit, EntryRange, MirroredExcept, Table, FatData, Patch, Offset;
      var o := Offset(g.fsType, clst) + k;
      WindowCurrent();
      assert win[o % SS] == View()[winsect][o % SS] == FatData(g, View())[o] == fat[o];
      Poke(o, Patch(g.fsType, clst, val, k, win[o % SS]));
    }

    /** Bring in the sector of the next byte of an entry and store the byte. */
    method StoreNext(clst: dword, val: dword, k: nat, ghost fat: seq<byte>) returns (res: FResult)
      requires Valid() && k < Span(g.fsType) && Offset(g.fsType, clst) + Span(g.fsType) <= SS * g.fsize == |fat|
      requires FatData(g, View()) == Stored(g.fsType, fat, clst, val, k)
      modifies this`winsect, this`wflag, this`mirrorLost, win, disk
      ensures Valid() && SameOutsideFat(g, old(View()), View()) && WindowMoved()
      ensures |disk.store| == |old(disk.store)|
      ensures disk.reliable && mirrorLost ==> old(mirrorLost)
      ensures FatData(g, View()) == Stored(g.fsType, fat, clst, val, if res == Ok then k + 1 else k)
      ensures res == Ok || res == DiskErr
      ensures disk.reliable ==> res == Ok
    {
      hide PowerOfTwo, FatBytes, EntryLimit, EntryRange, MirroredExcept, Table, FatData, Patch, Fatfs.View, Stored,
        Offset;
      res := SeekFat(Offset(g.fsType, clst) + k);
      if res == Ok {
        PokeNext(clst, val, k, fat);
      }
    }

    /** put_fat on FAT12: the second byte may lie in the next sector. */
    method PutFat12(clst: dword, val: dword) returns (res: FResult, ghost n: nat)
      requires Valid() && g.fsType == Fat12 && g.IsCluster(clst)
      modifies this`winsect, this`wflag, this`mirrorLost, win, disk
      ensures Offset(g.fsType, clst) + Span(g.fsType) <= SS * g.fsize
      ensures Valid() && n <= 2 && BytesStored(clst, val, n)
      ensures res == Ok || res == DiskErr
      ensures res == Ok ==> n == 2
      ensures disk.reliable ==> res == Ok
    {
      hide PowerOfTwo, FatBytes, EntryLimit, EntryRange, MirroredExcept, Table, FatData, Patch, Fatfs.View, Stored,
        Offset;
      TableAt(g, View(), clst);
      ghost var fat := FatData(g, View());
      StoredNothing(g.fsType, fat, clst, val);
      n := 0;
      res := StoreNext(clst, val, 0, fat);
      if res == Ok {
        n := 1;
        res := StoreNext(clst, val, 1, fat);
        if res == Ok { n := 2; }
      }
    }

    /** put_fat on FAT16 and FAT32: the entry lies in one sector. */
    method PutFatWhole(clst: dword, val: dword) returns (res: FResult, ghost n: nat)
      requires Valid() && g.fsType != Fat12 && g.IsCluster(clst)
      modifies this`winsect, this`wflag, this`mirrorLost, win, disk
      ensures Offset(g.fsType, clst) + Span(g.fsType) <= SS * g.fsize
      ensures Valid() && n <= Span(g.fsType) && BytesStored(clst, val, n)
      ensures res == Ok || res == DiskErr
      ensures res == Ok ==> n == Span(g.fsType)
      ensures disk.reliable ==> res == Ok
    {
      hide PowerOfTwo, FatBytes, EntryLimit, EntryRange, MirroredExcept, Table, FatData, Patch, Fatfs.View, Stored,
        Offset;
      TableAt(g, View(), clst);
      ghost var fat := FatData(g, View());
      StoredNothing(g.fsType, fat, clst, val);
      n := 0;
      var o := Offset(g.fsType, clst);
      res := SeekFat(o);
      if res == Ok {
        for k := 0 to Span(g.fsType)
          invariant Valid() && n == k && BytesStored(clst, val, k)
          invariant winsect == g.fatbase + o / SS && g.InFat1(winsect)
          invariant fat == old(FatData(g, View()))
        {
          EntryInOneSector(g.fsType, clst, k);
          PokeNext(clst, val, k, fat);
          n := n + 1;
        }
      }
    }

    /** put_fat. */
    method PutFat(clst: dword, val: dword) returns (res: FResult)
      requires Valid()
      modifies this`winsect, this`wflag, this`mirrorLost, win, disk
      ensures Valid() && SameOutsideFat(g, old(View()), View())
      ensures |disk.store| == |old(disk.store)| && WindowMoved()
      ensures disk.reliable && mirrorLost ==> old(mirrorLost)
      ensures g.IsCluster(clst) <==> res != IntErr
      ensures res == IntErr ==> View() == old(View())
      ensures res == Ok || res == DiskErr || res == IntErr
      ensures res == Ok ==> Fat() == old(Fat())[clst := val % EntryRange(g.fsType)]
      ensures res == DiskErr ==> forall d :: 0 <= d < g.nFatent && d != clst ==> Fat()[d] == old(Fat())[d]
      ensures ReservedKept(g.fsType, old(FatData(g, View())), FatData(g, View()))
      ensures disk.reliable ==> res != DiskErr
    {
      hide PowerOfTwo, FatBytes, EntryLimit, EntryRange, MirroredExcept, Table, FatData, Fatfs.View, Offset, Stored,
        Reserved;
      if 2 <= clst < g.nFatent {
        ghost var was := View();
        ghost var n;
        if g.fsType == Fat12 {
          res, n := PutFat12(clst, val);
        } else {
          res, n := PutFatWhole(clst, val);
        }
        StoredKeepsReservedBits(g.fsType, FatData(g, was), clst, val, n);
        if res == Ok {
          TableUpdate(g, was, View(), clst, val);
        } else {
          TablePartialUpdate(g, was, View(), clst, val, n);
        }
      } else {
        res := IntErr;
      }
    }

    /** What every successful or failed change of the FAT leaves alone. */
    twostate predicate FatChanged()
      requires old(Valid()) && Valid()
      reads this`winsect, this`wflag, this`mirrorLost, win, disk
    {
      && SameOutsideFat(g, old(View()), View())
      && |disk.store| == |old(disk.store)|
      && WindowMoved()
      && (disk.reliable && mirrorLost ==> old(mirrorLost))
    }

    /** free_clst is unknown or exact. */
    ghost predicate Counted()
      requires Valid()
      reads this`freeClst, this`winsect, this`wflag, this`mirrorLost, win, disk
    {
      CountAccurate(Fat(), freeClst)
    }

    /** The free-cluster search of create_chain, started after scl and wrapping around to it. */
    method FindFree(scl: dword) returns (ncl: dword)
      requires Valid() && 1 <= scl < g.nFatent
      modifies this`winsect, this`wflag, this`mirrorLost, win, disk
      ensures Valid() && FatKept()
      ensures ncl == 0 ==> forall c :: 2 <= c < g.nFatent ==> Fat()[c] != 0
      ensures ncl == INTERNAL_ERROR ==> exists c :: 2 <= c < g.nFatent && Fat()[c] == 1
      ensures ncl >= 2 && ncl != DISK_ERROR ==> g.IsCluster(ncl) && Fat()[ncl] == 0
      ensures disk.reliable ==> ncl != DISK_ERROR
    {
      hide PowerOfTwo, FatBytes, EntryRange, MirroredExcept, Table, FatData, Fatfs.View;
      ncl := scl;
      ghost var t := Fat();
      ghost var wrapped := false;
      while true
        invariant Valid() && FatKept()
        invariant if wrapped then 2 <= ncl < scl else scl <= ncl < g.nFatent
        invariant t == Fat()
        invariant forall c :: scl < c < g.nFatent && (wrapped || c <= ncl) ==> t[c] != 0
        invariant wrapped ==> forall c :: 2 <= c <= ncl ==> t[c] != 0
        decreases !wrapped, g.nFatent - ncl
      {
        ncl := ncl + 1;
        if ncl >= g.nFatent {
          ncl := 2;
          if ncl > scl { return 0; }
          wrapped := true;
        }
        var cs := GetFat(ncl);
        assert cs == DISK_ERROR || t[ncl] == cs;
        if cs == 0 { return; }
        if cs == INTERNAL_ERROR || cs == DISK_ERROR { return cs; }
        if ncl == scl { return 0; }
      }
    }

    /** create_chain: pick the cluster to take, contiguous with the chain if possible. */
    method PickCluster(clst: dword, start: dword) returns (ncl: dword)
      requires Valid() && 1 <= start < g.nFatent
      modifies this`winsect, this`wflag, this`mirrorLost, win, disk
      ensures Valid() && FatKept()
      ensures ncl == 0 ==> forall c :: 2 <= c < g.nFatent ==> Fat()[c] != 0
      ensures ncl == INTERNAL_ERROR ==> exists c :: 2 <= c < g.nFatent && Fat()[c] == 1
      ensures ncl >= 2 && ncl != DISK_ERROR ==> g.IsCluster(ncl) && Fat()[ncl] == 0
      ensures disk.reliable ==> ncl != DISK_ERROR
    {
      hide PowerOfTwo, FatBytes, EntryRange, MirroredExcept, Table, FatData, Fatfs.View;
      var scl := start;
      ncl := 0;
      if scl == clst {
        ncl := scl + 1;
        if ncl >= g.nFatent { ncl := 2; }
        ghost var t := Fat();
        var cs := GetFat(ncl);
        assert cs == DISK_ERROR || t[ncl] == cs;
        if cs == INTERNAL_ERROR || cs == DISK_ERROR { return cs; }
        if cs != 0 {
          cs := lastClst;
          if 2 <= cs < g.nFatent { scl := cs; }
          ncl := 0;
        }
      }
      if ncl == 0 {
        ncl := FindFree(scl);
      }
    }

    /** create_chain: mark the new cluster, link it, and update the allocation information. */
    method LinkCluster(clst: dword, ncl: dword) returns (r: dword)
      requires Valid() && g.IsCluster(ncl) && Fat()[ncl] == 0 && freeClst != 0
      requires clst == 0 || (g.IsCluster(clst) && Fat()[clst] >= g.nFatent)
      modifies this, win, disk
      ensures Valid() && FatChanged()
      ensures r == ncl || r == DISK_ERROR
      ensures forall d :: 0 <= d < g.nFatent && d != clst && d != ncl ==> Fat()[d] == old(Fat())[d]
      ensures disk.reliable ==> r == ncl
      ensures r == ncl ==> Fat() == Linked(old(Fat()), clst, ncl, g.Eoc())
      ensures r == ncl && old(Counted()) ==> Counted()
      ensures r == ncl ==> lastClst == ncl
    {
      hide PowerOfTwo, FatBytes, EntryLimit, EntryRange, Geometry.Eoc, MirroredExcept, Table, FatData, Fatfs.View,
        CountAccurate, ReservedKept, Fatfs.Valid, Geometry.Valid;
      DiskBounds();
      EntryValues(g);
      ghost var t := Fat();
      ghost var free := freeClst;
      var res := PutFat(ncl, 0xFFFF_FFFF);
      if res == Ok && clst != 0 {
        res := PutFat(clst, ncl);
      }
      if res == Ok {
        lastClst := ncl;
        if freeClst <= g.nFatent - 2 { freeClst := freeClst - 1; }
        fsiFlag := fsiFlag - fsiFlag % 2 + 1;
        r := ncl;
        if CountAccurate(t, free) { CountAfterLink(t, free, clst, ncl, g.Eoc()); }
      } else {
        r := DISK_ERROR;
      }
    }

    /** create_chain. */
    method CreateChain(clst: dword) returns (ncl: dword)
      requires Valid()
      modifies this, win, disk
      ensures Valid() && FatChanged()
      ensures ncl != DISK_ERROR && old(Counted()) ==> Counted()
      ensures ncl == 0 ==> Fat() == old(Fat()) && freeClst == old(freeClst) && lastClst == old(lastClst)
      ensures ncl == 0 ==> old(freeClst) == 0 || forall c :: 2 <= c < g.nFatent ==> old(Fat())[c] != 0
      ensures ncl == 0 && old(Counted()) ==> forall c :: 2 <= c < g.nFatent ==> old(Fat())[c] != 0
      ensures ncl == 0 && clst != 0 ==> g.IsCluster(clst) && old(Fat())[clst] >= g.nFatent
      ensures ncl == INTERNAL_ERROR ==>
                && Fat() == old(Fat())
                && ((clst != 0 && (!g.IsCluster(clst) || old(Fat())[clst] < 2))
                    || exists c :: 2 <= c < g.nFatent && old(Fat())[c] == 1)
      ensures ncl < 2 ==> SameOutsideFat2(g, old(View()), View())
      ensures ncl >= 2 && ncl != DISK_ERROR ==> Created(old(Fat()), Fat(), clst, ncl, g.Eoc())
      ensures ncl == DISK_ERROR ==> forall d :: 0 <= d < g.nFatent && d != clst && old(Fat())[d] != 0 ==>
                Fat()[d] == old(Fat())[d]
      ensures disk.reliable ==> ncl != DISK_ERROR
    {
      hide PowerOfTwo, FatBytes, EntryLimit, EntryRange, MirroredExcept, Table, FatData, Fatfs.View;
      var scl;
      ghost var t := Fat();
      if clst == 0 {
        scl := lastClst;
        if scl == 0 || scl >= g.nFatent { scl := 1; }
      } else {
        var cs := GetFat(clst);
        if cs < 2 { return 1; }
        if cs == DISK_ERROR { return cs; }
        if cs < g.nFatent { return cs; }
        scl := clst;
      }
      if freeClst == 0 {
        ZerosBelowExtremes(t, |t|);
        return 0;
      }
      ncl := PickCluster(clst, scl);
      if ncl < 2 || ncl == DISK_ERROR { return; }
      ncl := LinkCluster(clst, ncl);
    }

    /** One round of remove_chain: free a cluster in use and report the cluster that followed it. */
    method FreeCluster(clst: dword) returns (res: FResult, nxt: dword)
      requires Valid() && g.IsCluster(clst)
      modifies this, win, disk
      ensures Valid() && FatChanged() && lastClst == old(lastClst)
      ensures res == Ok || res == DiskErr || res == IntErr
      ensures res == Ok && nxt == 0 ==> Fat() == old(Fat()) && old(Fat())[clst] == 0 && freeClst == old(freeClst)
      ensures res == Ok && nxt != 0 ==> nxt == old(Fat())[clst] >= 2 && Fat() == old(Fat())[clst := 0]
      ensures res == Ok && old(Counted()) ==> Counted()
      ensures res == IntErr ==> Fat() == old(Fat()) && old(Fat())[clst] == 1 && freeClst == old(freeClst)
      ensures res == DiskErr ==> forall d :: 0 <= d < g.nFatent && d != clst ==> Fat()[d] == old(Fat())[d]
      ensures disk.reliable ==> res != DiskErr
    {
      hide PowerOfTwo, FatBytes, EntryRange, MirroredExcept, Table, FatData, Fatfs.View;
      ghost var t := Fat();
      res := Ok;
      nxt := GetFat(clst);
      if nxt == 0 { return; }
      if nxt == INTERNAL_ERROR { return IntErr, nxt; }
      if nxt == DISK_ERROR { return DiskErr, nxt; }
      ghost var free := freeClst;
      res := PutFat(clst, 0);
      if res == Ok {
        if freeClst < g.nFatent - 2 {
          freeClst := freeClst + 1;
          fsiFlag := fsiFlag - fsiFlag % 2 + 1;
        }
        EntryValues(g);
        assert Fat() == t[clst := 0];
        if CountAccurate(t, free) { CountAfterFree(t, free, clst); }
      }
    }

    /** The loop of remove_chain: free clusters from start on while the chain goes on. It ends on any FAT
        contents, because every round turns an entry in use into a free one. */
    method FreeFrom(start: dword) returns (res: FResult, ghost path: seq<nat>)
      requires Valid() && g.IsCluster(start)
      modifies this, win, disk
      ensures Valid() && FatChanged() && lastClst == old(lastClst)
      ensures IsPath(old(Fat()), start, path)
      ensures res == Ok || res == DiskErr || res == IntErr
      ensures res != DiskErr ==> Fat() == Freed(old(Fat()), path)
      ensures res != DiskErr && old(Counted()) ==> Counted()
      ensures res == Ok ==> Exhausted(old(Fat()), start, path)
      ensures res == DiskErr ==> FreedBut(old(Fat()), Fat(), path, {Next(old(Fat()), start, path)})
      ensures res == IntErr ==> var n := Next(old(Fat()), start, path); 2 <= n < g.nFatent && old(Fat())[n] == 1
      ensures disk.reliable ==> res != DiskErr
    {
      hide PowerOfTwo, FatBytes, EntryLimit, EntryRange, MirroredExcept, Table, FatData, Fatfs.View, IsPath,
        CountAccurate, ZerosBelow;
      ghost var t := Fat();
      path := [];
      PathStart(t, start);
      var clst: dword := start;
      while clst < g.nFatent
        invariant Valid() && FatChanged() && lastClst == old(lastClst)
        invariant IsPath(t, start, path) && clst == Next(t, start, path) && 2 <= clst
        invariant Fat() == Freed(t, path)
        invariant old(Counted()) ==> Counted()
        decreases g.nFatent - Zeros(Fat())
      {
        ghost var now := Fat();
        var nxt;
        res, nxt := FreeCluster(clst);
        if res != Ok { return; }
        if nxt == 0 { return; }
        FreedOneMore(t, start, path);
        CountAfterFree(now, g.nFatent, clst);
        path := path + [clst];
        clst := nxt;
      }
      res := Ok;
    }

    /** remove_chain. The ghost result is the clusters it freed. */
    method RemoveChain(clst: dword, pclst: dword) returns (res: FResult, ghost path: seq<nat>)
      requires Valid()
      modifies this, win, disk
      ensures Valid() && FatChanged() && lastClst == old(lastClst)
      ensures res == Ok || res == DiskErr || res == IntErr
      ensures !g.IsCluster(clst) || (pclst != 0 && !g.IsCluster(pclst)) ==> res == IntErr && Fat() == old(Fat())
      ensures var t := Cut(old(Fat()), pclst, g.Eoc());
              && IsPath(t, clst, path)
              && (res == Ok ==> Fat() == Freed(t, path) && Exhausted(t, clst, path))
      ensures res == DiskErr ==>
                FreedBut(old(Fat()), Fat(), path, {pclst, Next(Cut(old(Fat()), pclst, g.Eoc()), clst, path)})
      ensures res == IntErr && g.IsCluster(clst) && (pclst == 0 || g.IsCluster(pclst)) ==>
                exists c :: 2 <= c < g.nFatent && old(Fat())[c] == 1
      ensures res == Ok && (pclst == 0 || old(Fat())[pclst] != 0) && old(Counted()) ==> Counted()
      ensures disk.reliable ==> res != DiskErr
    {
      hide PowerOfTwo, FatBytes, EntryLimit, EntryRange, Geometry.Eoc, MirroredExcept, Table, FatData, Fatfs.View,
        IsPath, ZerosBelow;
      ghost var t := Fat();
      path := [];
      res := Ok;
      PathStart(Cut(t, pclst, g.Eoc()), clst);
      if clst < 2 || clst >= g.nFatent { return IntErr, path; }
      if pclst != 0 {
        res := PutFat(pclst, 0xFFFF_FFFF);
        if res != Ok { return; }
        EntryValues(g);
        if CountAccurate(t, freeClst) && t[pclst] != 0 { CountAfterRelink(t, freeClst, pclst, g.Eoc()); }
      }
      assert Fat() == Cut(t, pclst, g.Eoc());
      res, path := FreeFrom(clst);
      if res == IntErr {
        ghost var n := Next(Cut(t, pclst, g.Eoc()), clst, path);
        assert t[n] == 1;
      }
    }

    /** f_getfree on FAT12: ask for every entry in turn. */
    method CountFat12() returns (res: FResult, nfree: dword, ghost upto: nat)
      requires Valid()
      modifies this`winsect, this`wflag, this`mirrorLost, win, disk
      ensures Valid() && FatKept()
      ensures upto <= g.nFatent && nfree == ZerosBelow(Fat(), upto)
      ensures res == Ok ==> upto == g.nFatent
      ensures res == IntErr ==> exists c :: 2 <= c < g.nFatent && Fat()[c] == 1
      ensures res == Ok || res == DiskErr || res == IntErr
      ensures disk.reliable ==> res != DiskErr
    {
      hide PowerOfTwo, FatBytes, MirroredExcept, Table, FatData, Fatfs.View;
      ghost var t := Fat();
      nfree := 0;
      res := Ok;
      var clst: dword := 2;
      upto := 2;
      while clst < g.nFatent
        invariant Valid() && FatKept() && t == Fat()
        invariant 2 <= clst == upto <= g.nFatent
        invariant nfree == ZerosBelow(t, clst)
      {
        var stat := GetFat(clst);
        assert stat == DISK_ERROR || t[clst] == stat;
        if stat == DISK_ERROR { return DiskErr, nfree, upto; }
        if stat == INTERNAL_ERROR { return IntErr, nfree, upto; }
        if stat == 0 { nfree := nfree + 1; }
        clst := clst + 1;
        upto := clst;
      }
    }

    /** Whether the packed entry at offset i of the window is zero. */
    method PackedEntryFree(i: nat, ghost c: nat) returns (free: bool)
      requires Valid() && g.fsType != Fat12 && c < g.nFatent && i == Offset(g.fsType, c) % SS
      requires winsect == g.fatbase + Offset(g.fsType, c) / SS && g.InFat1(winsect)
      ensures free <==> Fat()[c] == 0
    {
      hide PowerOfTwo, FatBytes, EntryLimit, EntryRange, MirroredExcept, Table, FatData, LdWord, LdDword, Fatfs.View;
      WindowCurrent();
      if g.fsType == Fat16 {
        EntryInSector16(g, View(), c);
        free := LdWord(win[..], i) == 0;
      } else {
        EntryInSector32(g, View(), c);
        free := LdDword(win[..], i) % 0x1000_0000 == 0;
      }
    }

    /** f_getfree on FAT16 and FAT32: scan the packed entries sector by sector, from entry 0. */
    method CountPacked() returns (res: FResult, nfree: dword, ghost upto: nat)
      requires Valid() && g.fsType != Fat12
      modifies this`winsect, this`wflag, this`mirrorLost, win, disk
      ensures Valid() && FatKept()
      ensures upto <= g.nFatent && nfree == AllZerosBelow(Fat(), upto)
      ensures res == Ok ==> upto == g.nFatent
      ensures res == Ok || res == DiskErr
      ensures disk.reliable ==> res == Ok
    {
      hide PowerOfTwo, FatBytes, EntryRange, MirroredExcept, Table, FatData, Fatfs.View, Offset;
      ghost var t := Fat();
      nfree := 0;
      res := Ok;
      var clst: dword := g.nFatent;
      var sect := g.fatbase;
      var i := 0;
      upto := 0;
      OffsetZero(g.fsType);
      while clst != 0
        invariant Valid() && FatKept() && t == Fat() && res == Ok
        invariant upto + clst == g.nFatent && i == Offset(g.fsType, upto) % SS
        invariant sect == g.fatbase + Offset(g.fsType, upto) / SS + if i == 0 then 0 else 1
        invariant i != 0 ==> winsect == sect - 1 && g.InFat1(winsect)
        invariant nfree == AllZerosBelow(t, upto) <= upto
        decreases clst
      {
        EntrySectorInFat(g, upto);
        if i == 0 {
          res := SeekFatSector(sect);
          sect := sect + 1;
          if res != Ok { return; }
        }
        var free := PackedEntryFree(i, upto);
        if free { nfree := nfree + 1; }
        NextEntryOffset(g.fsType, upto);
        i := (i + if g.fsType == Fat16 then 2 else 4) % SS;
        clst := clst - 1;
        upto := upto + 1;
      }
    }

    /** f_getfree on a mounted volume. After an error the entries below upto were counted, and their count is stored. */
    method GetFree() returns (res: FResult, nclst: dword, ghost upto: nat)
      requires Valid()
      modifies this, win, disk
      ensures Valid() && FatKept()
      ensures disk.reliable && (forall c :: 2 <= c < g.nFatent ==> Fat()[c] != 1) ==> res == Ok
      ensures old(freeClst) <= g.nFatent - 2 ==> res == Ok && nclst == old(freeClst) == freeClst
      ensures old(freeClst) > g.nFatent - 2 ==> freeClst == nclst
      ensures upto <= g.nFatent && (res == Ok ==> upto == g.nFatent)
      ensures old(freeClst) > g.nFatent - 2 ==>
                nclst == if g.fsType == Fat12 then ZerosBelow(Fat(), upto) else AllZerosBelow(Fat(), upto)
      ensures old(freeClst) > g.nFatent - 2 && (g.fsType == Fat12 || (Fat()[0] != 0 && Fat()[1] != 0)) ==>
                (Counted() <==> forall c :: upto <= c < g.nFatent && 2 <= c ==> Fat()[c] != 0)
      ensures res == Ok && old(Counted()) && (g.fsType == Fat12 || (Fat()[0] != 0 && Fat()[1] != 0)) ==>
                nclst == Zeros(Fat()) && Counted()
    {
      hide PowerOfTwo, FatBytes, EntryLimit, EntryRange, MirroredExcept, Table, FatData, Fatfs.View, ZerosBelow,
        AllZerosBelow;
      if freeClst <= g.nFatent - 2 {
        res, nclst, upto := Ok, freeClst, g.nFatent;
      } else {
        if g.fsType == Fat12 {
          res, nclst, upto := CountFat12();
        } else {
          res, nclst, upto := CountPacked();
        }
        ReservedEntriesCounted(Fat(), g.nFatent);
        if g.fsType == Fat12 || (Fat()[0] != 0 && Fat()[1] != 0) {
          BrokenOffCount(Fat(), upto, g.fsType != Fat12);
        }
        freeClst := nclst;
        fsiFlag := fsiFlag - fsiFlag % 2 + 1;
      }
    }

    /** disk_read of data sectors that are not in the window. */
    method ReadData(sector: dword, count: nat) returns (ok: bool, data: seq<Sector>)
      requires Valid() && !(sector <= winsect < sector + count)
      ensures ok ==> sector + count <= |disk.store| && data == View()[sector..sector + count]
      ensures disk.reliable && sector + count <= |disk.store| ==> ok
    {
      hide PowerOfTwo, FatBytes, EntryLimit, Geometry.Valid, MirroredExcept;
      ok, data := disk.Read(sector, count);
      assert ok ==> View()[sector..sector + count] == disk.store[sector..sector + count];
    }

    /** disk_write of data sectors that are not in the window. */
    method WriteData(sector: dword, data: seq<Sector>) returns (ok: bool)
      requires Valid() && !(sector <= winsect < sector + |data|)
      requires g.database <= sector && sector + |data| <= g.End()
      modifies disk
      ensures Valid() && |disk.store| == |old(disk.store)|
      ensures SameOutside(old(View()), View(), sector, sector + |data|)
      ensures ok ==> View()[sector..sector + |data|] == data
      ensures Fat() == old(Fat())
      ensures disk.reliable ==> ok
    {
      hide PowerOfTwo, FatBytes, EntryLimit, MirroredExcept, Table, FatData, Geometry.End;
      ghost var before, was := disk.store, View();
      ok := disk.Write(sector, data);
      DataFrame(g, before, disk.store, sector, sector + |data|);
      DataFrame(g, was, View(), sector, sector + |data|);
      assert ok ==> disk.store[sector..sector + |data|] == data;
    }
  }
}
