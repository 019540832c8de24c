/** The DIR object: a position in a directory table, moved entry by entry through the window. */
module Directory {
  import opened Bytes
  import opened Storage
  import opened Volume
  import opened Arith
  import opened Chains
  import opened FatTable
  import opened FileBytes
  import opened FileSystem
  import opened LongNames
  import opened DirTable
  import opened DirState

  const MAX_MALLOC := 0x8000
  const NO_BLOCK: dword := 0xFFFF_FFFF

  /** The name status byte: out of 8.3 format, long name needed, search short names only, dot name, no name, NT case
      flags. */
  datatype Status = Status(loss: bool, lfn: bool, noLfn: bool, dot: bool, noName: bool, ntCase: byte)

  /** Short names alone are searched. */
  const BY_SHORT_NAME := Status(false, false, true, false, false, 0)

  ghost function ZeroSector(): Sector { seq(SS, i => 0) }

  /** The n sectors from lo on are zero. */
  ghost predicate ZerosFrom(img: seq<Sector>, lo: nat, n: nat)
  {
    lo + n <= |img| && forall k :: lo <= k < lo + n ==> img[k] == ZeroSector()
  }

  lemma MoreZeros(mid: seq<Sector>, now: seq<Sector>, lo: nat, n: nat, unit: nat)
    requires ZerosFrom(mid, lo, n) && lo + n + unit <= |mid|
    requires now == mid[..lo + n] + seq(unit, i => ZeroSector()) + mid[lo + n + unit..]
    ensures ZerosFrom(now, lo, n + unit)
  {
  }

  /** The number of sectors written at once: what memory could be got for, a power of two that divides the cluster
      size. */
  method ClearUnit(csize: nat) returns (szb: nat)
    requires 1 <= csize <= 128 && PowerOfTwo(csize)
    ensures 1 <= szb <= csize && csize % szb == 0
  {
    hide PowerOfTwo;
    szb := csize;
    if csize * SS >= MAX_MALLOC {
      szb := MAX_MALLOC / SS;
      Sixtyfour();
      PowerDivides(64, csize);
    }
    var got: bool := *;
    while szb > 1 && !got
      invariant 1 <= szb <= csize && PowerOfTwo(szb) && csize % szb == 0
      decreases szb
    {
      Halved(szb);
      szb := szb / 2;
      PowerDivides(szb, csize);
      got := *;
    }
  }

  lemma Sixtyfour()
    ensures PowerOfTwo(64)
  {
    assert PowerOfTwo(1) && PowerOfTwo(2) && PowerOfTwo(4) && PowerOfTwo(8) && PowerOfTwo(16) && PowerOfTwo(32);
  }

  lemma Halved(n: nat)
    requires PowerOfTwo(n) && n > 1
    ensures n / 2 >= 1 && PowerOfTwo(n / 2)
  {
  }

  lemma NextUnit(n: nat, unit: nat, size: nat)
    requires unit > 0 && n % unit == 0 && size % unit == 0 && n < size
    ensures n + unit <= size && (n + unit) % unit == 0
  {
    var a, b := n / unit, size / unit;
    DivBound(n, unit, 0);
    DivBound(size, unit, 0);
    MulCancel(a, b, unit);
    MulLess(a, b, unit);
    DivModUnique(n + unit, unit, a + 1, 0);
  }

  /**
    dir_clear: fills a cluster with zeros past the window, which is left over its first sector. Whatever fails, the
    FAT and every sector outside the cluster and the second FAT are kept, and the sectors written before the failure
    are zero. A failure leaves the window in step with the disk if and only if the window was never moved, or the
    first write succeeded, or what the failed one left in the first sector is zero.
   */
  method DirClear(fs: Fatfs, clst: dword) returns (res: FResult, ghost moved: bool, ghost written: nat)
    requires fs.Valid() && fs.g.IsCluster(clst)
    modifies fs`winsect, fs`wflag, fs`mirrorLost, fs.win, fs.disk
    ensures res == Ok || res == DiskErr
    ensures |fs.Image()| == |old(fs.View())| && fs.g.End() <= |fs.Image()| && Table(fs.g, fs.Image()) == old(fs.Fat())
    ensures forall k :: 0 <= k < |fs.Image()| && !fs.g.InFat2(k) && !fs.g.InCluster(k, clst) ==>
                          fs.Image()[k] == old(fs.View()[k])
    ensures written <= fs.g.csize && (res == Ok <==> written == fs.g.csize) && (written > 0 ==> moved)
    ensures forall k :: 0 <= k < |fs.Image()| && fs.g.FirstSector(clst) <= k < fs.g.FirstSector(clst) + written ==>
                          fs.Image()[k] == ZeroSector()
    ensures moved ==> fs.winsect == fs.g.FirstSector(clst) && !fs.wflag && fs.win[..] == ZeroSector()
    ensures !moved ==> fs.wflag == old(fs.wflag) && SameOutsideFat2(fs.g, old(fs.View()), fs.Image())
    ensures fs.Valid() <==>
              !moved || written > 0 || (fs.winsect < |fs.disk.store| && fs.disk.store[fs.winsect] == ZeroSector())
    ensures fs.disk.reliable ==> res == Ok
  {
    hide PowerOfTwo, FatBytes, EntryLimit, EntryRange, MirroredExcept, Table, FatData, Geometry.End,
      Geometry.FirstSector, ZerosFrom;
    ghost var was := fs.View();
    ghost var copied;
    moved, written := false, 0;
    res, copied := fs.SyncWindow();
    TableFrame(fs.g, was, fs.View());
    if res != Ok {
      return;
    }
    ghost var synced := fs.disk.store;
    ClusterSector(fs.g, clst);
    ClusterBounds(fs.g, clst);
    var sect := fs.g.ClstToSect(clst);
    fs.winsect, moved := sect, true;
    ZeroWindow(fs);
    var ok;
    ok, written := ZeroRun(fs.disk, sect, fs.g.csize);
    ClearedFrame(fs.g, synced, fs.disk.store, sect, sect + fs.g.csize, written);
    res := if ok then Ok else DiskErr;
  }

  lemma ClearedFrame(g: Geometry, a: seq<Sector>, b: seq<Sector>, lo: nat, hi: nat, written: nat)
    requires g.Valid() && g.End() <= |a| && g.database <= lo < hi <= g.End() && SameOutside(a, b, lo, hi)
    requires lo + written <= hi && ZerosFrom(b, lo, written)
    ensures Table(g, a) == Table(g, b) && |b| == |a|
    ensures forall hole :: MirroredExcept(g, a, hole) ==> MirroredExcept(g, b, hole)
    ensures forall k :: 0 <= k < |a| && !(lo <= k < hi) ==> b[k] == a[k]
    ensures forall k :: lo <= k < lo + written ==> b[k] == ZeroSector()
    ensures written > 0 ==> b[lo] == ZeroSector()
  {
    hide PowerOfTwo, FatBytes, EntryLimit, MirroredExcept, Table, FatData, Geometry.End;
    DataFrame(g, a, b, lo, hi);
  }

  /** On every volume, for every cluster: a first write of dir_clear that fails may leave anything in the first
      sector. */
  lemma StaleWindow(g: Geometry, store: seq<Sector>, c: nat, unit: nat, left: Sector)
    requires g.Valid() && g.End() <= |store| && g.IsCluster(c) && 1 <= unit <= g.csize
    ensures g.FirstSector(c) < |store|
    ensures MayLeave(store, g.FirstSector(c), seq(unit, i => ZeroSector()), false, store[g.FirstSector(c) := left])
  {
    hide PowerOfTwo, FatBytes, EntryLimit, Geometry.End;
    ClusterBounds(g, c);
  }

  method ZeroWindow(fs: Fatfs)
    requires fs.win.Length == SS
    modifies fs.win
    ensures fs.win[..] == ZeroSector()
  {
    for i := 0 to SS
      invariant forall k :: 0 <= k < i ==> fs.win[k] == 0
    {
      fs.win[i] := 0;
    }
  }

  /** Writes a run of zero sectors, some at a time, until a write fails. */
  method ZeroRun(disk: Disk, sect: nat, size: nat) returns (ok: bool, ghost written: nat)
    requires 1 <= size <= 128 && PowerOfTwo(size) && sect + size <= |disk.store|
    modifies disk
    ensures SameOutside(old(disk.store), disk.store, sect, sect + size)
    ensures written <= size && (ok <==> written == size) && ZerosFrom(disk.store, sect, written)
    ensures disk.reliable ==> ok
  {
    hide PowerOfTwo;
    var szb := ClearUnit(size);
    var zeros := seq(szb, i => seq(SS, j => 0));
    var n := 0;
    ok := true;
    while n < size && ok
      invariant 0 <= n <= size && n % szb == 0 && SameOutside(old(disk.store), disk.store, sect, sect + size)
      invariant ZerosFrom(disk.store, sect, n) && (n == size ==> ok)
      invariant disk.reliable ==> ok
      decreases size - n, ok
    {
      NextUnit(n, szb, size);
      ghost var mid := disk.store;
      ok := disk.Write(sect + n, zeros);
      if ok {
        assert zeros == seq(szb, i => ZeroSector());
        MoreZeros(mid, disk.store, sect, n, szb);
        n := n + szb;
      }
    }
    written := n;
  }

  class Dir {
    const fs: Fatfs
    const sclust: dword
    /** The long-name working buffer. */
    const lfnbuf: array<word>
    var dptr: dword
    var clust: dword
    var sect: dword
    /** Offset of the first entry of the object found, or NO_BLOCK if it has no long name. */
    var blkOfs: dword
    /** The short name looked for, and its status. */
    var fn: seq<byte>
    var status: Status
    ghost var chain: seq<nat>
    ghost var others: set<seq<nat>>

    constructor (f: Fatfs, start: dword, ghost ch: seq<nat>, ghost rest: set<seq<nat>>)
      requires f.Valid()
      requires var fixed := start == 0 && f.g.fsType != Fat32;
               State(f.g, f.Fat(), f.View(), fixed, ch, rest).Ok() && (!fixed ==>
                 ch[0] == if start == 0 then f.g.dirbase else start)
      ensures Valid() && fresh(lfnbuf)
      ensures fs == f && sclust == start && chain == ch && others == rest
    {
      fs, sclust, chain, others := f, start, ch, rest;
      dptr, clust, sect, blkOfs := 0, 0, 0, NO_BLOCK;
      fn, status := seq(11, i => 0x20), Status(false, false, false, false, false, 0);
      lfnbuf := new word[MAX_LFN + 1];
    }

    /** The root directory of a FAT12 or FAT16 volume is not in a chain. */
    predicate Fixed()
    {
      sclust == 0 && fs.g.fsType != Fat32
    }

    ghost function St(): State
      requires fs.Valid()
      reads fs`winsect, fs`wflag, fs`mirrorLost, fs.win, fs.disk, this`chain, this`others
    {
      State(fs.g, fs.Fat(), fs.View(), Fixed(), chain, others)
    }

    ghost predicate Valid()
      reads fs`winsect, fs`wflag, fs`mirrorLost, fs.win, fs.disk, this`chain, this`others
    {
      && fs.Valid() && St().Ok()
      && (!Fixed() ==> chain[0] == if sclust == 0 then fs.g.dirbase else sclust)
      && lfnbuf.Length == MAX_LFN + 1
    }

    /** The position is entry n of the table. */
    ghost predicate At(n: nat)
      requires Valid()
      reads fs`winsect, fs`wflag, fs`mirrorLost, fs.win, fs.disk, this`chain, this`others, this`dptr, this`clust,
        this`sect
    {
      Position(St(), n, dptr, sect, clust)
    }

    /** Whatever happened since s, the disk with the window laid over it has what survives of it. */
    ghost predicate Salvaged(s: State)
      requires s.Ok()
      reads fs`winsect, fs`wflag, fs.win, fs.disk
    {
      s.g == fs.g && s.g.End() <= |fs.Image()| && Survives(s, fs.Image(), Table(s.g, fs.Image()))
    }

    lemma SalvagedNow(s: State)
      requires s.Ok() && Valid() && Extended(s, St())
      ensures Salvaged(s)
    {
      hide PowerOfTwo, FatBytes, EntryLimit, EntryRange, MirroredExcept, Table, FatData, Sectors, Forest, State.Table,
        Survives, State.Secs, IntoUnused, Geometry.End;
      fs.DiskBounds();
    }

    lemma SalvagedEarlier(s: State, t: State)
      requires s.Ok() && Extended(s, t) && Salvaged(t)
      ensures Salvaged(s)
    {
      hide PowerOfTwo, FatBytes, EntryLimit, EntryRange, MirroredExcept, Table, FatData, Sectors, Forest, State.Table,
        Survives, State.Secs, IntoUnused, Spares, Geometry.End;
      SparesSurvives(s, t, fs.Image(), Table(s.g, fs.Image()));
    }

    /** The same with blank entries of the directory overwritten. */
    ghost predicate LiveSalvaged(s: State)
      requires s.Ok()
      reads fs`winsect, fs`wflag, fs.win, fs.disk
    {
      s.g == fs.g && s.g.End() <= |fs.Image()| && KeepsLive(s, fs.Image(), Table(s.g, fs.Image()))
    }

    lemma LiveNow(s: State)
      requires s.Ok() && Valid() && Kept(s, St())
      ensures LiveSalvaged(s)
    {
      hide PowerOfTwo, FatBytes, EntryLimit, EntryRange, MirroredExcept, Table, FatData, Sectors, Forest, State.Table,
        Survives, State.Secs, Geometry.End, Extended, KeepsLive, Kept;
      KeptFields(s, St());
      KeptExtended(s, St());
      SalvagedNow(s);
      SurvivesLive(s, fs.Image(), Table(s.g, fs.Image()));
    }

    lemma LiveAfterAlloc(s: State)
      requires s.Ok() && Salvaged(s)
      ensures LiveSalvaged(s)
    {
      hide PowerOfTwo, FatBytes, EntryLimit, EntryRange, MirroredExcept, Table, FatData, Sectors, Forest, State.Table,
        Survives, State.Secs, Geometry.End, KeepsLive;
      SurvivesLive(s, fs.Image(), Table(s.g, fs.Image()));
    }

    lemma LiveEarlier(s: State, t: State)
      requires s.Ok() && Kept(s, t) && LiveSalvaged(t)
      ensures LiveSalvaged(s)
    {
      hide PowerOfTwo, FatBytes, EntryLimit, EntryRange, MirroredExcept, Table, FatData, Sectors, Forest, State.Table,
        State.Secs, Geometry.End, LiveKept;
      KeptFields(s, t);
    }

    lemma LiveAfterBlock(s: State, u: State, lo: nat, hi: nat)
      requires s.Ok() && Extended(s, u) && Valid() && Rewritten(u, St()) && lo <= hi && BlankRun(u.Table(), hi, hi - lo)
      requires OnlyWithin(u.Table(), St().Table(), lo, hi)
      ensures LiveSalvaged(s)
    {
      hide PowerOfTwo, FatBytes, EntryLimit, EntryRange, MirroredExcept, Table, FatData, Sectors, Forest, State.Table,
        State.Secs, Geometry.End, KeepsLive, OnlyWithin, Free, IntoUnused, Spares;
      fs.DiskBounds();
      BlockSpares(s, u, St(), lo, hi);
    }

    /** The free-cluster count stays exact, as far as it was, where the call has not failed. */
    twostate predicate StillCounted()
      requires old(fs.Valid()) && fs.Valid()
      reads fs, fs.win, fs.disk
    {
      old(fs.Counted()) ==> fs.Counted()
    }

    /** get_fat of a cluster of the directory. */
    method NextLink(clst: dword, ghost k: nat) returns (val: dword)
      requires Valid() && !Fixed() && k < |chain| && clst == chain[k]
      modifies fs`winsect, fs`wflag, fs`mirrorLost, fs.win, fs.disk
      ensures Valid() && Kept(old(St()), St())
      ensures val == DISK_ERROR || (if k + 1 < |chain| then val == chain[k + 1] else val >= fs.g.nFatent)
      ensures fs.disk.reliable ==> val != DISK_ERROR
      ensures k + 1 < |chain| ==> fs.g.IsCluster(chain[k + 1])
    {
      hide PowerOfTwo, FatBytes, EntryLimit, EntryRange, MirroredExcept, Table, FatData, Fatfs.View, Sectors, Forest;
      ghost var s := St();
      ChainInForest(s);
      val := fs.GetFat(clst);
      SameTable(s, St());
    }

    /** The cluster that holds a byte of the table, and the place of the byte in it. */
    method FollowChain(start: dword, ofs: nat) returns (res: FResult, clst: dword, rest: nat, ghost k: nat)
      requires Valid() && !Fixed() && start == chain[0]
      modifies fs`winsect, fs`wflag, fs`mirrorLost, fs.win, fs.disk
      ensures Valid() && Kept(old(St()), St())
      ensures res == Ok || res == IntErr || res == DiskErr
      ensures res == Ok ==> k < |chain| && clst == chain[k] && rest < fs.g.csize * SS
      ensures res == Ok ==> ofs == k * (fs.g.csize * SS) + rest
      ensures fs.disk.reliable ==> (res == Ok <==> ofs < |chain| * (fs.g.csize * SS))
    {
      hide PowerOfTwo, FatBytes, EntryLimit, EntryRange, MirroredExcept, Table, FatData, Fatfs.View, Sectors, Forest,
        State.Table, Kept, Fatfs.Valid;
      ghost var s := St();
      KeptItself(s);
      var csz := fs.g.csize * SS;
      clst, rest, k := start, ofs, 0;
      while rest >= csz
        invariant Valid() && Kept(s, St()) && k < |chain| && clst == chain[k] && ofs == k * csz + rest
        decreases rest
      {
        ghost var t := St();
        clst := NextLink(clst, k);
        KeptMore(s, t, St());
        if clst == DISK_ERROR {
          return DiskErr, clst, rest, k;
        }
        if clst < 2 || clst >= fs.g.nFatent {
          MulLess(0, 1, csz);
          assert k + 1 == |chain| && |chain| * csz == k * csz + csz;
          return IntErr, clst, rest, k;
        }
        rest := rest - csz;
        k := k + 1;
        assert k * csz == (k - 1) * csz + csz;
      }
      MulLess(k, |chain|, csz);
      return Ok, clst, rest, k;
    }

    /** dir_sdi. */
    method DirSdi(ofs: dword) returns (res: FResult)
      requires Valid()
      modifies this`dptr, this`clust, this`sect, fs`winsect, fs`wflag, fs`mirrorLost, fs.win, fs.disk
      ensures Valid() && Kept(old(St()), St())
      ensures res == Ok || res == IntErr || res == DiskErr
      ensures res == Ok ==> ofs % SZDIRE == 0 && At(ofs / SZDIRE)
      ensures fs.disk.reliable ==> (res == Ok <==> ofs % SZDIRE == 0 && ofs / SZDIRE < |St().Table()|)
    {
      hide PowerOfTwo, FatBytes, EntryLimit, EntryRange, MirroredExcept, Table, FatData, Fatfs.View, Sectors, Forest,
        State.Table, Kept, Position, Fatfs.Valid, Geometry.End;
      ghost var s := St();
      KeptItself(s);
      TableLimit(s);
      if ofs >= MAX_DIR || ofs % SZDIRE != 0 {
        return IntErr;
      }
      dptr := ofs;
      var clst := sclust;
      if clst == 0 && fs.g.fsType == Fat32 {
        clst := fs.g.dirbase;
      }
      if clst == 0 {
        if ofs / SZDIRE >= fs.g.nRootdir {
          return IntErr;
        }
        FixedPosition(s, ofs);
        sect := fs.g.dirbase;
        clust := clst;
        if sect == 0 {
          return IntErr;
        }
        sect := sect + ofs / SS;
      } else {
        var rest;
        ghost var k;
        res, clst, rest, k := FollowChain(clst, ofs);
        ChainReaches(s, ofs);
        if res != Ok {
          return;
        }
        ChainPosition(St(), ofs, k, rest);
        ClusterSector(fs.g, clst);
        sect := fs.g.ClstToSect(clst);
        clust := clst;
        if sect == 0 {
          return IntErr;
        }
        sect := sect + rest / SS;
      }
      return Ok;
    }
  
    /** create_chain at the end of the directory. */
    method LinkTable(ghost k: nat) returns (clst: dword)
      requires Valid() && !Fixed() && k + 1 == |chain| && clust == chain[k]
      modifies fs, fs.win, fs.disk
      ensures fs.Valid() && |fs.Fat()| == fs.g.nFatent
      ensures clst < 2 ==> Valid() && Kept(old(St()), St())
      ensures clst == 0 && old(fs.Counted()) ==> forall c :: 2 <= c < fs.g.nFatent ==> old(fs.Fat())[c] != 0
      ensures clst == DISK_ERROR ==> Salvaged(old(St()))
      ensures clst >= 2 && clst != DISK_ERROR ==>
                && SameOutsideFat(fs.g, old(St()).view, St().view)
                && fs.g.IsCluster(clst) && Created(old(St()).fat, St().fat, old(chain)[k], clst, fs.g.Eoc())
      ensures clst != DISK_ERROR ==> StillCounted()
      ensures fs.disk.reliable ==> clst != 1 && clst != DISK_ERROR
    {
      hide PowerOfTwo, FatBytes, EntryLimit, EntryRange, MirroredExcept, Table, FatData, Fatfs.View, Sectors, Forest,
        CountAccurate, Geometry.FirstSector, Geometry.Eoc, Kept, Extended, Survives, State.Table, State.Secs;
      ghost var s := St();
      ChainInForest(s);
      NoOnes(s);
      clst := fs.CreateChain(clust);
      fs.DiskBounds();
      if clst < 2 {
        MovedKept(s, St());
      } else if clst == DISK_ERROR {
        TornSurvives(s, fs.View(), fs.Fat());
      }
    }

    /** The chain of the directory grows by a zeroed cluster. */
    method StretchTable(ghost k: nat) returns (res: FResult, clst: dword)
      requires Valid() && !Fixed() && k + 1 == |chain| && clust == chain[k] && |St().Secs()| < MAX_SECTORS
      modifies this`chain, fs, fs.win, fs.disk
      ensures res == Ok || res == Denied || res == IntErr || res == DiskErr
      ensures Salvaged(old(St()))
      ensures res == Ok ==> fs.g.IsCluster(clst) && chain == old(chain) + [clst] && Valid() && Extended(old(St()), St())
      ensures res == Ok ==> St().Secs() == old(St().Secs()) + Run(fs.g.FirstSector(clst), fs.g.csize)
      ensures res == Denied ==> Valid() && Kept(old(St()), St())
      ensures res == Denied && old(fs.Counted()) ==> forall c :: 2 <= c < fs.g.nFatent ==> old(fs.Fat())[c] != 0
      ensures res == Ok || res == Denied ==> StillCounted()
      ensures fs.disk.reliable ==> res == Ok || res == Denied
    {
      hide PowerOfTwo, FatBytes, EntryLimit, EntryRange, MirroredExcept, Table, FatData, Fatfs.View, Sectors, Forest,
        CountAccurate, Geometry.FirstSector, Geometry.Eoc, Kept, Extended, Survives, Created, State.Table, State.Secs,
        Fatfs.Valid;
      ghost var s := St();
      clst := LinkTable(k);
      fs.DiskBounds();
      if clst < 2 {
        KeptExtended(s, St());
        SalvagedNow(s);
        return if clst == 0 then Denied else IntErr, clst;
      }
      if clst == DISK_ERROR {
        return DiskErr, clst;
      }
      ghost var moved, written;
      ghost var linked := St();
      res, moved, written := DirClear(fs, clst);
      StretchSurvives(s, linked, fs.Image(), clst);
      if res == Ok {
        chain := chain + [clst];
        StretchedExtended(s, St(), clst);
        ExtendedTable(s, St());
      }
    }

    /** The next cluster of the table. */
    method NextTableCluster(stretch: bool, ghost n: nat, ghost k: nat) returns (res: FResult)
      requires Valid() && !Fixed() && k < |chain| && clust == chain[k] && dptr == SZDIRE * n && dptr + SZDIRE < MAX_DIR
      requires k + 1 < |chain| ==>
                 fs.g.IsCluster(chain[k + 1]) && Position(St(), n + 1, dptr + SZDIRE, fs.g.FirstSector(chain[k + 1]),
                   chain[k + 1])
      requires k + 1 == |chain| ==> n + 1 == |St().Table()| && |St().Secs()| < MAX_SECTORS
      modifies this`clust, this`sect, this`chain, fs, fs.win, fs.disk
      ensures res == Ok || res == NoFile ==> Valid() && Extended(old(St()), St())
      ensures res == Ok ==> Position(St(), n + 1, dptr + SZDIRE, sect, clust)
      ensures res == Ok && k + 1 < |old(chain)| ==> Kept(old(St()), St())
      ensures !stretch ==> Valid() && Kept(old(St()), St()) && res != Denied
      ensures !stretch && fs.disk.reliable ==> res == if k + 1 < |old(chain)| then Ok else NoFile
      ensures fs.disk.reliable && k + 1 < |old(chain)| ==> res == Ok
      ensures res == NoFile ==> Kept(old(St()), St()) && k + 1 == |chain| && sect == 0 && !stretch
      ensures Salvaged(old(St()))
      ensures res == Denied ==> Valid() && Kept(old(St()), St()) && n + 1 == |St().Table()|
      ensures res == Denied && old(fs.Counted()) ==> forall c :: 2 <= c < fs.g.nFatent ==> St().fat[c] != 0
      ensures res == Ok || res == NoFile || res == Denied ==> StillCounted()
      ensures fs.disk.reliable ==> res == Ok || res == NoFile || res == Denied
    {
      hide PowerOfTwo, FatBytes, EntryLimit, EntryRange, MirroredExcept, Table, FatData, Fatfs.View, Sectors, Forest,
        State.Table, Kept, Position, Fatfs.Valid, State.Ok, Extended, Geometry.FirstSector, CountAccurate, Salvaged,
        State.Secs;
      ghost var s := St();
      TableLimit(s);
      var clst := NextLink(clust, k);
      ghost var t := St();
      KeptFields(s, t);
      KeptExtended(s, t);
      SalvagedNow(s);
      if clst <= 1 {
        return IntErr;
      }
      if clst == DISK_ERROR {
        return DiskErr;
      }
      if clst >= fs.g.nFatent {
        if !stretch {
          sect := 0;
          return NoFile;
        }
        res, clst := StretchTable(k);
        SalvagedEarlier(s, t);
        if res == Denied {
          KeptMore(s, t, St());
          KeptFields(s, St());
        }
        if res != Ok {
          return;
        }
        NextStretched(t, St(), n, dptr, clst);
        ExtendedMore(s, t, St());
      } else {
        KeptPosition(s, t, n + 1, dptr + SZDIRE, fs.g.FirstSector(clst), clst);
      }
      ClusterSector(fs.g, clst);
      clust := clst;
      sect := fs.g.ClstToSect(clst);
      return Ok;
    }

    /** The next sector of the table, in the fixed root or in the chain. */
    method NextTableSector(stretch: bool, ghost n: nat) returns (res: FResult)
      requires Valid() && At(n) && (dptr + SZDIRE) % SS == 0 && dptr + SZDIRE < MAX_DIR
      modifies this`clust, this`sect, this`chain, fs, fs.win, fs.disk
      ensures res == Ok || res == NoFile ==> Valid() && Extended(old(St()), St())
      ensures res == Ok ==> Position(St(), n + 1, dptr + SZDIRE, sect, clust)
      ensures res == Ok && n + 1 < |old(St().Table())| ==> Kept(old(St()), St())
      ensures !stretch ==> Valid() && Kept(old(St()), St()) && res != Denied
      ensures !stretch && fs.disk.reliable ==> res == if n + 1 < |old(St().Table())| then Ok else NoFile
      ensures fs.disk.reliable && n + 1 < |old(St().Table())| ==> res == Ok
      ensures res == NoFile ==> Kept(old(St()), St()) && n + 1 == |St().Table()| && sect == 0 && (stretch ==> Fixed())
      ensures Salvaged(old(St()))
      ensures res == Denied ==> Valid() && Kept(old(St()), St()) && n + 1 == |St().Table()|
      ensures res == Denied && old(fs.Counted()) ==> forall c :: 2 <= c < fs.g.nFatent ==> St().fat[c] != 0
      ensures res == Ok || res == NoFile || res == Denied ==> StillCounted()
      ensures fs.disk.reliable ==> res == Ok || res == NoFile || res == Denied
    {
      hide PowerOfTwo, FatBytes, EntryLimit, EntryRange, MirroredExcept, Table, FatData, Fatfs.View, Sectors, Forest,
        State.Table, Kept, Position, Fatfs.Valid, State.Ok, Extended, And, Geometry.FirstSector, State.Secs,
        CountAccurate, Salvaged;
      ghost var s := St();
      KeptItself(s);
      KeptExtended(s, s);
      SalvagedNow(s);
      PositionFacts(s, n, dptr, sect, clust);
      NextSector(s, n, dptr, sect, clust);
      ghost var at := sect;
      sect := sect + 1;
      if clust == 0 {
        NextInRoot(s, n, dptr, at, clust);
        if (dptr + SZDIRE) / SZDIRE >= fs.g.nRootdir {
          sect := 0;
          return NoFile;
        }
      } else if And((dptr + SZDIRE) / SS, fs.g.csize - 1) == 0 {
        NextInChain(s, n, dptr, at, clust);
        res := NextTableCluster(stretch, n, n / PER_SECTOR / fs.g.csize);
        if res == NoFile {
          KeptFields(s, St());
        }
        return;
      } else {
        NextInCluster(s, n, dptr, at, clust);
        PositionFacts(s, n + 1, dptr + SZDIRE, at + 1, clust);
      }
      return Ok;
    }

    /** dir_next. At the end the table is stretched by a zeroed cluster if that is asked for. */
    method DirNext(stretch: bool, ghost n: nat) returns (res: FResult)
      requires Valid() && At(n)
      modifies this`dptr, this`clust, this`sect, this`chain, fs, fs.win, fs.disk
      ensures res == Ok || res == NoFile ==> Valid() && Extended(old(St()), St())
      ensures res == Ok ==> At(n + 1)
      ensures res == Ok && n + 1 < |old(St().Table())| ==> Kept(old(St()), St())
      ensures !stretch ==> Valid() && Kept(old(St()), St()) && res != Denied
      ensures !stretch && fs.disk.reliable ==> res == if n + 1 < |old(St().Table())| then Ok else NoFile
      ensures fs.disk.reliable && n + 1 < |old(St().Table())| ==> res == Ok
      ensures res == NoFile ==> Kept(old(St()), St()) && n + 1 == |St().Table()| && sect == 0
      ensures res == NoFile && stretch ==> Fixed() || |St().Table()| == MAX_DIR / SZDIRE
      ensures Salvaged(old(St()))
      ensures res == Denied ==> Valid() && Kept(old(St()), St()) && n + 1 == |St().Table()|
      ensures res == Denied && old(fs.Counted()) ==> forall c :: 2 <= c < fs.g.nFatent ==> St().fat[c] != 0
      ensures res == Ok || res == NoFile || res == Denied ==> StillCounted()
      ensures fs.disk.reliable ==> res == Ok || res == NoFile || res == Denied
    {
      hide PowerOfTwo, FatBytes, EntryLimit, EntryRange, MirroredExcept, Table, FatData, Fatfs.View, Sectors, Forest,
        State.Table, Kept, Position, Fatfs.Valid, State.Ok, Extended, State.Secs, CountAccurate, Salvaged;
      ghost var s := St();
      KeptItself(s);
      KeptExtended(s, s);
      SalvagedNow(s);
      PositionFacts(s, n, dptr, sect, clust);
      var ofs := dptr + SZDIRE;
      if ofs >= MAX_DIR {
        sect := 0;
      }
      if sect == 0 {
        return NoFile;
      }
      if ofs % SS != 0 {
        NextInSector(s, n, dptr, sect, clust);
        PositionFacts(s, n + 1, ofs, sect, clust);
      } else {
        res := NextTableSector(stretch, n);
        if res != Ok {
          return;
        }
      }
      dptr := ofs;
      return Ok;
    }
  
    /** Entry by entry from the start: the walk arrives at the same position as the seek to the offset of the entry. */
    method Walk(n: nat) returns (res: FResult)
      requires Valid()
      modifies this`dptr, this`clust, this`sect, this`chain, fs, fs.win, fs.disk
      ensures Valid() && Kept(old(St()), St())
      ensures res == Ok ==> At(n)
      ensures fs.disk.reliable ==> (res == Ok <==> n < |St().Table()|)
    {
      hide PowerOfTwo, FatBytes, EntryLimit, EntryRange, MirroredExcept, Table, FatData, Fatfs.View, Sectors, Forest,
        State.Table, Kept, Position, Fatfs.Valid, State.Ok, Extended, State.Secs, Salvaged, Fatfs.Counted;
      ghost var s := St();
      res := DirSdi(0);
      TableLimit(s);
      KeptFields(s, St());
      var i := 0;
      while i < n && res == Ok
        invariant 0 <= i <= n && Valid() && Kept(s, St())
        invariant res == Ok ==> At(i)
        invariant fs.disk.reliable ==> (res == Ok <==> i < |s.Table()|)
        decreases n - i, res == Ok
      {
        ghost var t := St();
        KeptFields(s, t);
        res := DirNext(false, i);
        KeptMore(s, t, St());
        i := i + 1;
      }
      KeptFields(s, St());
    }

    /** The walk to an entry and the seek to its offset arrive at the same place, and fail on the same entries. */
    method WalkAndSeek(n: nat) returns (walked: FResult, sought: FResult, byWalk: (dword, dword, dword),
                       bySeek: (dword, dword, dword))
      requires Valid() && SZDIRE * n < DWORD_MOD
      modifies this`dptr, this`clust, this`sect, this`chain, fs, fs.win, fs.disk
      ensures Valid() && Kept(old(St()), St())
      ensures walked == Ok && sought == Ok ==> byWalk == bySeek
      ensures fs.disk.reliable ==> (walked == Ok <==> sought == Ok)
    {
      hide PowerOfTwo, FatBytes, EntryLimit, EntryRange, MirroredExcept, Table, FatData, Fatfs.View, Sectors, Forest,
        State.Table, Kept, Position, Fatfs.Valid, State.Ok, State.Secs;
      ghost var s := St();
      walked := Walk(n);
      byWalk := (dptr, sect, clust);
      ghost var t := St();
      sought := DirSdi(SZDIRE * n);
      bySeek := (dptr, sect, clust);
      KeptMore(s, t, St());
      KeptFields(t, St());
      if walked == Ok && sought == Ok {
        KeptPosition(t, St(), n, byWalk.0, byWalk.1, byWalk.2);
        OnePosition(St(), n, byWalk.0, byWalk.1, byWalk.2, dptr, sect, clust);
      }
    }

    /** move_window to the sector of the current entry. */
    method Load(ghost n: nat) returns (res: FResult, e: Entry)
      requires Valid() && At(n)
      modifies fs`winsect, fs`wflag, fs`mirrorLost, fs.win, fs.disk
      ensures Valid() && Kept(old(St()), St()) && At(n)
      ensures res == Ok || res == DiskErr
      ensures res == Ok ==> e == St().Table()[n] && fs.winsect == sect && sect < |fs.View()|
      ensures res == Ok ==> fs.win[..] == fs.View()[sect]
      ensures fs.disk.reliable ==> res == Ok
    {
      hide PowerOfTwo, FatBytes, EntryLimit, EntryRange, MirroredExcept, Table, FatData, Fatfs.View, Sectors, Forest,
        State.Table, Kept, Position, State.Secs;
      ghost var s := St();
      PositionFacts(s, n, dptr, sect, clust);
      ghost var copied;
      res, copied := fs.MoveWindow(sect);
      TableFrame(s.g, s.view, fs.View());
      MovedKept(s, St());
      KeptPosition(s, St(), n, dptr, sect, clust);
      EntryHere(St(), n, dptr, sect, clust);
      e := seq(SZDIRE, i => 0);
      if res == Ok {
        e := fs.win[dptr % SS..dptr % SS + SZDIRE];
        assert e == fs.win[..][dptr % SS..dptr % SS + SZDIRE];
      }
    }

    /** Offset form of where a long name starts. */
    ghost predicate StartsAt(start: Option<nat>)
      reads this`blkOfs
    {
      match start
      case None => blkOfs == NO_BLOCK
      case Some(i) => blkOfs == SZDIRE * i
    }

    ghost function SearchKey(): Key
      requires lfnbuf.Length == MAX_LFN + 1
      reads lfnbuf, this`fn, this`status
    {
      Key(lfnbuf[..], fn, status.loss, status.noLfn)
    }

    /** One entry of the search: whether it is the object, and the progress past it. */
    method FindEntry(up: word -> word, e: Entry, ghost i: nat, ord: byte, sum: byte, ghost start: Option<nat>)
      returns (hit: bool, ord': byte, sum': byte, ghost start': Option<nat>)
      requires lfnbuf.Length == MAX_LFN + 1 && |fn| == 11 && e[0] != 0 && StartsAt(start) && dptr == SZDIRE * i
      modifies this`blkOfs
      ensures hit <==> Hit(SearchKey(), e, Seen(ord, sum, start))
      ensures hit ==> (ord', sum', start') == (ord, sum, start)
      ensures !hit ==> Seen(ord', sum', start') == Pass(up, SearchKey(), e, i, Seen(ord, sum, start))
      ensures StartsAt(start')
    {
      hit, ord', sum', start' := false, ord, sum, start;
      var c, a := e[0], Attr(e);
      if c == DDEM || (a / 8 % 2 == 1 && a != AM_LFN) {
        ord', blkOfs, start' := 0xFF, NO_BLOCK, None;
      } else if a == AM_LFN {
        if !status.noLfn {
          if Last(e) {
            sum', ord', blkOfs, start' := e[LDIR_CHKSUM], Order(e), dptr, Some(i);
          }
          var same := CmpLfn(up, lfnbuf, e);
          ord' := if Order(e) == ord' && sum' == e[LDIR_CHKSUM] && same then Lower(ord') else 0xFF;
        }
      } else {
        var check := SumSfn(e);
        if ord == 0 && sum == check {
          return true, ord, sum, start;
        }
        if !status.loss && e[..11] == fn {
          return true, ord, sum, start;
        }
        ord', blkOfs, start' := 0xFF, NO_BLOCK, None;
      }
    }

    /** dir_find. */
    method DirFind(up: word -> word) returns (res: FResult, ghost at: nat)
      requires Valid() && |fn| == 11
      modifies this`dptr, this`clust, this`sect, this`blkOfs, this`chain, fs, fs.win, fs.disk
      ensures Valid() && Kept(old(St()), St()) && SearchKey() == old(SearchKey())
      ensures res == Ok ==> var r := Find(up, SearchKey(), St().Table(), 0, NOTHING);
                            r.Some? && r.value.0 == at && At(at) && StartsAt(r.value.1.start)
      ensures res == NoFile ==> Find(up, SearchKey(), St().Table(), 0, NOTHING) == None
      ensures res == NoFile && !status.loss ==> forall j: nat :: !Bears(St().Table(), j, fn)
      ensures res != Denied && (fs.disk.reliable ==> res == Ok || res == NoFile)
    {
      hide PowerOfTwo, FatBytes, EntryLimit, EntryRange, MirroredExcept, Table, FatData, Fatfs.View, Sectors, Forest,
        State.Table, Kept, Position, Fatfs.Valid, State.Ok, Extended, State.Secs, Hit, Pass, Find, Bears;
      ghost var s, key := St(), SearchKey();
      at := 0;
      res := DirSdi(0);
      if res != Ok {
        TableLimit(s);
        KeptFields(s, St());
        return;
      }
      var ord: byte, sum: byte, hit := 0xFF, 0xFF, false;
      ghost var start: Option<nat>, table := None, s.Table();
      blkOfs := NO_BLOCK;
      while res == Ok && !hit
        invariant Valid() && Kept(s, St()) && SearchKey() == key && |fn| == 11
        invariant res == Ok ==> At(at) && StartsAt(start)
        invariant res == Ok && !hit ==>
                    Find(up, key, table, 0, NOTHING) == Find(up, key, table, at, Seen(ord, sum, start))
        invariant res == Ok && hit ==> Find(up, key, table, 0, NOTHING) == Some((at, Seen(ord, sum, start)))
        invariant res == NoFile ==> Find(up, key, table, 0, NOTHING) == None
        invariant res != Denied && (fs.disk.reliable ==> res == Ok || res == NoFile)
        decreases |table| - at, !hit && res == Ok
      {
        ghost var t := St();
        KeptFields(s, t);
        res, hit, ord, sum, start := FindStep(up, at, ord, sum, start);
        KeptMore(s, t, St());
        at := if res == Ok && !hit then at + 1 else at;
      }
      KeptFields(s, St());
      if res == NoFile && !status.loss { NobodyBears(up, key, table); }
    }

    /** The search at one entry, and on to the next. */
    method FindStep(up: word -> word, ghost i: nat, ord: byte, sum: byte, ghost start: Option<nat>)
      returns (res: FResult, hit: bool, ord': byte, sum': byte, ghost start': Option<nat>)
      requires Valid() && At(i) && |fn| == 11 && StartsAt(start)
      modifies this`dptr, this`clust, this`sect, this`blkOfs, this`chain, fs, fs.win, fs.disk
      ensures Valid() && Kept(old(St()), St()) && SearchKey() == old(SearchKey())
      ensures res != Denied && (fs.disk.reliable ==> res == Ok || res == NoFile)
      ensures i < |old(St().Table())|
      ensures res == Ok ==> StartsAt(start') && At(if hit then i else i + 1)
      ensures var f := Find(up, SearchKey(), old(St().Table()), i, Seen(ord, sum, start));
              && (res == NoFile ==> f == None)
              && (res == Ok ==> f == if hit then Some((i, Seen(ord', sum', start')))
                                     else Find(up, SearchKey(), old(St().Table()), i + 1, Seen(ord', sum', start')))
    {
      hide PowerOfTwo, FatBytes, EntryLimit, EntryRange, MirroredExcept, Table, FatData, Fatfs.View, Sectors, Forest,
        State.Table, Kept, Position, Fatfs.Valid, State.Ok, Extended, State.Secs, Hit, Pass, Find, Salvaged,
        Fatfs.Counted;
      ghost var s := St();
      PositionFacts(s, i, dptr, sect, clust);
      res, hit, ord', sum', start' := FindHere(up, i, ord, sum, start);
      if res == Ok && !hit {
        ghost var t := St();
        KeptFields(s, t);
        res := DirNext(false, i);
        KeptMore(s, t, St());
        KeptFields(s, St());
        if res == NoFile {
          FindEnd(up, SearchKey(), s.Table(), i + 1, Seen(ord', sum', start'));
        }
      }
    }

    /** The search at one entry, read through the window. */
    method FindHere(up: word -> word, ghost i: nat, ord: byte, sum: byte, ghost start: Option<nat>)
      returns (res: FResult, hit: bool, ord': byte, sum': byte, ghost start': Option<nat>)
      requires Valid() && At(i) && |fn| == 11 && StartsAt(start)
      modifies this`blkOfs, fs`winsect, fs`wflag, fs`mirrorLost, fs.win, fs.disk
      ensures Valid() && Kept(old(St()), St()) && At(i) && SearchKey() == old(SearchKey())
      ensures res == Ok || res == NoFile || res == DiskErr
      ensures fs.disk.reliable ==> res != DiskErr
      ensures res == Ok ==> StartsAt(start')
      ensures var f := Find(up, SearchKey(), old(St().Table()), i, Seen(ord, sum, start));
              && (res == NoFile ==> f == None)
              && (res == Ok && hit ==> f == Some((i, Seen(ord', sum', start'))))
              && (res == Ok ==>
                f == Find(up, SearchKey(), old(St().Table()), i + (if hit then 0 else 1), Seen(ord', sum', start')))
    {
      hide PowerOfTwo, FatBytes, EntryLimit, EntryRange, MirroredExcept, Table, FatData, Fatfs.View, Sectors, Forest,
        State.Table, Kept, Position, Fatfs.Valid, State.Ok, State.Secs, Hit, Pass;
      ghost var s := St();
      PositionFacts(s, i, dptr, sect, clust);
      hit, ord', sum', start' := false, ord, sum, start;
      var e;
      res, e := Load(i);
      KeptFields(s, St());
      if res != Ok {
        return;
      }
      if e[0] == 0 {
        res := NoFile;
        return;
      }
      hit, ord', sum', start' := FindEntry(up, e, i, ord, sum, start);
    }
  
    /** The start of a long name is known while its sequence is good. */
    ghost predicate Follows(r: Reading)
      reads this`blkOfs, lfnbuf
    {
      r.buf == lfnbuf[..] && (r.ord != 0xFF ==> StartsAt(r.start))
    }

    /** One entry of a read: whether it is an object, and the progress past it. */
    method ReadEntry(e: Entry, ghost i: nat, ord: byte, sum: byte, ghost r: Reading)
      returns (stop: bool, ord': byte, sum': byte, ghost r': Reading)
      requires lfnbuf.Length == MAX_LFN + 1 && e[0] != 0 && dptr == SZDIRE * i
      requires r.ord == ord && r.sum == sum && Follows(r)
      modifies this`blkOfs, lfnbuf
      ensures stop <==> Stops(e)
      ensures stop ==> r' == (if ord != 0 || sum != SumOf(e[..11]) then r.(start := None) else r) && StartsAt(r'.start)
      ensures !stop ==> r' == ReadPass(e, i, r)
      ensures r'.ord == ord' && r'.sum == sum' && Follows(r')
    {
      hide Pick, SumOf;
      stop, ord', sum', r' := false, ord, sum, r;
      var b, attr := e[0], Attr(e);
      if b == DDEM || b == 0x2E || attr % 0x20 == 8 {
        ord', r' := 0xFF, r.(ord := 0xFF);
      } else if attr == AM_LFN {
        if Last(e) {
          sum', ord', blkOfs := e[LDIR_CHKSUM], Order(e), dptr;
          r' := Reading(ord', sum', Some(i), r.buf);
        }
        if Order(e) == ord' && sum' == e[LDIR_CHKSUM] {
          var ok := PickLfn(lfnbuf, e);
          r' := r'.(ord := if ok then Lower(ord') else 0xFF, buf := lfnbuf[..]);
          ord' := if ok then Lower(ord') else 0xFF;
        } else {
          ord', r' := 0xFF, r'.(ord := 0xFF);
        }
      } else {
        var check := SumSfn(e);
        if ord != 0 || sum != check {
          blkOfs := NO_BLOCK;
          r' := r.(start := None);
        }
        stop := true;
      }
    }

    /** The read at one entry, and on to the next. */
    method ReadStep(ghost i: nat, ord: byte, sum: byte, ghost r: Reading)
      returns (res: FResult, stop: bool, ord': byte, sum': byte, ghost r': Reading)
      requires Valid() && At(i) && r.ord == ord && r.sum == sum && Follows(r)
      modifies this`dptr, this`clust, this`sect, this`blkOfs, this`chain, lfnbuf, fs, fs.win, fs.disk
      ensures Valid() && Kept(old(St()), St())
      ensures fs.disk.reliable ==> res == Ok || res == NoFile
      ensures i < |old(St().Table())|
      ensures r'.ord == ord' && r'.sum == sum' && Follows(r')
      ensures res == Ok ==> At(if stop then i else i + 1) && (stop ==> StartsAt(r'.start))
      ensures var f := Read(old(St().Table()), i, r);
              && (res == NoFile ==> f == None)
              && (res == Ok ==> f == if stop then Some((i, r')) else Read(old(St().Table()), i + 1, r'))
    {
      hide PowerOfTwo, FatBytes, EntryLimit, EntryRange, MirroredExcept, Table, FatData, Fatfs.View, Sectors, Forest,
        State.Table, Kept, Position, Fatfs.Valid, State.Ok, Extended, State.Secs, ReadPass, Stops, SumOf, Salvaged,
        Fatfs.Counted;
      ghost var s := St();
      PositionFacts(s, i, dptr, sect, clust);
      stop, ord', sum', r' := false, ord, sum, r;
      var e;
      res, e := Load(i);
      KeptFields(s, St());
      if res != Ok {
        return;
      }
      if e[0] == 0 {
        res := NoFile;
        return;
      }
      stop, ord', sum', r' := ReadEntry(e, i, ord, sum, r);
      if !stop {
        ghost var t := St();
        res := DirNext(false, i);
        KeptMore(s, t, St());
        KeptFields(s, St());
        if res == NoFile {
          ReadEnd(s.Table(), i + 1, r');
        }
      }
    }

    /** dir_read of the next file or directory from the current position on. */
    method DirRead(ghost n: nat) returns (res: FResult, ghost at: nat, ghost r: Reading)
      requires Valid() && (sect != 0 ==> At(n))
      modifies this`dptr, this`clust, this`sect, this`blkOfs, this`chain, lfnbuf, fs, fs.win, fs.disk
      ensures Valid() && Kept(old(St()), St())
      ensures res == Ok ==> Read(St().Table(), n, Reading(0xFF, 0xFF, None, old(lfnbuf[..]))) == Some((at, r))
      ensures res == Ok ==> At(at) && r.buf == lfnbuf[..] && StartsAt(r.start)
      ensures res != Ok ==> sect == 0
      ensures res == NoFile && old(sect) != 0 ==>
                Read(St().Table(), n, Reading(0xFF, 0xFF, None, old(lfnbuf[..]))) == None
      ensures fs.disk.reliable || old(sect) == 0 ==> res == Ok || res == NoFile
    {
      hide PowerOfTwo, FatBytes, EntryLimit, EntryRange, MirroredExcept, Table, FatData, Fatfs.View, Sectors, Forest,
        State.Table, Kept, Position, Fatfs.Valid, State.Ok, Extended, State.Secs, Read;
      ghost var s := St();
      KeptItself(s);
      var ord: byte, sum: byte, stop := 0xFF, 0xFF, false;
      r, at, res := Reading(0xFF, 0xFF, None, lfnbuf[..]), n, NoFile;
      if sect == 0 {
        return;
      }
      res := Ok;
      ghost var table, f := s.Table(), Read(s.Table(), n, r);
      while res == Ok && !stop
        invariant Valid() && Kept(s, St()) && r.ord == ord && r.sum == sum && Follows(r)
        invariant res == Ok ==> At(at) && f == if stop then Some((at, r)) else Read(table, at, r)
        invariant res == Ok && stop ==> StartsAt(r.start)
        invariant res == NoFile ==> f == None
        invariant fs.disk.reliable ==> res == Ok || res == NoFile
        decreases |table| - at, !stop && res == Ok
      {
        ghost var t := St();
        KeptFields(s, t);
        res, stop, ord, sum, r := ReadStep(at, ord, sum, r);
        KeptMore(s, t, St());
        at := if res == Ok && !stop then at + 1 else at;
      }
      KeptFields(s, St());
      if res != Ok {
        sect := 0;
      }
    }
  
    /** f_readdir: the next file or directory, if there is one, and on past it. */
    method ReadDir(ghost n: nat) returns (res: FResult, found: bool, ghost at: nat, ghost r: Reading)
      requires Valid() && (sect != 0 ==> At(n))
      modifies this`dptr, this`clust, this`sect, this`blkOfs, this`chain, lfnbuf, fs, fs.win, fs.disk
      ensures Valid() && Kept(old(St()), St())
      ensures found ==> Read(St().Table(), n, Reading(0xFF, 0xFF, None, old(lfnbuf[..]))) == Some((at, r))
      ensures found ==> r.buf == lfnbuf[..]
      ensures res == Ok && found ==> if sect != 0 then At(at + 1) else at + 1 == |St().Table()|
      ensures res == Ok && !found ==> sect == 0
      ensures res == Ok && !found && old(sect) != 0 ==>
                Read(St().Table(), n, Reading(0xFF, 0xFF, None, old(lfnbuf[..]))) == None
      ensures fs.disk.reliable ==> res == Ok
    {
      hide PowerOfTwo, FatBytes, EntryLimit, EntryRange, MirroredExcept, Table, FatData, Fatfs.View, Sectors, Forest,
        State.Table, Kept, Position, Fatfs.Valid, State.Ok, Extended, State.Secs, Read, Salvaged, Fatfs.Counted;
      ghost var s := St();
      res, at, r := DirRead(n);
      found := res == Ok;
      if found {
        ghost var t := St();
        KeptFields(s, t);
        PositionFacts(t, at, dptr, sect, clust);
        res := DirNext(false, at);
        KeptMore(s, t, St());
        KeptFields(s, St());
        if res == Ok {
          PositionFacts(St(), at + 1, dptr, sect, clust);
        }
      }
      if res == NoFile {
        res := Ok;
      }
    }

    /** The directory read from its start until nothing more comes. */
    method List() returns (res: FResult, ghost l: seq<(nat, Reading)>)
      requires Valid()
      modifies this`dptr, this`clust, this`sect, this`blkOfs, this`chain, lfnbuf, fs, fs.win, fs.disk
      ensures Valid() && Kept(old(St()), St())
      ensures res == Ok ==> l == Listing(St().Table(), 0, old(lfnbuf[..]))
      ensures fs.disk.reliable ==> res == Ok
    {
      hide PowerOfTwo, FatBytes, EntryLimit, EntryRange, MirroredExcept, Table, FatData, Fatfs.View, Sectors, Forest,
        State.Table, Kept, Position, Fatfs.Valid, State.Ok, Extended, State.Secs, Read, Listing, Dir.StartsAt, Free;
      ghost var s, n := St(), 0;
      ghost var table, all := s.Table(), Listing(s.Table(), 0, lfnbuf[..]);
      l := [];
      TableLimit(s);
      res := DirSdi(0);
      KeptFields(s, St());
      if res == Ok {
        PositionFacts(St(), 0, dptr, sect, clust);
      }
      var more := true;
      while res == Ok && more
        invariant Valid() && Kept(s, St()) && n <= |table|
        invariant res == Ok && more ==> if sect != 0 then At(n) else n == |table|
        invariant res == Ok ==> all == if more then l + Listing(table, n, lfnbuf[..]) else l
        invariant fs.disk.reliable ==> res == Ok
        decreases |table| - n, more
      {
        ghost var t, buf := St(), lfnbuf[..];
        KeptFields(s, t);
        ListingNext(table, n, buf, l);
        ReadEnd(table, |table|, Reading(0xFF, 0xFF, None, buf));
        ghost var at, r;
        res, more, at, r := ReadDir(n);
        KeptMore(s, t, St());
        KeptFields(s, St());
        if more {
          l, n := l + [(at, r)], at + 1;
        }
      }
      KeptFields(s, St());
    }

    /** One entry of the search for room. */
    method AllocStep(nent: nat, ghost i: nat, n: nat) returns (res: FResult, n': nat)
      requires Valid() && At(i) && n < nent && BlankRun(St().Table(), i, n)
      modifies this`dptr, this`clust, this`sect, this`chain, fs, fs.win, fs.disk
      ensures Salvaged(old(St()))
      ensures i < |old(St().Table())| <= MAX_DIR / SZDIRE
      ensures res == Ok || res == NoFile || res == Denied ==>
                Valid() && Extended(old(St()), St()) && StillCounted() && n' <= nent
                  && BlankRun(St().Table(), i + 1, n')
      ensures res == Ok ==> At(if n' == nent then i else i + 1)
      ensures res == NoFile || res == Denied ==> n' < nent && i + 1 == |St().Table()|
      ensures res == NoFile ==> Fixed() || |St().Table()| == MAX_DIR / SZDIRE
      ensures res == Denied && old(fs.Counted()) ==> forall c :: 2 <= c < fs.g.nFatent ==> St().fat[c] != 0
      ensures fs.disk.reliable ==> res == Ok || res == NoFile || res == Denied
    {
      hide PowerOfTwo, FatBytes, EntryLimit, EntryRange, MirroredExcept, Table, FatData, Fatfs.View, Sectors, Forest,
        State.Table, Kept, Position, Fatfs.Valid, State.Ok, Extended, State.Secs, BlankRun, CountAccurate, Salvaged,
        Geometry.End;
      ghost var s := St();
      PositionFacts(s, i, dptr, sect, clust);
      var e;
      n' := n;
      res, e := Load(i);
      ghost var t := St();
      KeptFields(s, t);
      KeptExtended(s, t);
      SalvagedNow(s);
      if res != Ok {
        return;
      }
      BlankRunNext(t.Table(), i, n);
      if e[0] == DDEM || e[0] == 0 {
        n' := n + 1;
        if n' == nent {
          return;
        }
      } else {
        n' := 0;
      }
      res := DirNext(true, i);
      SalvagedEarlier(s, t);
      if res == Denied {
        KeptExtended(t, St());
      }
      if res == Ok || res == NoFile || res == Denied {
        ExtendedTable(t, St());
        ExtendedMore(s, t, St());
        BlankRunPrefix(t.Table(), St().Table(), i + 1, n');
      }
    }

    /** The search for room from the first entry on. */
    method FindRoom(nent: nat) returns (res: FResult, ghost at: nat)
      requires Valid() && At(0) && nent >= 1
      modifies this`dptr, this`clust, this`sect, this`chain, fs, fs.win, fs.disk
      ensures Salvaged(old(St()))
      ensures res == Ok || res == NoFile || res == Denied ==> Valid() && Extended(old(St()), St()) && StillCounted()
      ensures res == Ok ==> At(at) && BlankRun(St().Table(), at + 1, nent)
      ensures res == NoFile || res == Denied ==> NoRoomBefore(St().Table(), |St().Table()|, nent)
      ensures res == NoFile ==> Fixed() || |St().Table()| == MAX_DIR / SZDIRE
      ensures res == Denied && old(fs.Counted()) ==> forall c :: 2 <= c < fs.g.nFatent ==> St().fat[c] != 0
      ensures fs.disk.reliable ==> res == Ok || res == NoFile || res == Denied
    {
      hide PowerOfTwo, FatBytes, EntryLimit, EntryRange, MirroredExcept, Table, FatData, Fatfs.View, Sectors, Forest,
        State.Table, Kept, Position, Fatfs.Valid, State.Ok, Extended, State.Secs, BlankRun, CountAccurate, Salvaged,
        NoRoomBefore, HasRoom, Fatfs.Fat;
      ghost var s := St();
      KeptItself(s);
      KeptExtended(s, s);
      SalvagedNow(s);
      NoRun(s.Table(), nent);
      var n := 0;
      res, at := Ok, 0;
      while res == Ok && n != nent
        invariant 0 <= n && Salvaged(s) && (res == Ok ==> n <= nent)
        invariant res == Ok || res == NoFile || res == Denied ==> Valid() && Extended(s, St()) && StillCounted()
        invariant res == Ok ==> At(at) && BlankRun(St().Table(), if n == nent then at + 1 else at, n)
        invariant res == Ok && n != nent ==> at <= |St().Table()| && NoRoomBefore(St().Table(), at, nent)
        invariant res == NoFile || res == Denied ==> NoRoomBefore(St().Table(), |St().Table()|, nent)
        invariant res == NoFile ==> Fixed() || |St().Table()| == MAX_DIR / SZDIRE
        invariant res == Denied && old(fs.Counted()) ==> forall c :: 2 <= c < fs.g.nFatent ==> St().fat[c] != 0
        invariant fs.disk.reliable ==> res == Ok || res == NoFile || res == Denied
        decreases MAX_DIR / SZDIRE - at, n != nent && res == Ok
      {
        ghost var t := St();
        ExtendedTable(s, t);
        res, n := AllocStep(nent, at, n);
        SalvagedEarlier(s, t);
        if res == Ok || res == NoFile || res == Denied {
          ExtendedMore(s, t, St());
          ExtendedTable(t, St());
          if n != nent {
            NoRoomNext(t.Table(), St().Table(), at, n, nent);
          }
          at := if n == nent then at else at + 1;
        }
      }
    }

    /**
      dir_alloc: a block of blank entries, the current one being its last; the table may have grown by blank ones.
      It is refused only if the table, grown as far as it could be, has no room.
     */
    method DirAlloc(nent: nat) returns (res: FResult, ghost at: nat)
      requires Valid() && nent >= 1
      modifies this`dptr, this`clust, this`sect, this`chain, fs, fs.win, fs.disk
      ensures Salvaged(old(St()))
      ensures res == Ok || res == Denied ==> Valid() && Extended(old(St()), St()) && StillCounted()
      ensures res == Ok ==> At(at) && BlankRun(St().Table(), at + 1, nent)
      ensures res == Denied ==> !HasRoom(old(St().Table()), nent) && !HasRoom(St().Table(), nent)
      ensures res == Denied && old(fs.Counted()) ==>
                Fixed() || |St().Table()| == MAX_DIR / SZDIRE || forall c :: 2 <= c < fs.g.nFatent ==> St().fat[c] != 0
      ensures fs.disk.reliable ==> res == Ok || res == Denied
    {
      hide PowerOfTwo, FatBytes, EntryLimit, EntryRange, MirroredExcept, Table, FatData, Fatfs.View, Sectors, Forest,
        State.Table, Kept, Position, Fatfs.Valid, State.Ok, Extended, State.Secs, BlankRun, CountAccurate, Salvaged,
        NoRoomBefore, HasRoom;
      ghost var s := St();
      at := 0;
      res := DirSdi(0);
      ghost var t := St();
      TableLimit(s);
      KeptFields(s, t);
      KeptExtended(s, t);
      SalvagedNow(s);
      if res == Ok {
        res, at := FindRoom(nent);
        SalvagedEarlier(s, t);
        if res == Ok || res == NoFile || res == Denied {
          ExtendedMore(s, t, St());
          ExtendedTable(s, St());
        }
        if res == NoFile || res == Denied {
          NoRoomAtAll(s.Table(), St().Table(), nent);
        }
      }
      if res == NoFile {
        res := Denied;
      }
    }
  
    /** Marks the window dirty before the entry in it is changed. */
    method MarkDirty(ghost n: nat)
      requires Valid() && At(n) && fs.winsect == sect && sect < |fs.View()| && fs.win[..] == fs.View()[sect]
      modifies fs`wflag
      ensures Valid() && At(n) && St() == old(St()) && fs.wflag
    {
      hide PowerOfTwo, FatBytes, EntryLimit, EntryRange, MirroredExcept, Table, FatData, Sectors, Forest, State.Table,
        Position, State.Secs, Geometry.End;
      ghost var v := fs.View();
      PositionFacts(St(), n, dptr, sect, clust);
      if !fs.mirrorLost && !fs.wflag { MirrorWeaken(fs.g, fs.disk.store, fs.winsect); }
      fs.wflag := true;
      assert fs.View() == v;
    }

    /** The directory after the current entry was replaced in a dirty window. */
    lemma EntryStored(s: State, win: Sector, n: nat, e: Entry)
      requires fs.Valid() && fs.wflag && s.Ok() && Position(s, n, dptr, sect, clust) && fs.winsect == sect
      requires s.g == fs.g && s.fixed == Fixed() && s.chain == chain && s.others == others
      requires s.fat == Table(s.g, s.view)
      requires lfnbuf.Length == MAX_LFN + 1 && (!Fixed() ==> chain[0] == if sclust == 0 then fs.g.dirbase else sclust)
      requires sect < |s.view| && s.view == fs.disk.store[sect := win] && dptr % SS + SZDIRE <= SS
      requires fs.win[..] == win[..dptr % SS] + e + win[dptr % SS + SZDIRE..]
      ensures Valid() && Rewritten(s, St()) && At(n)
      ensures n < |s.Table()| && St().Table() == s.Table()[n := e]
    {
      hide PowerOfTwo, FatBytes, EntryLimit, EntryRange, MirroredExcept, Table, FatData, Sectors, Forest, State.Table,
        Position, State.Secs, Geometry.End, Rewritten;
      PositionFacts(s, n, dptr, sect, clust);
      assert fs.View() == s.view[sect := s.view[sect][..dptr % SS] + e + s.view[sect][dptr % SS + SZDIRE..]];
      OutsideFatFrame(fs.g, s.view, fs.View());
      WindowWritten(s, St(), n, dptr, sect, clust, e);
    }

    method PutLfnHere(ghost n: nat, ghost w: seq<word>, ord: byte, sum: byte)
      requires Valid() && At(n) && fs.wflag && fs.winsect == sect && sect < |fs.View()|
      requires Holding(lfnbuf[..], w) && 1 <= ord <= Parts(|w|)
      modifies fs.win
      ensures Valid() && Rewritten(old(St()), St()) && At(n)
      ensures n < |old(St().Table())| && St().Table() == old(St().Table())[n := LfnEntry(w, ord, sum)]
    {
      hide PowerOfTwo, FatBytes, EntryLimit, EntryRange, MirroredExcept, Table, FatData, Sectors, Forest, State.Table,
        Kept, Position, State.Ok, State.Secs, LfnEntry, SfnEntry, Rewritten;
      ghost var s, win := St(), fs.win[..];
      EntryHere(s, n, dptr, sect, clust);
      PutLfn(lfnbuf[..], w, fs.win, dptr % SS, ord, sum);
      EntryStored(s, win, n, LfnEntry(w, ord, sum));
    }

    method PutSfnHere(ghost n: nat)
      requires Valid() && At(n) && fs.wflag && fs.winsect == sect && sect < |fs.View()| && |fn| == 11
      modifies fs.win
      ensures Valid() && Rewritten(old(St()), St()) && At(n)
      ensures n < |old(St().Table())| && St().Table() == old(St().Table())[n := SfnEntry(fn, status.ntCase)]
    {
      hide PowerOfTwo, FatBytes, EntryLimit, EntryRange, MirroredExcept, Table, FatData, Sectors, Forest, State.Table,
        Kept, Position, State.Ok, State.Secs, LfnEntry, SfnEntry, Rewritten;
      ghost var s, win := St(), fs.win[..];
      EntryHere(s, n, dptr, sect, clust);
      PutSfn(fs.win, dptr % SS, fn, status.ntCase);
      EntryStored(s, win, n, SfnEntry(fn, status.ntCase));
    }

    /** Puts a part of the long name at the current entry. */
    method StoreLfn(ghost n: nat, ghost w: seq<word>, ord: byte, sum: byte) returns (res: FResult)
      requires Valid() && At(n) && Holding(lfnbuf[..], w) && 1 <= ord <= Parts(|w|)
      modifies fs`winsect, fs`wflag, fs`mirrorLost, fs.win, fs.disk
      ensures Valid() && Rewritten(old(St()), St()) && At(n)
      ensures res == Ok ==> n < |old(St().Table())| && St().Table() == old(St().Table())[n := LfnEntry(w, ord, sum)]
      ensures res != Ok ==> res == DiskErr && St().Table() == old(St().Table())
      ensures fs.disk.reliable ==> res == Ok
    {
      hide PowerOfTwo, FatBytes, EntryLimit, EntryRange, MirroredExcept, Table, FatData, Fatfs.View, Sectors, Forest,
        State.Table, Kept, Position, State.Ok, State.Secs, LfnEntry, Rewritten;
      ghost var s := St();
      var e;
      res, e := Load(n);
      ghost var t := St();
      KeptFields(s, t);
      KeptRewritten(s, t);
      if res != Ok {
        return;
      }
      MarkDirty(n);
      PutLfnHere(n, w, ord, sum);
      RewrittenMore(s, t, St());
    }

    /** Puts the short name at the current entry. */
    method StoreSfn(ghost n: nat) returns (res: FResult)
      requires Valid() && At(n) && |fn| == 11
      modifies fs`winsect, fs`wflag, fs`mirrorLost, fs.win, fs.disk
      ensures Valid() && Rewritten(old(St()), St()) && At(n)
      ensures res == Ok ==> n < |old(St().Table())|
      ensures res == Ok ==> St().Table() == old(St().Table())[n := SfnEntry(fn, status.ntCase)]
      ensures res != Ok ==> res == DiskErr && St().Table() == old(St().Table())
      ensures fs.disk.reliable ==> res == Ok
    {
      hide PowerOfTwo, FatBytes, EntryLimit, EntryRange, MirroredExcept, Table, FatData, Fatfs.View, Sectors, Forest,
        State.Table, Kept, Position, State.Ok, State.Secs, SfnEntry, Rewritten;
      ghost var s := St();
      var e;
      res, e := Load(n);
      ghost var t := St();
      KeptFields(s, t);
      KeptRewritten(s, t);
      if res != Ok {
        return;
      }
      MarkDirty(n);
      PutSfnHere(n);
      RewrittenMore(s, t, St());
    }

    /** Puts the parts of the long name from the current entry on, last part first. */
    method StoreLong(ghost b: nat, ghost w: seq<word>, parts: nat, sum: byte) returns (res: FResult)
      requires Valid() && At(b) && Holding(lfnbuf[..], w) && 1 <= parts == Parts(|w|) && b + parts < |St().Table()|
      modifies this`dptr, this`clust, this`sect, this`chain, fs, fs.win, fs.disk
      ensures Valid() && Rewritten(old(St()), St()) && OnlyWithin(old(St().Table()), St().Table(), b, b + parts)
      ensures res != Denied
      ensures res == Ok ==> At(b + parts) && Begun(old(St().Table()), St().Table(), b, w, parts, sum, b + parts)
      ensures fs.disk.reliable ==> res == Ok
    {
      hide PowerOfTwo, FatBytes, EntryLimit, EntryRange, MirroredExcept, Table, FatData, Fatfs.View, Sectors, Forest,
        State.Table, Kept, Position, State.Ok, State.Secs, LfnEntry, Rewritten, Fatfs.Valid, Extended, Begun,
        OnlyWithin, Salvaged, Fatfs.Counted;
      NothingWithin(St().Table(), b, b + parts);
      ghost var s, i := St(), b;
      KeptItself(s);
      KeptRewritten(s, s);
      BegunStart(s.Table(), b, w, parts, sum);
      var nent := parts;
      res := Ok;
      while res == Ok && nent > 0
        invariant nent <= parts && Valid() && Rewritten(s, St()) && Holding(lfnbuf[..], w)
        invariant OnlyWithin(s.Table(), St().Table(), b, b + parts) && res != Denied
        invariant res == Ok ==> i == b + (parts - nent) && At(i) && Begun(s.Table(), St().Table(), b, w, parts, sum, i)
        invariant fs.disk.reliable ==> res == Ok
        decreases nent, res == Ok
      {
        ghost var t := St();
        RewrittenFields(s, t);
        res := StoreLfn(i, w, nent, sum);
        ghost var u := St();
        RewrittenMore(s, t, u);
        RewrittenFields(s, u);
        if res == Ok {
          OneMoreWithin(s.Table(), t.Table(), b, b + parts, i, LfnEntry(w, nent, sum));
          BegunNext(s.Table(), t.Table(), b, w, parts, sum, i);
          res := DirNext(false, i);
          KeptFields(u, St());
          KeptRewritten(u, St());
          RewrittenMore(s, u, St());
          i := i + 1;
          nent := nent - 1;
        }
      }
    }
  
    /** The length of the name in the buffer. */
    method NameLength(ghost w: seq<word>) returns (nlen: nat)
      requires lfnbuf.Length == MAX_LFN + 1 && Holding(lfnbuf[..], w)
      ensures nlen == |w|
    {
      nlen := 0;
      while lfnbuf[nlen] != 0
        invariant 0 <= nlen <= |w|
        decreases |w| - nlen
      {
        assert nlen < |w|;
        nlen := nlen + 1;
      }
    }

    /** The key of a search for a short name alone. */
    ghost function ShortKey(): Key
      requires lfnbuf.Length == MAX_LFN + 1
      reads lfnbuf, this`fn
    {
      Key(lfnbuf[..], fn, false, true)
    }

    /** One attempt at a numbered short name. */
    method TryNumber(up: word -> word, sn: seq<byte>, nlen: nat, n: nat) returns (res: FResult)
      requires Valid() && |sn| == 11 && nlen <= MAX_LFN && 1 <= n < 100 && status == BY_SHORT_NAME
      modifies this`fn, this`dptr, this`clust, this`sect, this`blkOfs, this`chain, fs, fs.win, fs.disk
      ensures Valid() && Kept(old(St()), St()) && |fn| == 11 && res != Denied
      ensures Numbered(fn, sn, Number(lfnbuf[..nlen], n))
      ensures res == Ok ==> Collides(old(St().Table()), sn, Number(lfnbuf[..nlen], n))
      ensures res == NoFile ==> Find(up, ShortKey(), old(St().Table()), 0, NOTHING) == None
      ensures fs.disk.reliable ==> res == Ok || res == NoFile
    {
      hide PowerOfTwo, FatBytes, EntryLimit, EntryRange, MirroredExcept, Table, FatData, Fatfs.View, Sectors, Forest,
        State.Table, Kept, Position, State.Ok, State.Secs, Fatfs.Valid, Extended, Find, Numbered, Number, HasName;
      ghost var s := St();
      ghost var k, at;
      fn, k := GenNumname(sn, lfnbuf[..nlen], n);
      NumberedLength(fn, sn, k);
      res, at := DirFind(up);
      KeptFields(s, St());
      if res == Ok {
        ShortHit(up, ShortKey(), s.Table(), 0, NOTHING);
      }
    }

    /** The first numbered short name that no object of the directory has; refused only if all of them are taken. */
    method NumberName(up: word -> word, nlen: nat) returns (res: FResult, ghost num: nat)
      requires Valid() && |fn| == 11 && nlen <= MAX_LFN
      modifies this`fn, this`status, this`dptr, this`clust, this`sect, this`blkOfs, this`chain, fs, fs.win, fs.disk
      ensures Valid() && Kept(old(St()), St()) && |fn| == 11
      ensures res == Ok ==> status == old(status) && 1 <= num < 100
      ensures res == Ok ==> Numbered(fn, old(fn), Number(lfnbuf[..nlen], num))
      ensures res == Ok ==> forall n :: 1 <= n < num ==> Collides(old(St().Table()), old(fn), Number(lfnbuf[..nlen], n))
      ensures res == Ok ==> Find(up, ShortKey(), old(St().Table()), 0, NOTHING) == None
      ensures res == Denied ==> AllTaken(old(St().Table()), old(fn), lfnbuf[..nlen])
      ensures fs.disk.reliable ==> res == Ok || res == Denied
    {
      hide PowerOfTwo, FatBytes, EntryLimit, EntryRange, MirroredExcept, Table, FatData, Fatfs.View, Sectors, Forest,
        State.Table, Kept, Position, State.Ok, State.Secs, Fatfs.Valid, Extended, Find, Numbered, Number, Collides;
      ghost var s := St();
      KeptItself(s);
      var sn, was := fn, status;
      status := BY_SHORT_NAME;
      var n := 1;
      res := Ok;
      while n < 100 && res == Ok
        invariant 1 <= n <= 100 && Valid() && Kept(s, St()) && |fn| == 11 && status == BY_SHORT_NAME && res != Denied
        invariant forall m :: 1 <= m < n ==> Collides(s.Table(), sn, Number(lfnbuf[..nlen], m))
        invariant res == NoFile ==> n < 100 && Numbered(fn, sn, Number(lfnbuf[..nlen], n))
        invariant res == NoFile ==> Find(up, ShortKey(), s.Table(), 0, NOTHING) == None
        invariant fs.disk.reliable ==> res == Ok || res == NoFile
        decreases 100 - n, res == Ok
      {
        ghost var t := St();
        KeptFields(s, t);
        res := TryNumber(up, sn, nlen, n);
        KeptMore(s, t, St());
        n := if res == Ok then n + 1 else n;
      }
      num := n;
      if n == 100 {
        return Denied, num;
      }
      if res != NoFile {
        return;
      }
      status := was;
      return Ok, num;
    }
  
    /** The long-name part of the block that ends at the current entry; afterwards the current entry is that one
        again. */
    method StoreParts(ghost at: nat, ghost w: seq<word>, parts: nat) returns (res: FResult)
      requires Valid() && At(at) && |fn| == 11 && Holding(lfnbuf[..], w) && 1 <= parts == Parts(|w|) && parts <= at
      modifies this`dptr, this`clust, this`sect, this`chain, fs, fs.win, fs.disk
      ensures Valid() && Rewritten(old(St()), St()) && OnlyWithin(old(St().Table()), St().Table(), at - parts, at)
      ensures res != Denied
      ensures res == Ok ==> At(at) && Begun(old(St().Table()), St().Table(), at - parts, w, parts, SumOf(fn), at)
      ensures fs.disk.reliable ==> res == Ok
    {
      hide PowerOfTwo, FatBytes, EntryLimit, EntryRange, MirroredExcept, Table, FatData, Fatfs.View, Sectors, Forest,
        State.Table, Kept, Position, State.Ok, State.Secs, LfnEntry, Rewritten, Fatfs.Valid, Extended, Begun, SumOf,
        OnlyWithin, Parts, Holding, Geometry.Valid;
      ghost var s := St();
      PositionFacts(s, at, dptr, sect, clust);
      NothingWithin(s.Table(), at - parts, at);
      res := DirSdi(dptr - parts * SZDIRE);
      ghost var t := St();
      KeptFields(s, t);
      KeptRewritten(s, t);
      if res != Ok {
        return;
      }
      var sum := SumSfn(fn);
      assert fn[..11] == fn;
      res := StoreLong(at - parts, w, parts, sum);
      RewrittenMore(s, t, St());
    }

    /** Fills the block that ends at the current entry. */
    method StoreBlock(ghost at: nat, ghost w: seq<word>, parts: nat) returns (res: FResult)
      requires Valid() && At(at) && |fn| == 11 && Holding(lfnbuf[..], w) && parts <= at
      requires parts == 0 || parts == Parts(|w|)
      modifies this`dptr, this`clust, this`sect, this`chain, fs, fs.win, fs.disk
      ensures Valid() && Rewritten(old(St()), St()) && OnlyWithin(old(St().Table()), St().Table(), at - parts, at + 1)
      ensures res != Denied
      ensures res == Ok ==> At(at) && BlockWritten(old(St().Table()), St().Table(), at, w, parts,
              SfnEntry(fn, status.ntCase))
      ensures fs.disk.reliable ==> res == Ok
    {
      hide PowerOfTwo, FatBytes, EntryLimit, EntryRange, MirroredExcept, Table, FatData, Fatfs.View, Sectors, Forest,
        State.Table, Kept, Position, State.Ok, State.Secs, LfnEntry, SfnEntry, Rewritten, Fatfs.Valid, Extended,
        Begun, BlockWritten, HasBlock, SumOf, OnlyWithin;
      ghost var s := St();
      PositionFacts(s, at, dptr, sect, clust);
      KeptItself(s);
      KeptRewritten(s, s);
      SfnName(fn, status.ntCase);
      ghost var sfn := SfnEntry(fn, status.ntCase);
      BegunStart(s.Table(), at - parts, w, parts, SumOf(fn));
      NothingWithin(s.Table(), at - parts, at);
      res := Ok;
      if parts > 0 {
        res := StoreParts(at, w, parts);
      }
      ghost var u := St();
      RewrittenFields(s, u);
      WithinMore(s.Table(), u.Table(), at - parts, at, at + 1);
      if res != Ok {
        return;
      }
      res := StoreSfn(at);
      RewrittenMore(s, u, St());
      OneMoreWithin(s.Table(), u.Table(), at - parts, at + 1, at, sfn);
      if res == Ok {
        BegunDone(s.Table(), u.Table(), at - parts, w, parts, sfn);
        BlockIs(s.Table(), St().Table(), at, w, parts, sfn);
      }
    }

    /** Room for the object, and its entries there; whatever fails, live entries stay. */
    method PlaceEntries(ghost w: seq<word>, parts: nat) returns (res: FResult, ghost at: nat, ghost room: seq<Entry>)
      requires Valid() && |fn| == 11 && Holding(lfnbuf[..], w) && (parts == 0 || parts == Parts(|w|))
      modifies this`dptr, this`clust, this`sect, this`chain, fs, fs.win, fs.disk
      ensures LiveSalvaged(old(St()))
      ensures res == Denied ==> Valid() && Extended(old(St()), St()) && !HasRoom(old(St().Table()), parts + 1)
      ensures res == Ok ==> Valid() && At(at) && Elsewhere(old(St()), St())
      ensures res == Ok ==> old(St().Table()) <= room && forall k :: |old(St().Table())| <= k < |room| ==>
                room[k][0] == 0
      ensures res == Ok ==> BlankRun(room, at + 1, parts + 1)
      ensures res == Ok ==> BlockWritten(room, St().Table(), at, w, parts, SfnEntry(fn, status.ntCase))
      ensures fs.disk.reliable ==> res == Ok || res == Denied
    {
      hide PowerOfTwo, FatBytes, EntryLimit, EntryRange, MirroredExcept, Table, FatData, Fatfs.View, Sectors, Forest,
        State.Table, Kept, Position, State.Ok, State.Secs, LfnEntry, SfnEntry, Rewritten, Fatfs.Valid, Extended,
        BlockWritten, Elsewhere, BlankRun, Free, LiveSalvaged, Salvaged, CountAccurate, HasRoom, OnlyWithin;
      ghost var s := St();
      KeptItself(s);
      room := [];
      res, at := DirAlloc(parts + 1);
      LiveAfterAlloc(s);
      if res != Ok {
        return;
      }
      ghost var u := St();
      room := u.Table();
      RunInside(room, at + 1, parts + 1);
      res := StoreBlock(at, w, parts);
      LiveAfterBlock(s, u, at - parts, at + 1);
      GrownAndRewritten(s, s, u, St());
    }

    /**
      dir_register: enters an object under its name. The block was blank; whatever fails, every live entry stays.
      Nothing live follows the end mark. The name that was not found before is found now, and listed, as far as its
      length allows; short names and long names stay different.
     */
    method DirRegister(up: word -> word, ghost w: seq<word>) returns (res: FResult, ghost at: nat,
                       ghost room: seq<Entry>)
      requires Valid() && |fn| == 11 && fn[0] != 0 && fn[0] != DDEM && Holding(lfnbuf[..], w)
      requires status.loss ==> status.lfn
      modifies this`fn, this`status, this`dptr, this`clust, this`sect, this`blkOfs, this`chain, fs, fs.win, fs.disk
      ensures old(status.dot || status.noName) ==> res == InvalidName && Valid() && St() == old(St())
      ensures LiveSalvaged(old(St()))
      ensures res == Denied ==> Valid() && Extended(old(St()), St())
      ensures res == Denied ==>
                || !HasRoom(old(St().Table()), if old(status.lfn) then Parts(|w|) + 1 else 1)
                || (old(status.loss) && AllTaken(old(St().Table()), old(fn), w))
      ensures res == Ok && old(status.loss) && Ended(old(St().Table())) ==> !AllTaken(old(St().Table()), old(fn), w)
      ensures fs.disk.reliable && !old(status.dot || status.noName) ==> res == Ok || res == Denied
      ensures res == Ok ==> Valid() && At(at) && |fn| == 11 && status == old(status) && Elsewhere(old(St()), St())
      ensures res == Ok ==> if status.loss then exists n :: 1 <= n < 100 && Numbered(fn, old(fn), Number(w, n))
              else fn == old(fn)
      ensures res == Ok ==> Placed(old(St().Table()), room, St().Table(), at, w, if status.lfn then Parts(|w|)
              else 0, SfnEntry(fn, status.ntCase))
      ensures res == Ok && Ended(old(St().Table())) ==> Ended(St().Table()) && LiveKept(old(St().Table()), St().Table())
      ensures res == Ok && Ended(old(St().Table())) && Unique(old(St().Table()))
              && Find(up, old(SearchKey()), old(St().Table()), 0, NOTHING) == None
              ==> Unique(St().Table())
      ensures res == Ok && Ended(old(St().Table())) && !status.noLfn
              && Find(up, old(SearchKey()), old(St().Table()), 0, NOTHING) == None
              ==> FoundAgain(up, old(SearchKey()), St().Table(), at, w)
      ensures res == Ok && Ended(old(St().Table())) && NoOrphans(old(St().Table()))
              && LongUnique(up, old(St().Table())) && !status.noLfn
              && Find(up, old(SearchKey()), old(St().Table()), 0, NOTHING) == None
              ==> NoOrphans(St().Table()) && LongUnique(up, St().Table())
      ensures res == Ok && Ended(old(St().Table())) && status.lfn && fn[0] != 0x2E
              ==> forall buf: Buffer :: Lists(Listing(St().Table(), 0, buf), at, w)
    {
      hide PowerOfTwo, FatBytes, EntryLimit, EntryRange, MirroredExcept, Table, FatData, Fatfs.View, Sectors, Forest,
        State.Table, Kept, Position, State.Ok, State.Secs, LfnEntry, SfnEntry, Rewritten, Fatfs.Valid, Extended, Find,
        Numbered, Placed, BlockWritten, Elsewhere, BlankRun, Hit, IsObject, Free, FoundAgain, NoOrphans, LongUnique,
        Lists, Listing, LiveSalvaged, Salvaged, HasRoom, Ended, Unique, LiveKept, Collides, Number;
      at, room := 0, [];
      ghost var s, key := St(), SearchKey();
      KeptItself(s);
      LiveNow(s);
      if status.dot || status.noName {
        return InvalidName, at, room;
      }
      var nlen := NameLength(w);
      res := Ok;
      if status.loss {
        ghost var n;
        res, n := NumberName(up, nlen);
        LiveNow(s);
        KeptExtended(s, St());
        if res != Ok {
          return;
        }
        NumberedFirst(fn, key.fn, Number(w, n));
        if Ended(s.Table()) {
          FreeName(up, ShortKey(), s.Table(), key.fn, Number(w, n));
        }
      }
      var parts := if status.lfn then Parts(nlen) else 0;
      ghost var t := St();
      KeptFields(s, t);
      KeptExtended(s, t);
      res, at, room := PlaceEntries(w, parts);
      LiveEarlier(s, t);
      if res == Denied {
        ExtendedMore(s, t, St());
      }
      if res == Ok {
        KeptElsewhere(s, t, St());
        Registration(up, key, ShortKey(), s.Table(), room, St().Table(), at, w, parts, fn, status.ntCase);
      }
    }
  }

  lemma SfnName(fn: seq<byte>, ntCase: byte)
    requires |fn| == 11
    ensures SfnEntry(fn, ntCase)[..11] == fn == fn[..11]
  {
  }

  lemma BlockIs(room: seq<Entry>, t': seq<Entry>, at: nat, w: seq<word>, parts: nat, sfn: Entry)
    requires parts <= 20 && parts <= at && |t'| == |room| && at < |room| && HasBlock(t', at - parts, w, parts, sfn)
    requires t'[..at - parts] == room[..at - parts] && t'[at + 1..] == room[at + 1..]
    ensures BlockWritten(room, t', at, w, parts, sfn)
  {
  }

  lemma RunInside(t: seq<Entry>, i: nat, n: nat)
    requires BlankRun(t, i, n)
    ensures n <= i
  {
  }

  /** The consequences of a block written where there was room, for the key of the name and for that of the short
      name. */
  lemma Registration(up: word -> word, key: Key, short: Key, t: seq<Entry>, room: seq<Entry>, t': seq<Entry>,
                     at: nat, w: seq<word>, parts: nat, fn: seq<byte>, ntCase: byte)
    requires t <= room && (forall k :: |t| <= k < |room| ==> room[k][0] == 0)
    requires |fn| == 11 && fn[0] != 0 && fn[0] != DDEM && short.fn == fn && !short.loss
    requires BlankRun(room, at + 1, parts + 1) && BlockWritten(room, t', at, w, parts, SfnEntry(fn, ntCase))
    requires if key.loss then Find(up, short, t, 0, NOTHING) == None && parts > 0 else key.fn == fn
    requires Holding(key.buf, w) && (parts == 0 || parts == Parts(|w|))
    ensures Placed(t, room, t', at, w, parts, SfnEntry(fn, ntCase))
    ensures Ended(t) ==> Ended(t') && LiveKept(t, t')
    ensures Ended(t) && Unique(t) && Find(up, key, t, 0, NOTHING) == None ==> Unique(t')
    ensures Ended(t) && Find(up, key, t, 0, NOTHING) == None && !key.noLfn ==> FoundAgain(up, key, t', at, w)
    ensures Ended(t) && NoOrphans(t) && LongUnique(up, t) && Find(up, key, t, 0, NOTHING) == None && !key.noLfn ==>
              NoOrphans(t') && LongUnique(up, t')
    ensures Ended(t) && parts > 0 && fn[0] != 0x2E ==> forall buf: Buffer :: Lists(Listing(t', 0, buf), at, w)
  {
    hide Find, BlockWritten, HasBlock, BlankRun, Ended, Unique, SfnEntry, Free, IsObject, NoOrphans, LongUnique,
      Lists, Listing, Stops;
    var sfn := SfnEntry(fn, ntCase);
    SfnEntryFacts(fn, ntCase);
    if Ended(t) {
      PlacedEnded(t, room, t', at, w, parts, sfn);
      if Find(up, key, t, 0, NOTHING) == None {
        if Unique(t) {
          PlacedUnique(up, if key.loss then short else key, t, room, t', at, w, parts, sfn);
        }
        if !key.noLfn {
          FoundExactly(up, key, t, room, t', at, w, parts, sfn);
          if NoOrphans(t) && LongUnique(up, t) {
            PlacedLongUnique(up, key, t, room, t', at, w, parts, sfn);
          }
        }
      }
      if parts > 0 && fn[0] != 0x2E {
        forall buf: Buffer
          ensures Lists(Listing(t', 0, buf), at, w)
        {
          PlacedRead(t, room, t', at, w, sfn, buf);
        }
      }
    }
  }

  lemma NumberedLength(dst: seq<byte>, src: seq<byte>, k: nat)
    requires Numbered(dst, src, k)
    ensures |dst| == 11
  {
  }

  lemma NoRun(t: seq<Entry>, n: nat)
    requires n >= 1
    ensures BlankRun(t, 0, 0) && NoRoomBefore(t, 0, n)
  {
  }
}
