/**
  The FIL object: f_read, f_write, f_lseek and f_truncate over a cluster chain, through a private
  one-sector buffer and direct multi-sector transfers.
 */
module FileIO {
  import opened Bytes
  import opened Volume
  import opened Arith
  import opened Chains
  import opened FatTable
  import opened FileBytes
  import opened FileState
  import opened FileSystem

  class Fil {
    const fs: Fatfs
    const buf: array<byte>
    /** FA_READ and FA_WRITE of the open mode. */
    const canRead: bool
    const canWrite: bool
    var sclust: dword
    var objsize: dword
    var fptr: dword
    var clust: dword
    var sect: dword
    var dirty: bool
    var modified: bool
    var err: FResult
    /** The file's clusters, the chains of all other objects, and the cluster of the buffered sector. */
    ghost var chain: seq<nat>
    ghost var others: set<seq<nat>>
    ghost var home: nat
    /** The disk and the sector in the window when the file was opened, or when another object was last used. */
    ghost var base: seq<Sector>
    ghost var window: nat
    /** The file's clusters and the free ones together. */
    ghost var total: nat
    /** No truncation has taken away the cluster of the buffered sector since then. */
    ghost var steady: bool

    ghost function St(): State
      requires fs.Valid()
      reads this, buf, fs`winsect, fs`wflag, fs`mirrorLost, fs.win, fs.disk
    {
      State(fs.g, fs.Fat(), fs.View(), fs.winsect, chain, others, buf[..], sect, home, dirty,
            base, total, window, steady)
    }

    /** Everything that holds at every point of every operation. */
    ghost predicate Core()
      reads this, buf, fs`winsect, fs`wflag, fs`mirrorLost, fs.win, fs.disk
    {
      && buf != fs.win && buf.Length == SS && fs.Valid() && St().Ok()
      && sclust == (if chain == [] then 0 else chain[0])
      && fptr <= objsize <= SS * |St().Secs()|
    }

    /** clust is the cluster of the last byte before the file pointer; inside a sector, the buffer holds it. */
    ghost predicate Placed()
      requires Core()
      reads this, buf, fs`winsect, fs`wflag, fs`mirrorLost, fs.win, fs.disk
    {
      && (fptr > 0 ==> ClusterIndex(fs.g, fptr - 1) < |chain| && clust == chain[ClusterIndex(fs.g, fptr - 1)])
      && (fptr % SS != 0 ==> sect == St().Secs()[fptr / SS])
    }

    /** The pointer is at the end of the allocated chain. */
    ghost predicate AtEnd()
      requires Core()
      reads this, buf, fs`winsect, fs`wflag, fs`mirrorLost, fs.win, fs.disk
    {
      fptr == SS * |St().Secs()|
    }

    ghost predicate Valid()
      reads this, buf, fs`winsect, fs`wflag, fs`mirrorLost, fs.win, fs.disk
    {
      Core() && Placed()
    }

    /** Whatever has become of the file, the chains of all other objects and their sectors are as they were. */
    ghost predicate Spared()
      reads this`others, this`base, fs`winsect, fs`wflag, fs`mirrorLost, fs.win, fs.disk
    {
      fs.Valid() && Intact(fs.g, fs.Fat(), fs.View(), others, base)
    }

    lemma SparedNow()
      requires Core()
      ensures Spared()
    {
      hide PowerOfTwo, EntryLimit, FatBytes, Forest, Sectors, Geometry.End, Fatfs.View, Fatfs.Valid, Fatfs.Fat,
        State.Ok, Intact;
      StillIntact(St());
    }

    /** The clusters the file has and could have. */
    lemma AllClusters()
      requires Core()
      ensures total == |chain| + Zeros(fs.Fat())
    {
      hide PowerOfTwo, EntryLimit, FatBytes, Forest, Sectors, Geometry.End, Fatfs.View, Fatfs.Valid, Fatfs.Fat, Zeros,
        State.Apart, State.Buffered, State.Isolated;
    }

    lemma RoomUsed()
      requires Core() && AtEnd() && forall c :: 2 <= c < fs.g.nFatent ==> fs.Fat()[c] != 0
      ensures fptr == fs.g.csize * SS * total
    {
      hide PowerOfTwo, EntryLimit, FatBytes, Forest, Sectors, Geometry.End, Fatfs.View, Fatfs.Valid, Fatfs.Fat,
        State.Ok;
      UsedUp(St(), fptr);
    }

    /** The file contents. */
    ghost function Contents(): (r: seq<byte>)
      requires Core()
      reads this, buf, fs`winsect, fs`wflag, fs`mirrorLost, fs.win, fs.disk
      ensures |r| == objsize
    {
      St().Data(objsize)
    }

    /** Opening an existing object: the pointer at the top, no sector buffered. */
    constructor (vol: Fatfs, start: dword, size: dword, read: bool, write: bool, ghost ch: seq<nat>,
      ghost rest: set<seq<nat>>)
      requires vol.Valid() && Opened(vol.g, vol.Fat(), vol.View(), vol.winsect, ch, rest).Ok()
      requires start == (if ch == [] then 0 else ch[0]) && size <= SS * |Sectors(vol.g, ch)|
      ensures fs == vol && fresh(buf) && canRead == read && canWrite == write
      ensures Valid() && fptr == 0 && err == Ok && chain == ch && others == rest && objsize == size
      ensures base == vol.View()
    {
      hide PowerOfTwo, EntryLimit, FatBytes, Sectors, Geometry.End, Forest, Fatfs.View, Fatfs.Valid, Fatfs.Fat, Zeros,
        State.Apart, State.Buffered, State.Isolated, State.Balanced, Intact;
      fs, canRead, canWrite := vol, read, write;
      base, window, total, steady := vol.View(), vol.winsect, Zeros(vol.Fat()) + |ch|, true;
      sclust, objsize, fptr, clust, sect := start, size, 0, 0, 0;
      dirty, modified, err := false, false, Ok;
      chain, others, home := ch, rest, 0;
      buf := new byte[SS](i => 0);
      new;
      assert buf[..] == seq(SS, i => 0);
      assert St() == Opened(vol.g, vol.Fat(), vol.View(), vol.winsect, ch, rest);
    }

    /** Between operations: the other objects, and the disk and the window as they are now. */
    ghost method Resume(rest: set<seq<nat>>)
      requires fs.Valid()
      modifies this`others, this`base, this`window, this`total, this`steady
      ensures St() == Remarked(old(St()), rest)
    {
      hide PowerOfTwo, EntryLimit, FatBytes, Sectors, Fatfs.View, Fatfs.Valid, Fatfs.Fat, Zeros;
      steady := sect == 0 || home in chain;
      others, base, window, total := rest, fs.View(), fs.winsect, Zeros(fs.Fat()) + |chain|;
    }

    /** Write back the dirty buffer. */
    method FlushBuffer() returns (res: FResult)
      requires Core()
      modifies this`dirty, fs.disk
      ensures fs.Valid() && (res == Ok || (res == DiskErr && Spared()))
      ensures res == Ok ==> Core() && !dirty && Contents() == old(Contents()) && fs.Fat() == old(fs.Fat())
      ensures fs.disk.reliable ==> res == Ok
    {
      hide PowerOfTwo, EntryLimit, FatBytes, Forest, Sectors, Geometry.End, Geometry.FirstSector, Fatfs.View,
        Fatfs.Valid, Geometry.Valid, State.Data, Zeros, Intact;
      res := Ok;
      if dirty {
        ghost var s := St();
        ClusterBounds(fs.g, home);
        var ok := fs.WriteData(sect, [buf[..]]);
        if !ok {
          TornFlush(s, fs.View());
          return DiskErr;
        }
        assert fs.View()[sect] == fs.View()[sect..sect + 1][0];
        dirty := false;
        AfterFlush(s, St(), objsize);
      }
    }

    /** Fill the clean buffer with a sector of cluster c. */
    method FillBuffer(sector: dword, ghost c: nat) returns (res: FResult)
      requires Core() && !dirty && St().Mine(c) && fs.g.InCluster(sector, c) && c in chain
      modifies this`sect, this`home, buf
      ensures res == Ok || (res == DiskErr && Spared())
      ensures res == Ok ==> Core() && sect == sector && home == c && Contents() == old(Contents())
      ensures fs.disk.reliable ==> res == Ok
    {
      hide PowerOfTwo, EntryLimit, FatBytes, Forest, Sectors, Geometry.FirstSector, Fatfs.View, Fatfs.Fat,
        Fatfs.Valid, Geometry.Valid, Geometry.End, Splice, Intact;
      ghost var s := St();
      ClusterBounds(fs.g, c);
      SparedNow();
      var ok, data := fs.ReadData(sector, 1);
      if !ok { return DiskErr; }
      assert data[0] == fs.View()[sector];
      CopyIn(0, data[0]);
      sect, home, res := sector, c, Ok;
      AfterFill(s, St(), sector, c, objsize);
    }

    /** mem_cpy into the buffer. */
    method CopyIn(off: nat, w: seq<byte>)
      requires buf.Length == SS && off + |w| <= SS
      modifies buf
      ensures buf[..] == Splice(old(buf[..]), off, w)
      ensures |w| == SS ==> buf[..] == w
    {
      for k := 0 to |w|
        invariant forall i :: 0 <= i < SS ==> buf[i] == if off <= i < off + k then w[i - off] else old(buf[i])
      {
        buf[off + k] := w[k];
      }
    }

    /** get_fat on a cluster of the file. */
    method FatEntry(c: dword) returns (v: dword)
      requires Core() && fs.g.IsCluster(c)
      modifies fs`winsect, fs`wflag, fs`mirrorLost, fs.win, fs.disk
      ensures Core() && Contents() == old(Contents()) && fs.Fat() == old(fs.Fat())
      ensures v == DISK_ERROR || v == fs.Fat()[c]
      ensures fs.disk.reliable ==> v != DISK_ERROR
    {
      hide PowerOfTwo, EntryLimit, FatBytes, Forest, Sectors, Geometry.End, Fatfs.View, Fatfs.Valid, Intact;
      ghost var s := St();
      v := fs.GetFat(c);
      AfterFatRead(s, St(), objsize);
    }

    /** f_read: find the cluster of the next byte. */
    method LocateForRead() returns (res: FResult)
      requires Valid() && fptr < objsize && fptr % SS == 0
      modifies this`clust, fs`winsect, fs`wflag, fs`mirrorLost, fs.win, fs.disk
      ensures fs.Valid() && (res == Ok || (res == DiskErr && Spared()))
      ensures res == Ok ==>
                && Core() && Contents() == old(Contents()) && fs.Fat() == old(fs.Fat())
                && ClusterIndex(fs.g, fptr) < |chain| && clust == chain[ClusterIndex(fs.g, fptr)]
      ensures fs.disk.reliable ==> res == Ok
    {
      hide PowerOfTwo, EntryLimit, FatBytes, Sectors, Geometry.End, Fatfs.View, Fatfs.Valid, State.Ok, And,
        Geometry.Valid, Fatfs.Fat, Zeros, Intact;
      var g := fs.g;
      SectorMask(St(), fptr / SS);
      ClusterIndexInChain(St(), fptr);
      if fptr > 0 { ClusterAtBoundary(St(), fptr); }
      res := Ok;
      if And(fptr / SS, g.csize - 1) == 0 {
        var clst;
        if fptr == 0 {
          clst := sclust;
        } else {
          clst := FatEntry(clust);
        }
        if clst < 2 { return IntErr; }
        if clst == DISK_ERROR {
          SparedNow();
          return DiskErr;
        }
        clust := clst;
      }
    }

    /** disk_read of consecutive sectors of the file, the dirty buffer laid over them. */
    method FetchRun(sector: dword, cc: nat) returns (ok: bool, chunk: seq<byte>)
      requires Core() && fptr % SS == 0 && fptr + SS * cc <= objsize
      requires Consecutive(St().Secs(), fptr / SS, sector, cc) && sector + cc <= |fs.disk.store|
      requires !(sector <= fs.winsect < sector + cc)
      ensures ok ==> chunk == Contents()[fptr..fptr + SS * cc]
      ensures fs.disk.reliable ==> ok
    {
      hide PowerOfTwo, EntryLimit, FatBytes, Sectors, Geometry.End, Fatfs.View, State.Ok, Geometry.Valid, Consecutive,
        Flat, Intact;
      chunk := [];
      var data: seq<Sector>;
      ok, data := fs.ReadData(sector, cc);
      if ok {
        if dirty && Sub32(sect, sector) < cc {
          data := data[sect - sector := buf[..]];
        }
        DirectRead(St(), objsize, fptr, data, sector);
        chunk := Flat(data);
      }
    }

    /** The sector of the pointer in its cluster, and how many whole sectors to transfer at once: clipped at the end of
        the cluster. */
    method SectorsToGo(n: nat) returns (csect: nat, cc: nat)
      requires Core() && n >= SS
      ensures 0 < fs.g.csize && csect == fptr / SS % fs.g.csize && 0 < cc && csect + cc <= fs.g.csize && SS * cc <= n
    {
      hide PowerOfTwo, EntryLimit, FatBytes, Sectors, Geometry.End, Fatfs.View, Fatfs.Valid, Fatfs.Fat, State.Ok, And,
        Geometry.Valid, State.Data, Intact;
      SectorMask(St(), fptr / SS);
      csect := And(fptr / SS, fs.g.csize - 1);
      cc := n / SS;
      if csect + cc > fs.g.csize { cc := fs.g.csize - csect; }
    }

    /** f_read: transfer whole sectors up to the end of the cluster. */
    method ReadDirect(btr: dword) returns (res: FResult, chunk: seq<byte>)
      requires Core() && fptr % SS == 0 && SS <= btr <= objsize - fptr
      requires ClusterIndex(fs.g, fptr) < |chain| && clust == chain[ClusterIndex(fs.g, fptr)]
      modifies this`fptr
      ensures res == Ok || (res == DiskErr && Spared())
      ensures res == Ok ==>
                && Valid() && 0 < |chunk| <= btr && fptr == old(fptr) + |chunk|
                && Contents() == old(Contents()) && chunk == Contents()[old(fptr)..fptr]
      ensures fs.disk.reliable ==> res == Ok
    {
      hide PowerOfTwo, EntryLimit, FatBytes, Sectors, Geometry.End, Fatfs.View, State.Ok, And, Geometry.Valid,
        Geometry.ClstToSect, Consecutive, Fatfs.Fat, Intact, Fil.Spared, State.Data, State.Mine, ClusterIndex;
      fs.DiskBounds();
      SparedNow();
      ghost var s := St();
      var csect, cc := SectorsToGo(btr);
      SectorOfPosition(s, fptr, cc);
      var ok;
      ok, chunk := FetchRun(fs.g.ClstToSect(clust) + csect, cc);
      if !ok { return DiskErr, chunk; }
      EndOfRun(fs.g, fptr, cc);
      fptr, res := fptr + SS * cc, Ok;
    }

    /** Make the buffer hold a sector of cluster c, writing back what it held. */
    method SwapBuffer(sector: dword, ghost c: nat) returns (res: FResult)
      requires Core() && St().Mine(c) && fs.g.InCluster(sector, c) && c in chain
      modifies this`dirty, this`sect, this`home, buf, fs.disk
      ensures fs.Valid() && (res == Ok || (res == DiskErr && Spared()))
      ensures res == Ok ==> Core() && Contents() == old(Contents()) && fs.Fat() == old(fs.Fat()) && sect == sector
      ensures fs.disk.reliable ==> res == Ok
    {
      hide PowerOfTwo, EntryLimit, FatBytes, Sectors, Geometry.End, Fatfs.View, Fatfs.Valid, Fatfs.Fat, State.Ok,
        Geometry.Valid, State.Data, Intact;
      res := Ok;
      if sect != sector {
        res := FlushBuffer();
        if res == Ok {
          res := FillBuffer(sector, c);
        }
      }
    }

    /** f_read: bring the sector of the file pointer into the buffer. */
    method LoadCurrent() returns (res: FResult)
      requires Core() && fptr % SS == 0 && fptr < objsize
      requires ClusterIndex(fs.g, fptr) < |chain| && clust == chain[ClusterIndex(fs.g, fptr)]
      modifies this`dirty, this`sect, this`home, buf, fs.disk
      ensures fs.Valid() && (res == Ok || (res == DiskErr && Spared()))
      ensures res == Ok ==> Core() && Contents() == old(Contents()) && fs.Fat() == old(fs.Fat())
      ensures res == Ok ==> sect == St().Secs()[fptr / SS]
      ensures fs.disk.reliable ==> res == Ok
    {
      hide PowerOfTwo, EntryLimit, FatBytes, Sectors, Geometry.End, Fatfs.View, Fatfs.Valid, Fatfs.Fat, State.Ok, And,
        Geometry.Valid, Geometry.ClstToSect, Consecutive, State.Data, State.Mine, Intact;
      SectorMask(St(), fptr / SS);
      SectorOfPosition(St(), fptr, 1);
      res := SwapBuffer(fs.g.ClstToSect(clust) + And(fptr / SS, fs.g.csize - 1), clust);
    }

    /** f_read: extract part of the buffered sector. */
    method CopyOut(btr: dword) returns (chunk: seq<byte>)
      requires Core() && 0 < btr <= objsize - fptr && sect == St().Secs()[fptr / SS]
      requires ClusterIndex(fs.g, fptr) < |chain| && clust == chain[ClusterIndex(fs.g, fptr)]
      modifies this`fptr
      ensures Valid() && 0 < |chunk| <= btr && fptr == old(fptr) + |chunk|
      ensures Contents() == old(Contents()) && chunk == Contents()[old(fptr)..fptr]
    {
      hide PowerOfTwo, EntryLimit, FatBytes, Sectors, Geometry.End, Fatfs.View, Fatfs.Valid, State.Ok, Geometry.Valid,
        State.Data, Fatfs.Fat, Intact;
      var rcnt := SS - fptr % SS;
      if rcnt > btr { rcnt := btr; }
      chunk := buf[fptr % SS..fptr % SS + rcnt];
      BufferedAt(St(), fptr);
      BufferBytes(St(), objsize, fptr, rcnt);
      EndOfPart(fs.g, fptr, rcnt);
      fptr := fptr + rcnt;
    }

    /** One round of f_read: deliver at least one byte. */
    method ReadChunk(btr: dword) returns (res: FResult, chunk: seq<byte>)
      requires Valid() && 0 < btr <= objsize - fptr
      modifies this`fptr, this`clust, this`dirty, this`sect, this`home, buf, fs`winsect, fs`wflag, fs`mirrorLost,
               fs.win, fs.disk
      ensures fs.Valid() && (res == Ok || (res == DiskErr && Spared()))
      ensures res == Ok ==>
                && Valid() && 0 < |chunk| <= btr && fptr == old(fptr) + |chunk|
                && Contents() == old(Contents()) && chunk == Contents()[old(fptr)..fptr]
                && fs.Fat() == old(fs.Fat())
      ensures fs.disk.reliable ==> res == Ok
    {
      hide PowerOfTwo, EntryLimit, FatBytes, Sectors, Geometry.End, Fatfs.View, Fatfs.Valid, Fatfs.Fat, State.Ok,
        Geometry.Valid, Intact;
      chunk := [];
      if fptr % SS == 0 {
        res := LocateForRead();
        if res != Ok { return; }
        if btr / SS > 0 {
          res, chunk := ReadDirect(btr);
          return;
        }
        res := LoadCurrent();
        if res != Ok { return; }
      } else {
        SameSectorIndex(fs.g, fptr);
      }
      chunk := CopyOut(btr);
      res := Ok;
    }

    /** The loop of f_read. */
    method ReadLoop(total: dword) returns (res: FResult, data: seq<byte>)
      requires Valid() && total <= objsize - fptr
      modifies this`fptr, this`clust, this`dirty, this`sect, this`home, buf, fs`winsect, fs`wflag, fs`mirrorLost,
               fs.win, fs.disk
      ensures fs.Valid() && (res == Ok || (res == DiskErr && Spared()))
      ensures res == Ok ==>
                && Valid() && Contents() == old(Contents()) && fs.Fat() == old(fs.Fat())
                && fptr == old(fptr) + total && data == Contents()[old(fptr)..fptr]
      ensures fs.disk.reliable ==> res == Ok
    {
      hide PowerOfTwo, EntryLimit, FatBytes, Sectors, Geometry.End, Fatfs.View, Fatfs.Valid, Fatfs.Fat, State.Ok,
        Geometry.Valid, Fil.Placed, State.Data, Intact;
      data, res := [], Ok;
      var btr := total;
      ghost var start, all := fptr, Contents();
      while btr > 0
        invariant Valid() && Contents() == all && fs.Fat() == old(fs.Fat()) && res == Ok
        invariant fptr == start + |data| && |data| + btr == total && 0 <= btr
        invariant data == all[start..fptr]
        decreases btr
      {
        var chunk;
        res, chunk := ReadChunk(btr);
        if res != Ok { return; }
        data := data + chunk;
        btr := btr - |chunk|;
      }
    }

    /** f_read: the bytes at the file pointer, as many as asked for and available. */
    method Read(count: dword) returns (res: FResult, data: seq<byte>)
      requires Valid()
      modifies this`fptr, this`clust, this`dirty, this`sect, this`home, this`err, buf
      modifies fs`winsect, fs`wflag, fs`mirrorLost, fs.win, fs.disk
      ensures Spared()
      ensures old(err) != Ok ==> res == old(err)
      ensures old(err) == Ok && !canRead ==> res == Denied
      ensures old(err) != Ok || !canRead ==> Valid() && Contents() == old(Contents()) && fptr == old(fptr)
      ensures res == Ok ==>
                && Valid() && err == Ok && Contents() == old(Contents()) && fs.Fat() == old(fs.Fat())
                && fptr == old(fptr) + (if count < objsize - old(fptr) then count else objsize - old(fptr))
                && data == Contents()[old(fptr)..fptr]
      ensures fs.disk.reliable && old(err) == Ok && canRead ==> res == Ok
    {
      hide PowerOfTwo, EntryLimit, FatBytes, Sectors, Geometry.End, Fatfs.View, Fatfs.Valid, Fatfs.Fat, State.Ok,
        Geometry.Valid, State.Data, Intact;
      data := [];
      SparedNow();
      if err != Ok { return err, data; }
      if !canRead { return Denied, data; }
      var btr: dword := objsize - fptr;
      if count < btr { btr := count; }
      res, data := ReadLoop(btr);
      if res == Ok { SparedNow(); } else { err := res; }
    }

    /** create_chain behind the i-th cluster of the file. */
    method CreateNext(clst: dword, ghost i: int) returns (ncl: dword)
      requires Core() && -1 <= i < |chain| && clst == if i == -1 then 0 else chain[i]
      modifies fs, fs.win, fs.disk
      ensures fs.Valid() && ncl != INTERNAL_ERROR && (ncl == DISK_ERROR ==> Spared())
      ensures ncl != DISK_ERROR ==> Continued(old(St()), St().(chain := ChainAfter(old(St()), i, ncl)), i, ncl)
      ensures ncl != DISK_ERROR && old(fs.Counted()) ==> fs.Counted()
      ensures ncl == 0 && old(fs.Counted()) ==> forall c :: 2 <= c < fs.g.nFatent ==> fs.Fat()[c] != 0
      ensures fs.disk.reliable ==> ncl != DISK_ERROR
    {
      hide PowerOfTwo, EntryLimit, FatBytes, Sectors, Geometry.End, Fatfs.View, Fatfs.Valid, CountAccurate, Created,
        State.Ok, State.Data, Intact;
      ghost var s := St();
      ChainInUse(s);
      ncl := fs.CreateChain(clst);
      if ncl == DISK_ERROR { TornLink(s, fs.Fat(), fs.View(), clst); }
    }

    /** create_chain for the file: the cluster after the i-th (i = -1 before the first), taking a free one
        at the end of the chain. 0 when the volume is full. */
    method NextCluster(clst: dword, ghost i: int) returns (ncl: dword)
      requires Core() && -1 <= i < |chain|
      requires clst == if i == -1 then 0 else chain[i]
      requires i == -1 ==> chain == []
      modifies this`chain, this`sclust, fs, fs.win, fs.disk
      ensures fs.Valid() && ncl != INTERNAL_ERROR && (ncl == DISK_ERROR ==> Spared())
      ensures ncl != DISK_ERROR ==> Core() && Contents() == old(Contents())
      ensures ncl != DISK_ERROR && old(fs.Counted()) ==> fs.Counted()
      ensures ncl == 0 ==> chain == old(chain) && fs.Fat() == old(fs.Fat()) && i + 1 == |chain|
      ensures ncl == 0 && old(fs.Counted()) ==> forall c :: 2 <= c < fs.g.nFatent ==> fs.Fat()[c] != 0
      ensures ncl >= 2 && ncl != DISK_ERROR ==>
                && i + 1 < |chain| && ncl == chain[i + 1]
                && chain == if i + 1 < |old(chain)| then old(chain) else old(chain) + [ncl]
      ensures fs.disk.reliable ==> ncl != DISK_ERROR
    {
      hide PowerOfTwo, EntryLimit, FatBytes, Sectors, Geometry.End, Fatfs.View, Fatfs.Valid, CountAccurate, Continued,
        State.Ok, State.Data, Intact;
      ghost var s := St();
      if chain != [] { ChainHead(s); }
      ncl := CreateNext(clst, i);
      if ncl == DISK_ERROR { return; }
      if sclust == 0 { sclust := ncl; }
      chain := ChainAfter(s, i, ncl);
      AfterCreate(s, St(), i, ncl, objsize);
    }

    /** f_write: the cluster of the next byte at a cluster boundary, 0 if there is none and the volume is full. */
    method BoundaryCluster() returns (clst: dword)
      requires Valid() && fptr % SS == 0 && fs.g.csize > 0 && fptr / SS % fs.g.csize == 0
      modifies this`chain, this`sclust, fs, fs.win, fs.disk
      ensures fs.Valid() && clst != INTERNAL_ERROR && (clst == DISK_ERROR ==> Spared())
      ensures clst != DISK_ERROR ==> Core() && Contents() == old(Contents())
      ensures clst != DISK_ERROR && old(fs.Counted()) ==> fs.Counted()
      ensures clst == 0 ==> chain == old(chain) && Need(fs.g, fptr) == |chain|
      ensures clst == 0 && old(fs.Counted()) ==> forall c :: 2 <= c < fs.g.nFatent ==> fs.Fat()[c] != 0
      ensures clst >= 2 && clst != DISK_ERROR ==>
                && ClusterIndex(fs.g, fptr) < |chain| && clst == chain[ClusterIndex(fs.g, fptr)]
                && Reaches(old(chain), chain, ClusterIndex(fs.g, fptr) + 1)
      ensures fs.disk.reliable ==> clst != DISK_ERROR
    {
      hide PowerOfTwo, EntryLimit, FatBytes, Sectors, Geometry.End, Fatfs.View, Fatfs.Valid, Fatfs.Fat, State.Ok,
        Geometry.Valid, CountAccurate, State.Data, Intact;
      if fptr == 0 {
        if chain != [] { ChainHead(St()); }
        clst := sclust;
        if clst == 0 { clst := NextCluster(0, -1); }
      } else {
        BoundaryIndex(fs.g, fptr);
        clst := NextCluster(clust, ClusterIndex(fs.g, fptr - 1));
      }
    }

    /** f_write: find the cluster of the next byte, stretching the chain at its end. */
    method LocateForWrite() returns (res: FResult, full: bool)
      requires Valid() && fptr % SS == 0
      modifies this`clust, this`chain, this`sclust, fs, fs.win, fs.disk
      ensures fs.Valid() && (res == Ok || (res == DiskErr && Spared()))
      ensures res == Ok ==> Core() && Contents() == old(Contents())
      ensures res == Ok && old(fs.Counted()) ==> fs.Counted()
      ensures res == Ok && full ==> Valid() && chain == old(chain) && AtEnd()
      ensures res == Ok && full && old(fs.Counted()) ==> forall c :: 2 <= c < fs.g.nFatent ==> fs.Fat()[c] != 0
      ensures res == Ok && !full ==>
                && ClusterIndex(fs.g, fptr) < |chain| && clust == chain[ClusterIndex(fs.g, fptr)]
                  && fptr / SS < |St().Secs()|
                && Reaches(old(chain), chain, ClusterIndex(fs.g, fptr) + 1)
      ensures fs.disk.reliable ==> res == Ok
    {
      hide PowerOfTwo, EntryLimit, FatBytes, Sectors, Geometry.End, Fatfs.View, Fatfs.Valid, Fatfs.Fat, State.Ok, And,
        Geometry.Valid, CountAccurate, State.Data, ClusterIndex, Intact;
      full, res := false, Ok;
      SectorMask(St(), fptr / SS);
      if And(fptr / SS, fs.g.csize - 1) == 0 {
        var clst := BoundaryCluster();
        if clst == 0 {
          BoundaryEnd(St(), fptr);
          return Ok, true;
        }
        if clst == DISK_ERROR { return DiskErr, full; }
        clust := clst;
        SectorInChain(St(), fptr);
      } else {
        InsideCluster(St(), fptr);
      }
    }

    /** f_write: the buffer takes over the sector it holds, if that was just written past it. */
    method Refill(sector: dword, data: seq<Sector>)
      requires buf != fs.win && buf.Length == SS && sector + |data| <= DWORD_MOD
      modifies buf
      ensures buf[..] == if sector <= sect < sector + |data| then data[sect - sector] else old(buf[..])
    {
      if Sub32(sect, sector) < |data| {
        CopyIn(0, data[sect - sector]);
      }
    }

    /** disk_write of consecutive sectors of the file; the clean buffer is refilled if it holds one of them. */
    method StoreRun(sector: dword, data: seq<Sector>) returns (ok: bool)
      requires Core() && !dirty && fptr % SS == 0 && 0 < |data| && fptr + SS * |data| < DWORD_MOD
      requires Consecutive(St().Secs(), fptr / SS, sector, |data|)
      requires fs.g.database <= sector && sector + |data| <= fs.g.End() && !(sector <= fs.winsect < sector + |data|)
      modifies this`fptr, this`objsize, buf, fs.disk
      ensures fs.Valid() && (!ok ==> Spared())
      ensures ok ==>
                && Core() && Contents() == Splice(old(Contents()), old(fptr), Flat(data))
                && fptr == old(fptr) + SS * |data| && fs.Fat() == old(fs.Fat())
      ensures fs.disk.reliable ==> ok
    {
      hide PowerOfTwo, EntryLimit, FatBytes, Sectors, Fatfs.View, Fatfs.Valid, State.Ok, Geometry.Valid, Consecutive,
        Flat, Splice, State.Data, ClusterIndex, State.Mine, Intact, Zeros, Geometry.InCluster;
      fs.DiskBounds();
      ghost var s := St();
      ok := fs.WriteData(sector, data);
      if !ok { TornRun(s, fs.View(), fptr, sector, |data|); }
      if ok {
        Refill(sector, data);
        ghost var p, size := fptr, objsize;
        fptr := fptr + SS * |data|;
        if fptr > objsize { objsize := fptr; }
        RunFits(s, p, sector, |data|);
        AfterDirectWrite(s, St(), size, p, data, objsize, sector);
      }
    }

    /** f_write: transfer whole sectors up to the end of the cluster. */
    method WriteDirect(w: seq<byte>) returns (res: FResult, wcnt: nat)
      requires Core() && !dirty && fptr % SS == 0 && SS <= |w| && fptr + |w| < DWORD_MOD
      requires ClusterIndex(fs.g, fptr) < |chain| && clust == chain[ClusterIndex(fs.g, fptr)]
      requires fptr / SS < |St().Secs()|
      modifies this`fptr, this`objsize, buf, fs.disk
      ensures fs.Valid() && (res == Ok || (res == DiskErr && Spared()))
      ensures res == Ok ==>
                && Valid() && 0 < wcnt <= |w| && fptr == old(fptr) + wcnt && fs.Fat() == old(fs.Fat())
                && ClusterIndex(fs.g, fptr - 1) == ClusterIndex(fs.g, old(fptr))
                && Contents() == Splice(old(Contents()), old(fptr), w[..wcnt])
      ensures fs.disk.reliable ==> res == Ok
    {
      hide PowerOfTwo, EntryLimit, FatBytes, Sectors, Fatfs.View, Fatfs.Valid, State.Ok, And, Geometry.Valid,
        Geometry.ClstToSect, Consecutive, Flat, Splice, State.Data, Intact;
      ghost var s := St();
      var csect, cc := SectorsToGo(|w|);
      SectorOfPosition(s, fptr, cc);
      EndOfRun(fs.g, fptr, cc);
      FlatToSectors(w, cc);
      wcnt := SS * cc;
      var ok := StoreRun(fs.g.ClstToSect(clust) + csect, ToSectors(w, cc));
      res := if ok then Ok else DiskErr;
    }

    /** Put data into the buffer and let it stand for a sector. */
    method Patch(sector: dword, off: nat, w: seq<byte>, ghost c: nat)
      requires buf != fs.win && buf.Length == SS && fs.Valid() && off + |w| <= SS
      modifies this`sect, this`home, this`dirty, buf
      ensures fs.Valid()
      ensures St() == old(St()).(buf := Splice(old(buf[..]), off, w), sect := sector, home := c, dirty := true)
    {
      hide PowerOfTwo, EntryLimit, FatBytes, Sectors, Fatfs.View, Fatfs.Valid, Fatfs.Fat, Geometry.Valid, Splice;
      sect, home := sector, c;
      CopyIn(off, w);
      dirty := true;
    }

    /** f_write: fit data to the sector of the file pointer in the buffer, which holds that sector already
        or stands at the growing edge of the file. */
    method FitBytes(sector: dword, w: seq<byte>, ghost c: nat)
      requires Core() && 0 < |w| && fptr % SS + |w| <= SS && fptr + |w| < DWORD_MOD
      requires fptr / SS < |St().Secs()| && sector == St().Secs()[fptr / SS]
      requires St().Mine(c) && fs.g.InCluster(sector, c) && (steady ==> c in chain)
      requires sect == sector || (!dirty && fptr % SS == 0 && fptr == objsize)
      modifies this`fptr, this`objsize, this`sect, this`home, this`dirty, buf
      ensures Core() && fptr == old(fptr) + |w| && sect == sector
      ensures Contents() == Splice(old(Contents()), old(fptr), w)
    {
      hide PowerOfTwo, EntryLimit, FatBytes, Sectors, Fatfs.View, Fatfs.Valid, Fatfs.Fat, Geometry.Valid, Splice,
        State.Data, Geometry.End, State.Ok, State.Image, State.Mine, Geometry.InCluster, Intact;
      ghost var s, p, size := St(), fptr, objsize;
      Patch(sector, fptr % SS, w, c);
      fptr := fptr + |w|;
      if fptr > objsize { objsize := fptr; }
      AfterPut(s, St(), size, p, w, objsize);
    }

    /** The same, with the pointer placed again. */
    method PutBytes(sector: dword, w: seq<byte>, ghost c: nat)
      requires Core() && 0 < |w| && fptr % SS + |w| <= SS && fptr + |w| < DWORD_MOD
      requires fptr / SS < |St().Secs()| && sector == St().Secs()[fptr / SS]
      requires St().Mine(c) && fs.g.InCluster(sector, c) && (steady ==> c in chain)
      requires sect == sector || (!dirty && fptr % SS == 0 && fptr == objsize)
      requires ClusterIndex(fs.g, fptr) < |chain| && clust == chain[ClusterIndex(fs.g, fptr)]
      modifies this`fptr, this`objsize, this`sect, this`home, this`dirty, buf
      ensures Valid() && fptr == old(fptr) + |w| && ClusterIndex(fs.g, fptr - 1) == ClusterIndex(fs.g, old(fptr))
      ensures Contents() == Splice(old(Contents()), old(fptr), w)
    {
      hide PowerOfTwo, EntryLimit, FatBytes, Sectors, Fatfs.View, Fatfs.Valid, Fatfs.Fat, Geometry.Valid, Splice,
        State.Data, Geometry.End, State.Ok, State.Image, ClusterIndex, State.Mine, Geometry.InCluster, Intact;
      EndOfPart(fs.g, fptr, |w|);
      FitBytes(sector, w, c);
    }

    /** f_write: store less than the rest of a sector through the buffer. */
    method WritePartial(w: seq<byte>) returns (res: FResult, wcnt: nat)
      requires Core() && 0 < |w| && fptr + |w| < DWORD_MOD && fptr / SS < |St().Secs()|
      requires ClusterIndex(fs.g, fptr) < |chain| && clust == chain[ClusterIndex(fs.g, fptr)]
      requires if fptr % SS == 0 then !dirty else sect == St().Secs()[fptr / SS]
      modifies this`fptr, this`objsize, this`sect, this`home, this`dirty, buf
      ensures fs.Valid() && (res == Ok || (res == DiskErr && Spared()))
      ensures res == Ok ==>
                && Valid() && 0 < wcnt <= |w| && fptr == old(fptr) + wcnt
                && ClusterIndex(fs.g, fptr - 1) == ClusterIndex(fs.g, old(fptr))
                && Contents() == Splice(old(Contents()), old(fptr), w[..wcnt])
      ensures fs.disk.reliable ==> res == Ok
    {
      hide PowerOfTwo, EntryLimit, FatBytes, Sectors, Fatfs.View, Fatfs.Valid, State.Ok, And, Geometry.Valid,
        Geometry.ClstToSect, Consecutive, Splice, State.Data, Geometry.End, ClusterIndex, State.Mine, Intact;
      res := Ok;
      var sector := sect;
      ghost var c := home;
      BufferedAt(St(), fptr);
      if fptr % SS == 0 {
        SectorMask(St(), fptr / SS);
        SectorOfPosition(St(), fptr, 1);
        sector := fs.g.ClstToSect(clust) + And(fptr / SS, fs.g.csize - 1);
        c := clust;
        if sect != sector && fptr < objsize {
          res := FillBuffer(sector, c);
          if res == Ok { BufferHome(St()); }
        }
      } else {
        BufferHome(St());
      }
      wcnt := SS - fptr % SS;
      if wcnt > |w| { wcnt := |w|; }
      if res == Ok {
        PutBytes(sector, w[..wcnt], c);
      }
    }

    /** f_write at a sector boundary: the cluster of the next byte, and the buffer free for its sector. */
    method PrepareSector() returns (res: FResult, full: bool)
      requires Valid() && fptr % SS == 0
      modifies this`clust, this`chain, this`sclust, this`dirty, fs, fs.win, fs.disk
      ensures fs.Valid() && (res == Ok || (res == DiskErr && Spared()))
      ensures res == Ok ==> Core() && Contents() == old(Contents())
      ensures res == Ok && old(fs.Counted()) ==> fs.Counted()
      ensures res == Ok && full ==> Valid() && chain == old(chain) && AtEnd()
      ensures res == Ok && full && old(fs.Counted()) ==> forall c :: 2 <= c < fs.g.nFatent ==> fs.Fat()[c] != 0
      ensures res == Ok && !full ==>
                && ClusterIndex(fs.g, fptr) < |chain| && clust == chain[ClusterIndex(fs.g, fptr)]
                  && fptr / SS < |St().Secs()|
                && Reaches(old(chain), chain, ClusterIndex(fs.g, fptr) + 1) && !dirty
      ensures fs.disk.reliable ==> res == Ok
    {
      hide PowerOfTwo, EntryLimit, FatBytes, Sectors, Fatfs.View, Fatfs.Valid, Fatfs.Fat, State.Ok, Geometry.Valid,
        State.Data, Geometry.End, ClusterIndex, CountAccurate, Reaches, Fil.Placed, Intact;
      res, full := LocateForWrite();
      if res != Ok || full { return; }
      res := FlushBuffer();
    }

    /** One round of f_write: store at least one byte, or find the volume full. */
    method WriteChunk(w: seq<byte>) returns (res: FResult, full: bool, wcnt: nat)
      requires Valid() && 0 < |w| && fptr + |w| < DWORD_MOD
      modifies this`fptr, this`objsize, this`clust, this`chain, this`sclust, this`dirty, this`sect, this`home, buf
      modifies fs, fs.win, fs.disk
      ensures fs.Valid() && (res == Ok || (res == DiskErr && Spared()))
      ensures res == Ok ==> Valid() && fptr == old(fptr) + wcnt && Reaches(old(chain), chain, Need(fs.g, fptr))
      ensures res == Ok && old(fs.Counted()) ==> fs.Counted()
      ensures res == Ok && full ==> wcnt == 0 && Contents() == old(Contents()) && AtEnd()
      ensures res == Ok && full && old(fs.Counted()) ==> forall c :: 2 <= c < fs.g.nFatent ==> fs.Fat()[c] != 0
      ensures res == Ok && !full ==> 0 < wcnt <= |w| && Contents() == Splice(old(Contents()), old(fptr), w[..wcnt])
      ensures fs.disk.reliable ==> res == Ok
    {
      hide PowerOfTwo, EntryLimit, FatBytes, Sectors, Fatfs.View, Fatfs.Valid, Fatfs.Fat, State.Ok, Geometry.Valid,
        Splice, State.Data, Geometry.End, ClusterIndex, CountAccurate, State.Mine, Intact;
      full, wcnt := false, 0;
      if fptr % SS == 0 {
        res, full := PrepareSector();
        if res != Ok || full { return; }
        if |w| / SS > 0 {
          res, wcnt := WriteDirect(w);
          return;
        }
      } else {
        SameSectorIndex(fs.g, fptr);
        InsideSector(St(), fptr);
      }
      res, wcnt := WritePartial(w);
    }

    /** The chain holds what is before the pointer. */
    lemma AtPointer()
      requires Valid()
      ensures Reaches(chain, chain, Need(fs.g, fptr))
    {
    }

    /** The loop of f_write. */
    method WriteLoop(data: seq<byte>) returns (res: FResult, bw: nat)
      requires Valid() && fptr + |data| < DWORD_MOD
      modifies this`fptr, this`objsize, this`clust, this`chain, this`sclust, this`dirty, this`sect, this`home, buf
      modifies fs, fs.win, fs.disk
      ensures fs.Valid() && (res == Ok || (res == DiskErr && Spared()))
      ensures res == Ok ==>
                && Valid() && bw <= |data| && fptr == old(fptr) + bw && Reaches(old(chain), chain, Need(fs.g, fptr))
                && Contents() == Splice(old(Contents()), old(fptr), data[..bw])
                && (bw < |data| ==> AtEnd())
      ensures res == Ok && old(fs.Counted()) ==> fs.Counted()
      ensures res == Ok && bw < |data| && old(fs.Counted()) ==> forall c :: 2 <= c < fs.g.nFatent ==> fs.Fat()[c] != 0
      ensures fs.disk.reliable ==> res == Ok
    {
      hide PowerOfTwo, EntryLimit, FatBytes, Sectors, Fatfs.View, Fatfs.Valid, Fatfs.Fat, State.Ok, Geometry.Valid,
        Splice, State.Data, Geometry.End, ClusterIndex, CountAccurate, Fil.Placed, Need, Reaches, Intact;
      bw, res := 0, Ok;
      AtPointer();
      ghost var all, start := Contents(), fptr;
      var full := false;
      SpliceNothing(all, start);
      while bw < |data| && !full
        invariant Valid() && Reaches(old(chain), chain, Need(fs.g, fptr)) && res == Ok
        invariant bw <= |data| && fptr == start + bw && (full ==> AtEnd())
        invariant Contents() == Splice(all, start, data[..bw])
        invariant old(fs.Counted()) ==> fs.Counted()
        invariant full && old(fs.Counted()) ==> forall c :: 2 <= c < fs.g.nFatent ==> fs.Fat()[c] != 0
        decreases |data| - bw, !full
      {
        ghost var was, p := chain, fptr;
        var wcnt;
        res, full, wcnt := WriteChunk(data[bw..|data|]);
        if res != Ok { return; }
        NeedMonotone(fs.g, p, fptr);
        ReachesMore(old(chain), was, chain, Need(fs.g, p), Need(fs.g, fptr));
        SpliceMore(all, start, data, bw, wcnt, |data| - bw);
        bw := bw + wcnt;
      }
    }

    /** f_write: the part of the data that keeps the file below 4 GiB, found by the wrap-around of the sum. */
    method BelowLimit(n: nat) returns (btw: nat)
      requires n < DWORD_MOD
      ensures btw <= n && fptr + btw <= 0xFFFF_FFFF && (btw < n ==> fptr + btw == 0xFFFF_FFFF)
    {
      btw := n;
      if (fptr + btw) % DWORD_MOD < fptr { btw := 0xFFFF_FFFF - fptr; }
    }

    /** f_write: the part of the data below the limit is stored, as far as there is room. */
    method WriteBelow(data: seq<byte>) returns (res: FResult, bw: nat)
      requires Valid() && |data| < DWORD_MOD && err == Ok && canWrite
      modifies this`fptr, this`objsize, this`clust, this`chain, this`sclust, this`dirty, this`sect, this`home
      modifies buf, fs, fs.win, fs.disk
      ensures Spared()
      ensures res == Ok ==>
                && Valid() && bw <= |data| && fptr == old(fptr) + bw <= 0xFFFF_FFFF
                && Reaches(old(chain), chain, Need(fs.g, fptr))
                && Contents() == Splice(old(Contents()), old(fptr), data[..bw])
                && (bw < |data| ==> AtEnd() || fptr == 0xFFFF_FFFF)
      ensures res == Ok && old(fs.Counted()) ==> fs.Counted()
      ensures res == Ok && bw < |data| && fptr != 0xFFFF_FFFF && old(fs.Counted()) ==>
                forall c :: 2 <= c < fs.g.nFatent ==> fs.Fat()[c] != 0
      ensures fs.disk.reliable ==> res == Ok
    {
      hide PowerOfTwo, EntryLimit, FatBytes, Sectors, Fatfs.View, Fatfs.Valid, Fatfs.Fat, State.Ok, Geometry.Valid,
        Splice, State.Data, Geometry.End, ClusterIndex, CountAccurate, Need, Reaches, Intact, Fil.Spared;
      var btw := BelowLimit(|data|);
      res, bw := WriteLoop(data[..btw]);
      if res == Ok {
        assert data[..btw][..bw] == data[..bw];
        SparedNow();
      }
    }

    /** f_write: overwrite and extend at the file pointer, as far as the file stays below 4 GiB. It ends early only at
        the end of the allocated chain, when no cluster can be had; the chain grows no further than needed. */
    method Write(data: seq<byte>) returns (res: FResult, bw: nat)
      requires Valid() && |data| < DWORD_MOD
      modifies this`fptr, this`objsize, this`clust, this`chain, this`sclust, this`dirty, this`sect, this`home
      modifies this`modified, this`err, buf, fs, fs.win, fs.disk
      ensures Spared()
      ensures old(err) != Ok ==> res == old(err)
      ensures old(err) == Ok && !canWrite ==> res == Denied
      ensures old(err) != Ok || !canWrite ==> Valid() && Contents() == old(Contents()) && fptr == old(fptr)
      ensures res == Ok ==>
                && Valid() && err == Ok && modified && bw <= |data| && fptr == old(fptr) + bw <= 0xFFFF_FFFF
                && Reaches(old(chain), chain, Need(fs.g, fptr))
                && Contents() == Splice(old(Contents()), old(fptr), data[..bw])
                && (bw < |data| ==> AtEnd() || fptr == 0xFFFF_FFFF)
      ensures res == Ok && old(fs.Counted()) ==> fs.Counted()
      ensures res == Ok && bw < |data| && fptr != 0xFFFF_FFFF && old(fs.Counted()) ==>
                forall c :: 2 <= c < fs.g.nFatent ==> fs.Fat()[c] != 0
      ensures res == Ok && old(fs.Counted()) ==>
                var goal, room := old(fptr) + |data|, fs.g.csize * SS * old(|chain| + Zeros(fs.Fat()));
                && (goal <= room && goal < 0x1_0000_0000 ==> bw == |data|)
                && (0xFFFF_FFFF <= room && goal >= 0x1_0000_0000 ==> fptr == 0xFFFF_FFFF)
      ensures fs.disk.reliable && old(err) == Ok && canWrite ==> res == Ok
    {
      hide PowerOfTwo, EntryLimit, FatBytes, Sectors, Fatfs.View, Fatfs.Valid, Fatfs.Fat, State.Ok, Geometry.Valid,
        Splice, State.Data, Geometry.End, ClusterIndex, CountAccurate, Need, Reaches, Intact, Fil.Spared, State.Secs,
        Fatfs.Counted, Zeros, State.Image;
      bw := 0;
      SparedNow();
      if err != Ok { return err, bw; }
      if !canWrite { return Denied, bw; }
      AllClusters();
      res, bw := WriteBelow(data);
      if res != Ok {
        err := res;
        return;
      }
      if bw < |data| && fptr != 0xFFFF_FFFF && old(fs.Counted()) { RoomUsed(); }
      modified := true;
    }

    /** f_lseek: the cluster behind the k-th, which in write mode may be a new one. */
    method FollowOn(ghost k: nat, ghost target: nat) returns (clst: dword)
      requires Core() && k < |chain| && clust == chain[k]
      requires !canWrite ==> SS * (k * fs.g.csize) + SS * fs.g.csize < target <= objsize
      modifies this`chain, this`sclust, fs, fs.win, fs.disk
      ensures fs.Valid() && clst != INTERNAL_ERROR && (clst == DISK_ERROR ==> Spared())
      ensures clst != DISK_ERROR ==> Core() && Contents() == old(Contents())
      ensures clst != DISK_ERROR && old(fs.Counted()) ==> fs.Counted()
      ensures clst == 0 ==> chain == old(chain) && k + 1 == |chain| && canWrite
      ensures clst == 0 && old(fs.Counted()) ==> forall c :: 2 <= c < fs.g.nFatent ==> fs.Fat()[c] != 0
      ensures clst >= 2 && clst != DISK_ERROR ==>
                k + 1 < |chain| && clst == chain[k + 1] && Reaches(old(chain), chain, k + 2)
      ensures fs.disk.reliable ==> clst != DISK_ERROR
    {
      hide PowerOfTwo, EntryLimit, FatBytes, Sectors, Fatfs.View, Fatfs.Valid, Fatfs.Fat, State.Ok, Geometry.Valid,
        State.Data, Geometry.End, CountAccurate, Fil.Placed, Intact;
      if canWrite {
        clst := NextCluster(clust, k);
      } else {
        clst := FollowLink(k, target);
        if clst == DISK_ERROR { SparedNow(); }
      }
    }

    /** f_lseek: follow the chain from its k-th cluster at pos, stretching it in write mode, until the
        offset that remains lies in the current cluster or the volume is full. */
    method SeekFollow(start: dword, left: dword, ghost k0: nat)
        returns (res: FResult, pos: dword, ofs: dword, full: bool, ghost k: nat)
      requires Core() && k0 < |chain| && clust == chain[k0] && start == SS * (k0 * fs.g.csize)
      requires 0 < left && start + left < DWORD_MOD && (!canWrite ==> start + left <= objsize)
      modifies this`clust, this`chain, this`sclust, fs, fs.win, fs.disk
      ensures fs.Valid() && (res == Ok || (res == DiskErr && Spared()))
      ensures res == Ok ==>
                && Core() && Contents() == old(Contents()) && Reaches(old(chain), chain, k + 1)
                && k0 <= k < |chain| && clust == chain[k] && pos == SS * (k * fs.g.csize)
                && if full then ofs == 0 && k + 1 == |chain| && canWrite && pos + SS * fs.g.csize < start + left
                   else 0 < ofs <= SS * fs.g.csize && pos + ofs == start + left
      ensures res == Ok && old(fs.Counted()) ==> fs.Counted()
      ensures res == Ok && full && old(fs.Counted()) ==> forall c :: 2 <= c < fs.g.nFatent ==> fs.Fat()[c] != 0
      ensures fs.disk.reliable ==> res == Ok
    {
      hide PowerOfTwo, EntryLimit, FatBytes, Sectors, Fatfs.View, Fatfs.Valid, Fatfs.Fat, State.Ok, Geometry.Valid,
        State.Data, Geometry.End, CountAccurate, Fil.Placed, Geometry.InCluster, Zeros, Intact, Fil.Spared;
      SectorMask(St(), 0);
      var bcs := fs.g.csize * SS;
      res, pos, ofs, full, k := Ok, start, left, false, k0;
      while ofs > bcs && !full
        invariant Core() && Contents() == old(Contents()) && Reaches(old(chain), chain, k + 1) && res == Ok
        invariant k0 <= k < |chain| && clust == chain[k] && pos == SS * (k * fs.g.csize)
        invariant if full then ofs == 0 && k + 1 == |chain| && canWrite && pos + bcs < start + left
                  else 0 < ofs && pos + ofs == start + left
        invariant old(fs.Counted()) ==> fs.Counted()
        invariant full && old(fs.Counted()) ==> forall c :: 2 <= c < fs.g.nFatent ==> fs.Fat()[c] != 0
        decreases ofs, !full
      {
        var clst := FollowOn(k, pos + ofs);
        if clst == DISK_ERROR { return DiskErr, pos, ofs, full, k; }
        if clst == 0 {
          ofs, full := 0, true;
        } else {
          assert (k + 1) * fs.g.csize == k * fs.g.csize + fs.g.csize;
          pos, ofs, clust, k := pos + bcs, ofs - bcs, clst, k + 1;
        }
      }
    }

    /** f_lseek in read mode: the next cluster of the chain exists, because the offset is within the file. */
    method FollowLink(ghost k: nat, ghost target: nat) returns (clst: dword)
      requires Core() && k < |chain| && clust == chain[k]
      requires SS * (k * fs.g.csize) + SS * fs.g.csize < target <= objsize
      modifies fs`winsect, fs`wflag, fs`mirrorLost, fs.win, fs.disk
      ensures Core() && Contents() == old(Contents()) && fs.Fat() == old(fs.Fat())
      ensures clst == DISK_ERROR || (k + 1 < |chain| && clst == chain[k + 1] >= 2)
      ensures fs.disk.reliable ==> clst != DISK_ERROR
    {
      hide PowerOfTwo, EntryLimit, FatBytes, Sectors, Fatfs.View, Fatfs.Valid, Fatfs.Fat, State.Ok, Geometry.Valid,
        State.Data, Geometry.End, Intact;
      LinkWithin(St(), k, target);
      clst := FatEntry(clust);
    }

    /** Move the pointer into cluster k and extend the file to it. */
    method Advance(pos: dword, ghost k: nat, ghost base: nat)
      requires Core() && k < |chain| && base == k * fs.g.csize && SS * base < pos <= SS * (base + fs.g.csize)
      modifies this`fptr, this`objsize, this`modified
      ensures Core() && fptr == pos && ClusterIndex(fs.g, fptr - 1) == k
      ensures objsize == if pos > old(objsize) then pos else old(objsize)
      ensures Contents()[..old(objsize)] == old(Contents())
    {
      hide PowerOfTwo, EntryLimit, FatBytes, Sectors, Fatfs.View, Fatfs.Valid, Fatfs.Fat, State.Ok, Geometry.Valid,
        State.Data, Geometry.End, ClusterIndex, Intact;
      PositionInCluster(St(), k, base, pos);
      ghost var size := objsize;
      fptr := pos;
      if fptr > objsize {
        objsize := fptr;
        modified := true;
      }
      DataGrows(St(), size, objsize);
    }

    /** f_lseek: settle on a position in cluster k, extend the file to it, and buffer its sector if the
        position is inside one. */
    method SeekSettle(pos: dword, ofs: dword, ghost k: nat) returns (res: FResult)
      requires Core() && k < |chain| && clust == chain[k] && 0 < ofs <= SS * fs.g.csize
      requires pos == SS * (k * fs.g.csize) && pos + ofs < DWORD_MOD
      modifies this`fptr, this`objsize, this`modified, this`sect, this`home, this`dirty, buf, fs.disk
      ensures fs.Valid() && (res == Ok || (res == DiskErr && Spared()))
      ensures res == Ok ==>
                && Valid() && fptr == pos + ofs && ClusterIndex(fs.g, fptr - 1) == k && fs.Fat() == old(fs.Fat())
                && objsize == (if fptr > old(objsize) then fptr else old(objsize))
                && Contents()[..old(objsize)] == old(Contents())
      ensures fs.disk.reliable ==> res == Ok
    {
      hide PowerOfTwo, EntryLimit, FatBytes, Sectors, Fatfs.View, Fatfs.Valid, Fatfs.Fat, State.Ok, Geometry.Valid,
        State.Data, Geometry.End, Geometry.ClstToSect, State.Mine, ClusterIndex, Intact;
      ghost var base := k * fs.g.csize;
      OffsetInSectors(base, ofs);
      Advance(pos + ofs, k, base);
      res := Ok;
      if ofs % SS != 0 {
        SeekSector(St(), k, base, fptr);
        res := SwapBuffer(fs.g.ClstToSect(clust) + ofs / SS, clust);
      }
    }

    /** f_lseek: the first cluster of the chain, creating the chain if there is none. */
    method SeekHead() returns (clst: dword)
      requires Core() && (!canWrite ==> objsize > 0)
      modifies this`chain, this`sclust, fs, fs.win, fs.disk
      ensures fs.Valid() && (clst == DISK_ERROR ==> Spared())
      ensures clst != DISK_ERROR ==> Core() && Contents() == old(Contents())
      ensures clst != DISK_ERROR && clst != 0 ==> chain != [] && clst == chain[0] && Reaches(old(chain), chain, 1)
      ensures clst == 0 ==> chain == old(chain) == [] && canWrite
      ensures clst != DISK_ERROR && old(fs.Counted()) ==> fs.Counted()
      ensures clst == 0 && old(fs.Counted()) ==> forall c :: 2 <= c < fs.g.nFatent ==> fs.Fat()[c] != 0
      ensures fs.disk.reliable ==> clst != DISK_ERROR
    {
      hide PowerOfTwo, EntryLimit, FatBytes, Sectors, Fatfs.View, Fatfs.Valid, Fatfs.Fat, State.Ok, Geometry.Valid,
        State.Data, Geometry.End, CountAccurate, Intact;
      if chain != [] { ChainHead(St()); } else { ChainEnd(St()); }
      clst := sclust;
      if clst == 0 {
        clst := NextCluster(0, -1);
      }
    }

    /** f_lseek: start from the current cluster when the target is in it or behind it, else from the head. */
    method SeekStart(target: dword) returns (res: FResult, start: dword, none: bool, ghost k: nat)
      requires Valid() && 0 < target && (!canWrite ==> target <= objsize)
      modifies this`clust, this`chain, this`sclust, fs, fs.win, fs.disk
      ensures fs.Valid() && (res == Ok || (res == DiskErr && Spared()))
      ensures res == Ok ==> Core() && Contents() == old(Contents())
      ensures res == Ok && !none ==>
                k < |chain| && clust == chain[k] && start == SS * (k * fs.g.csize) < target
                  && Reaches(old(chain), chain, k + 1)
      ensures res == Ok && none ==> chain == old(chain) == [] && canWrite
      ensures res == Ok && old(fs.Counted()) ==> fs.Counted()
      ensures res == Ok && none && old(fs.Counted()) ==> forall c :: 2 <= c < fs.g.nFatent ==> fs.Fat()[c] != 0
      ensures fs.disk.reliable ==> res == Ok
    {
      hide PowerOfTwo, EntryLimit, FatBytes, Sectors, Fatfs.View, Fatfs.Valid, Fatfs.Fat, State.Ok, Geometry.Valid,
        State.Data, Geometry.End, CountAccurate, And, ClusterIndex, Intact;
      res, start, none, k := Ok, 0, false, 0;
      SectorMask(St(), 0);
      var bcs := fs.g.csize * SS;
      if fptr > 0 { SeekFrom(St(), fptr - 1, target - 1); }
      if fptr > 0 && (target - 1) / bcs >= (fptr - 1) / bcs {
        start := (fptr - 1) - And(fptr - 1, bcs - 1);
        k := ClusterIndex(fs.g, fptr - 1);
      } else {
        var clst := SeekHead();
        if clst == DISK_ERROR { return DiskErr, start, none, k; }
        none, clust := clst == 0, clst;
      }
    }

    /** f_lseek from the k-th cluster on. */
    method SeekOn(start: dword, target: dword, ghost k0: nat) returns (res: FResult)
      requires Core() && k0 < |chain| && clust == chain[k0] && start == SS * (k0 * fs.g.csize) < target
      requires !canWrite ==> target <= objsize
      modifies this`fptr, this`objsize, this`clust, this`chain, this`sclust, this`dirty, this`sect, this`home
      modifies this`modified, buf, fs, fs.win, fs.disk
      ensures fs.Valid() && (res == Ok || (res == DiskErr && Spared()))
      ensures res == Ok ==>
                && Valid() && k0 + 1 <= Need(fs.g, fptr) && Reaches(old(chain), chain, Need(fs.g, fptr))
                && objsize == (if fptr > old(objsize) then fptr else old(objsize))
                && Contents()[..old(objsize)] == old(Contents())
                && (fptr == target || (canWrite && AtEnd() && fptr < target))
      ensures res == Ok && old(fs.Counted()) ==> fs.Counted()
      ensures res == Ok && fptr < target && old(fs.Counted()) ==> forall c :: 2 <= c < fs.g.nFatent ==> fs.Fat()[c] != 0
      ensures fs.disk.reliable ==> res == Ok
    {
      hide PowerOfTwo, EntryLimit, FatBytes, Sectors, Fatfs.View, Fatfs.Valid, Fatfs.Fat, State.Ok, Geometry.Valid,
        State.Data, Geometry.End, CountAccurate, ClusterIndex, Reaches, Intact, Fil.Spared, Fil.Placed;
      var pos, ofs, full;
      ghost var k;
      res, pos, ofs, full, k := SeekFollow(start, target - start, k0);
      if res != Ok { return; }
      if full {
        FullClusterEnd(St(), k);
        ofs := fs.g.csize * SS;
      }
      res := SeekSettle(pos, ofs, k);
    }

    /** f_lseek to a position other than the top. */
    method SeekTo(target: dword) returns (res: FResult)
      requires Valid() && 0 < target && (!canWrite ==> target <= objsize)
      modifies this`fptr, this`objsize, this`clust, this`chain, this`sclust, this`dirty, this`sect, this`home
      modifies this`modified, buf, fs, fs.win, fs.disk
      ensures fs.Valid() && (res == Ok || (res == DiskErr && Spared()))
      ensures res == Ok ==>
                && Valid() && Reaches(old(chain), chain, Need(fs.g, fptr))
                && objsize == (if fptr > old(objsize) then fptr else old(objsize))
                && Contents()[..old(objsize)] == old(Contents())
                && (fptr == target || (canWrite && AtEnd() && fptr < target))
      ensures res == Ok && old(fs.Counted()) ==> fs.Counted()
      ensures res == Ok && fptr < target && old(fs.Counted()) ==> forall c :: 2 <= c < fs.g.nFatent ==> fs.Fat()[c] != 0
      ensures fs.disk.reliable ==> res == Ok
    {
      hide PowerOfTwo, EntryLimit, FatBytes, Sectors, Fatfs.View, Fatfs.Valid, Fatfs.Fat, State.Ok, Geometry.Valid,
        State.Data, Geometry.End, CountAccurate, ClusterIndex, Reaches, Intact;
      ghost var was := chain;
      var start, none;
      ghost var k;
      res, start, none, k := SeekStart(target);
      if res != Ok { return; }
      if none {
        ChainEnd(St());
        ReachesNothing(was);
        fptr := 0;
      } else {
        ghost var mid := chain;
        res := SeekOn(start, target, k);
        if res == Ok { ReachesMore(was, mid, chain, k + 1, Need(fs.g, fptr)); }
      }
    }

    /** f_lseek. The pointer moves to the offset, clipped at the file size in read mode and at the end of
        the allocated chain when the volume fills up; the file grows to the pointer. */
    method Lseek(target: dword) returns (res: FResult)
      requires Valid()
      modifies this`fptr, this`objsize, this`clust, this`chain, this`sclust, this`dirty, this`sect, this`home
      modifies this`modified, this`err, buf, fs, fs.win, fs.disk
      ensures Spared()
      ensures old(err) != Ok ==> res == old(err) && Valid() && Contents() == old(Contents()) && fptr == old(fptr)
      ensures res == Ok ==>
                && Valid() && err == Ok && Reaches(old(chain), chain, Need(fs.g, fptr))
                && objsize == (if fptr > old(objsize) then fptr else old(objsize))
                && Contents()[..old(objsize)] == old(Contents())
      ensures res == Ok && !canWrite ==> fptr == if target > old(objsize) then old(objsize) else target
      ensures res == Ok && canWrite ==> fptr == target || (AtEnd() && fptr < target)
      ensures res == Ok && old(fs.Counted()) ==> fs.Counted()
      ensures res == Ok && canWrite && fptr < target && old(fs.Counted()) ==>
                forall c :: 2 <= c < fs.g.nFatent ==> fs.Fat()[c] != 0
      ensures fs.disk.reliable && old(err) == Ok ==> res == Ok
    {
      hide PowerOfTwo, EntryLimit, FatBytes, Sectors, Fatfs.View, Fatfs.Valid, Fatfs.Fat, State.Ok, Geometry.Valid,
        State.Data, Geometry.End, CountAccurate, ClusterIndex, Intact;
      SparedNow();
      if err != Ok { return err; }
      var ofs := target;
      if ofs > objsize && !canWrite { ofs := objsize; }
      if ofs > 0 {
        res := SeekTo(ofs);
        if res == Ok { SparedNow(); } else { err := res; }
      } else {
        fptr, res := 0, Ok;
      }
    }

    /** remove_chain from the k-th cluster of the file on. */
    method Sever(clst: dword, pclst: dword, ghost k: nat) returns (res: FResult, ghost path: seq<nat>)
      requires Core() && k < |chain| && clst == chain[k] && pclst == (if k == 0 then 0 else chain[k - 1])
      modifies fs, fs.win, fs.disk
      ensures fs.Valid() && (res == Ok || (res == DiskErr && Spared()))
      ensures res == Ok ==> Severed(old(St()), St(), k, path)
      ensures res == Ok && old(fs.Counted()) ==> fs.Counted()
      ensures fs.disk.reliable ==> res == Ok
    {
      hide PowerOfTwo, EntryLimit, FatBytes, Sectors, Fatfs.View, Fatfs.Valid, Fatfs.Fat, State.Ok, Geometry.Valid,
        State.Data, Geometry.End, CountAccurate, State.Apart, State.Buffered, IsPath, Exhausted, Freed, Cut, Intact;
      ghost var s := St();
      CutInUse(s, k);
      res, path := fs.RemoveChain(clst, pclst);
      if res == DiskErr { TornCut(s, fs.Fat(), fs.View(), k, path); }
    }

    /** f_truncate: remove the clusters of the chain from the k-th on and end the file at the pointer. */
    method CutTail(clst: dword, pclst: dword, ghost k: nat) returns (res: FResult)
      requires Core() && k < |chain| && clst == chain[k] && pclst == (if k == 0 then 0 else chain[k - 1])
      requires fptr <= SS * (k * fs.g.csize)
      modifies this`chain, this`sclust, this`objsize, this`steady, fs, fs.win, fs.disk
      ensures fs.Valid() && (res == Ok || (res == DiskErr && Spared()))
      ensures res == Ok ==>
                && Core() && chain == old(chain)[..k] && objsize == fptr && Contents() == old(Contents())[..fptr]
                && St().Secs() <= old(St().Secs()) && steady == (old(steady) && (sect != 0 ==> home in chain))
      ensures res == Ok && old(fs.Counted()) ==> fs.Counted()
      ensures fs.disk.reliable ==> res == Ok
    {
      hide PowerOfTwo, EntryLimit, FatBytes, Sectors, Fatfs.View, Fatfs.Valid, Fatfs.Fat, State.Ok, Geometry.Valid,
        State.Data, Geometry.End, CountAccurate, State.Apart, State.Buffered, Severed, Intact, Fil.Spared;
      ghost var s, size := St(), objsize;
      ghost var path;
      if k > 0 { NotZero(s, k - 1); }
      res, path := Sever(clst, pclst, k);
      if res == Ok {
        AfterCut(s, St(), k, path, fptr);
        CutEnd(s, k);
        DataGrows(s, fptr, size);
        steady := steady && (sect != 0 ==> home in chain[..k]);
        chain, objsize := chain[..k], fptr;
        if pclst == 0 { sclust := 0; }
      }
    }

    /** f_truncate: end the file at the file pointer and free the clusters behind it. The buffer is left as it is, even
        over a sector of a cluster that is free now; at a position inside a sector it is not. */
    method Truncate() returns (res: FResult)
      requires Valid()
      modifies this`chain, this`sclust, this`objsize, this`steady, this`dirty, this`modified, this`err
      modifies fs, fs.win, fs.disk
      ensures Spared()
      ensures old(err) != Ok ==> res == old(err)
      ensures old(err) == Ok && !canWrite ==> res == Denied
      ensures old(err) != Ok || !canWrite ==> Valid() && Contents() == old(Contents())
      ensures res == Ok ==>
                && Valid() && err == Ok && fptr == objsize && Contents() == old(Contents())[..fptr]
                && chain <= old(chain)
                && |chain| == (if fptr == old(objsize) then |old(chain)| else Need(fs.g, fptr))
                && steady == (old(steady) && (sect != 0 ==> home in chain))
                && (fptr % SS != 0 || fptr == old(objsize) ==> steady == old(steady))
                && (fptr < old(objsize) ==> !dirty)
      ensures res == Ok && old(fs.Counted()) ==> fs.Counted()
      ensures fs.disk.reliable && old(err) == Ok && canWrite ==> res == Ok
    {
      hide PowerOfTwo, EntryLimit, FatBytes, Sectors, Fatfs.View, Fatfs.Valid, Fatfs.Fat, State.Ok, Geometry.Valid,
        State.Data, Geometry.End, CountAccurate, ClusterIndex, Intact, Fil.Spared, Need;
      SparedNow();
      if err != Ok { return err; }
      if !canWrite { return Denied; }
      res := Ok;
      if sect != 0 { BufferHome(St()); }
      if fptr < objsize {
        res := Shorten();
        modified := true;
        if res == Ok { SparedNow(); } else { err := res; }
      }
    }

    /** f_truncate of a file that has something behind the pointer. */
    method Shorten() returns (res: FResult)
      requires Valid() && fptr < objsize
      modifies this`chain, this`sclust, this`objsize, this`steady, this`dirty, fs, fs.win, fs.disk
      ensures fs.Valid() && (res == Ok || (res == DiskErr && Spared()))
      ensures res == Ok ==>
                && Valid() && objsize == fptr && Contents() == old(Contents())[..fptr]
                && chain <= old(chain) && |chain| == Need(fs.g, fptr)
                && steady == (old(steady) && (sect != 0 ==> home in chain))
                && (fptr % SS != 0 ==> steady == old(steady)) && !dirty
      ensures res == Ok && old(fs.Counted()) ==> fs.Counted()
      ensures fs.disk.reliable ==> res == Ok
    {
      hide PowerOfTwo, EntryLimit, FatBytes, Sectors, Fatfs.View, Fatfs.Valid, Fatfs.Fat, State.Ok, Geometry.Valid,
        State.Data, Geometry.End, CountAccurate, ClusterIndex, Intact, Zeros;
      if fptr % SS != 0 {
        InsideSector(St(), fptr);
        HomeInside(St(), fptr);
      }
      res := DropTail();
      if res == Ok {
        res := FlushBuffer();
      }
    }

    /** f_truncate: find the cut and make it. */
    method DropTail() returns (res: FResult)
      requires Valid() && fptr < objsize
      modifies this`chain, this`sclust, this`objsize, this`steady, fs, fs.win, fs.disk
      ensures fs.Valid() && (res == Ok || (res == DiskErr && Spared()))
      ensures res == Ok ==>
                && Valid() && objsize == fptr && Contents() == old(Contents())[..fptr]
                && chain <= old(chain) && |chain| == Need(fs.g, fptr)
                && steady == (old(steady) && (sect != 0 ==> home in chain))
      ensures res == Ok && old(fs.Counted()) ==> fs.Counted()
      ensures fs.disk.reliable ==> res == Ok
    {
      hide PowerOfTwo, EntryLimit, FatBytes, Sectors, Fatfs.View, Fatfs.Valid, Fatfs.Fat, State.Ok, Geometry.Valid,
        State.Data, Geometry.End, CountAccurate, ClusterIndex, Intact;
      if fptr == 0 {
        ClusterIndexInChain(St(), 0);
        res := CutTail(sclust, 0, 0);
      } else {
        res := DropBehind();
      }
    }

    /** f_truncate at a position other than the top. */
    method DropBehind() returns (res: FResult)
      requires Valid() && 0 < fptr < objsize
      modifies this`chain, this`sclust, this`objsize, this`steady, fs, fs.win, fs.disk
      ensures fs.Valid() && (res == Ok || (res == DiskErr && Spared()))
      ensures res == Ok ==>
                && Core() && objsize == fptr && Contents() == old(Contents())[..fptr]
                && chain <= old(chain) && |chain| == Need(fs.g, fptr) && St().Secs() <= old(St().Secs())
                && steady == (old(steady) && (sect != 0 ==> home in chain))
      ensures res == Ok && old(fs.Counted()) ==> fs.Counted()
      ensures fs.disk.reliable ==> res == Ok
    {
      hide PowerOfTwo, EntryLimit, FatBytes, Sectors, Fatfs.View, Fatfs.Valid, Fatfs.Fat, State.Ok, Geometry.Valid,
        State.Data, Geometry.End, CountAccurate, ClusterIndex, Intact;
      ghost var k := ClusterIndex(fs.g, fptr - 1);
      PointerBound(St(), fptr);
      LastInChain(St(), k);
      if sect != 0 { BufferHome(St()); }
      var ncl := FatEntry(clust);
      if ncl == DISK_ERROR {
        SparedNow();
        return DiskErr;
      }
      if ncl < fs.g.nFatent {
        NextInChain(St(), k);
        res := CutTail(ncl, clust, k + 1);
      } else {
        DataGrows(St(), fptr, objsize);
        objsize, res := fptr, Ok;
      }
    }
  }
}
