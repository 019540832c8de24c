/** Mounting: the boot record is checked, and the geometry of the volume is computed in 32-bit arithmetic. */
module Mount {
  import opened Bytes
  import opened Volume
  import opened Arith
  import opened Storage
  import opened FatTable

  const BS_JMPBOOT := 0
  const BPB_BYTSPERSEC := 11
  const BPB_SECPERCLUS := 13
  const BPB_RSVDSECCNT := 14
  const BPB_NUMFATS := 16
  const BPB_ROOTENTCNT := 17
  const BPB_TOTSEC16 := 19
  const BPB_FATSZ16 := 22
  const BPB_TOTSEC32 := 32
  const BPB_FATSZ32 := 36
  const BPB_FSVER32 := 42
  const BPB_ROOTCLUS32 := 44
  const BS_FILSYSTYPE := 54
  const BS_FILSYSTYPE32 := 82
  const MBR_TABLE := 446
  const SZ_PTE := 16
  const PTE_SYSTEM := 4
  const PTE_STLBA := 8
  const BS_55AA := 510

  datatype Found = NotFat | Fat(g: Geometry)

  /** The fields of a boot record; sizes with a 16-bit and a 32-bit field use the latter when the former is zero. */
  datatype Bpb = Bpb(bytsPerSec: word, csize: byte, nrsv: word, nFats: byte, nRootdir: word,
                     tsect: dword, fsize: dword, fsVer: word, rootClus: dword)
  {
    /** Sectors of all FAT copies and of the whole system area, as numbers. */
    function FatArea(): nat { fsize * nFats as int }

    function RootSectors(): nat { nRootdir / (SS / SZDIRE) }

    function System(): nat { nrsv + FatArea() + RootSectors() }

    /** The system area as 32 bits hold it. */
    function System32(): dword { (nrsv + FatArea() % DWORD_MOD + RootSectors()) % DWORD_MOD }

    function Clusters(): nat
      requires csize != 0
    {
      if tsect < System32() then 0 else (tsect - System32()) / csize
    }
  }

  function Parse(b: Sector): Bpb
  {
    Bpb(LdWord(b, BPB_BYTSPERSEC), b[BPB_SECPERCLUS], LdWord(b, BPB_RSVDSECCNT), b[BPB_NUMFATS],
      LdWord(b, BPB_ROOTENTCNT),
        if LdWord(b, BPB_TOTSEC16) == 0 then LdDword(b, BPB_TOTSEC32) else LdWord(b, BPB_TOTSEC16),
        if LdWord(b, BPB_FATSZ16) == 0 then LdDword(b, BPB_FATSZ32) else LdWord(b, BPB_FATSZ16),
        LdWord(b, BPB_FSVER32), LdDword(b, BPB_ROOTCLUS32))
  }

  function SubType(clusters: nat): FatType
  {
    if clusters <= MAX_FAT12 then Fat12 else if clusters <= MAX_FAT16 then Fat16 else Fat32
  }

  function NeededFatBytes(t: FatType, entries: nat): nat
  {
    match t
    case Fat32 => entries * 4 % DWORD_MOD
    case Fat16 => entries * 2 % DWORD_MOD
    case Fat12 => entries * 3 / 2 + And(entries, 1)
  }

  /** The geometry of the volume whose boot record lies in sector bsect, or none if it is refused. */
  function Layout(p: Bpb, bsect: dword): Found
  {
    if p.bytsPerSec != SS then NotFat
    else if p.nFats != 1 && p.nFats != 2 then NotFat
    else if p.csize == 0 || And(p.csize, p.csize - 1) != 0 then NotFat
    else if p.nRootdir % (SS / SZDIRE) != 0 then NotFat
    else if p.nrsv == 0 then NotFat
    else if p.tsect < p.System32() then NotFat
    else
      var nclst := p.Clusters();
      if nclst == 0 || nclst > MAX_FAT32 then NotFat
      else
        var fmt := SubType(nclst);
        var fatbase := (bsect + p.nrsv) % DWORD_MOD;
        var database := (bsect + p.System32()) % DWORD_MOD;
        if fmt == Fat32 && (p.fsVer != 0 || p.nRootdir != 0) then NotFat
        else if fmt != Fat32 && p.nRootdir == 0 then NotFat
        else if p.fsize < (NeededFatBytes(fmt, nclst + 2) + (SS - 1)) / SS then NotFat
        else
          var dirbase := if fmt == Fat32 then p.rootClus else (fatbase + p.FatArea() % DWORD_MOD) % DWORD_MOD;
          Fat(Geometry(fmt, p.nFats, p.csize, p.nRootdir, nclst + 2, p.fsize, bsect, fatbase, dirbase, database))
  }

  /** No sector sum of the volume exceeds 32 bits. */
  predicate NoWrap(p: Bpb, bsect: dword)
    requires p.csize != 0
  {
    p.System() < DWORD_MOD && bsect + p.System() + p.csize * p.Clusters() <= NO_SECTOR
  }

  /** The mask test of the cluster size accepts exactly the powers of two. */
  lemma {:induction false} PowerTest(n: nat)
    requires n >= 1
    ensures And(n, n - 1) == 0 <==> PowerOfTwo(n)
  {
    if n % 2 == 1 {
      assert n / 2 == (n - 1) / 2;
      AndSelf(n / 2);
    } else {
      assert (n - 1) / 2 == n / 2 - 1;
      PowerTest(n / 2);
    }
  }

  lemma {:induction false} AndSelf(n: nat)
    ensures And(n, n) == n
  {
    if n != 0 { AndSelf(n / 2); }
  }

  lemma {:induction false} PowerAtMost(n: nat, m: nat)
    requires PowerOfTwo(n) && PowerOfTwo(m) && n < 2 * m
    ensures n <= m
  {
    if m != 1 && n != 1 { PowerAtMost(n / 2, m / 2); }
  }

  /** The cluster size test leaves the powers of two up to 128. */
  lemma ClusterSizes(csize: byte)
    requires csize != 0
    ensures And(csize, csize - 1) == 0 <==> PowerOfTwo(csize)
    ensures PowerOfTwo(csize) ==> csize <= 128
  {
    PowerTest(csize);
    assert PowerOfTwo(1) && PowerOfTwo(2) && PowerOfTwo(4) && PowerOfTwo(8);
    assert PowerOfTwo(16) && PowerOfTwo(32) && PowerOfTwo(64) && PowerOfTwo(128);
    if PowerOfTwo(csize) { PowerAtMost(csize, 128); }
  }

  /** The wrapped sums lie in order exactly when none of them wrapped. */
  lemma WrappedSums(bsect: dword, nrsv: nat, fasize: nat, root: nat, data: nat)
    requires 0 < nrsv < 0x1_0000 && root < 0x1_0000
    ensures var sys32 := (nrsv + fasize % DWORD_MOD + root) % DWORD_MOD;
            var fatbase, database := (bsect + nrsv) % DWORD_MOD, (bsect + sys32) % DWORD_MOD;
            var ordered := bsect < fatbase && fatbase + fasize <= database && database + data <= NO_SECTOR;
            && (ordered <==> nrsv + fasize + root < DWORD_MOD && bsect + nrsv + fasize + root + data <= NO_SECTOR)
            && (ordered ==> fatbase == bsect + nrsv && sys32 == nrsv + fasize + root && database == bsect + sys32)
  {
    var fatbase := (bsect + nrsv) % DWORD_MOD;
    if bsect < fatbase && fasize < DWORD_MOD {
      assert fatbase == bsect + nrsv;
      var sys := nrsv + fasize + root;
      var sys32 := sys % DWORD_MOD;
      assert sys32 == if sys < DWORD_MOD then sys else sys - DWORD_MOD;
      var database := (bsect + sys32) % DWORD_MOD;
      assert database == if bsect + sys32 < DWORD_MOD then bsect + sys32 else bsect + sys32 - DWORD_MOD;
    }
  }

  /** The FAT of an accepted volume is large enough for every entry. */
  lemma FatLargeEnough(fmt: FatType, entries: nat, fsize: nat)
    requires entries <= EntryLimit(fmt) && fsize >= (NeededFatBytes(fmt, entries) + (SS - 1)) / SS
    ensures FatBytes(fmt, entries) <= SS * fsize
  {
    assert And(entries, 1) == entries % 2 by {
      assert PowerOfTwo(2);
      AndMask(entries, 2);
    }
    assert FatBytes(fmt, entries) == NeededFatBytes(fmt, entries);
  }

  lemma ProductBound(x: nat, n: nat)
    requires n > 0
    ensures 0 <= n * (x / n) <= x
  {
    DivBound(x, n, 0);
    assert n * (x / n) == x / n * n;
  }

  /** The fields of an accepted volume that the sums are made of. */
  lemma Fields(p: Bpb, bsect: dword)
    requires Layout(p, bsect).Fat?
    ensures p.csize != 0 && p.nrsv != 0 && (p.nFats == 1 || p.nFats == 2)
    ensures var g := Layout(p, bsect).g;
            && g.nFats == p.nFats && g.fsize == p.fsize && g.csize == p.csize && g.nFatent == p.Clusters() + 2
            && g.fatbase == (bsect + p.nrsv) % DWORD_MOD && g.database == (bsect + p.System32()) % DWORD_MOD
            && p.System32() <= p.tsect && g.volbase == bsect && g.nRootdir == p.nRootdir
            && (g.fsType != Fat32 ==> g.dirbase == (g.fatbase + p.FatArea() % DWORD_MOD) % DWORD_MOD)
            && (g.fsType != Fat32 ==> p.nRootdir != 0 && p.nRootdir % (SS / SZDIRE) == 0)
            && (g.fsType == Fat32 ==> p.nRootdir == 0)
  {
    hide And, NeededFatBytes, Bpb.Clusters, Bpb.System32, Bpb.FatArea;
  }

  lemma Sums(p: Bpb, bsect: dword)
    requires Layout(p, bsect).Fat?
    ensures p.csize != 0
    ensures var g := Layout(p, bsect).g;
            && 0 <= p.csize * p.Clusters() <= p.tsect - p.System32() && g.End() == g.database + p.csize * p.Clusters()
            && g.FatArea() == p.FatArea()
            && ((bsect < g.fatbase && g.fatbase + g.FatArea() <= g.database && g.End() <= NO_SECTOR) <==>
              NoWrap(p, bsect))
            && (NoWrap(p, bsect) ==>
                  g.fatbase == bsect + p.nrsv && p.System32() == p.System() && g.database == bsect + p.System())
  {
    hide Layout;
    Fields(p, bsect);
    ProductBound(p.tsect - p.System32(), p.csize);
    WrappedSums(bsect, p.nrsv, p.FatArea(), p.RootSectors(), p.csize * p.Clusters());
  }

  /** An accepted volume has a valid geometry exactly when none of its sector sums wrapped. */
  lemma AcceptedVolume(p: Bpb, bsect: dword)
    requires Layout(p, bsect).Fat?
    ensures p.csize != 0
    ensures Layout(p, bsect).g.Valid() <==> NoWrap(p, bsect)
  {
    hide FatBytes, And, PowerOfTwo, NeededFatBytes, NoWrap, Geometry.End, Geometry.FatArea, Bpb.System32, Bpb.FatArea,
      Bpb.Clusters;
    var g := Layout(p, bsect).g;
    ClusterSizes(p.csize);
    FatLargeEnough(g.fsType, g.nFatent, g.fsize);
    Sums(p, bsect);
  }

  /** Such a volume is accepted: FAT16 of 5000 sectors that starts at sector 0xFFFFF000. */
  lemma WrappingVolumeAccepted()
    ensures var p := Bpb(512, 1, 1, 1, 16, 5000, 20, 0, 0);
            Layout(p, 0xFFFF_F000).Fat? && p.csize != 0 && !NoWrap(p, 0xFFFF_F000) && !Layout(p, 0xFFFF_F000).g.Valid()
  {
    var p := Bpb(512, 1, 1, 1, 16, 5000, 20, 0, 0);
    assert p.System32() == 22 && p.Clusters() == 4978;
    AcceptedVolume(p, 0xFFFF_F000);
  }

  lemma NoWrapSystem(p: Bpb, bsect: dword)
    requires p.csize != 0 && NoWrap(p, bsect)
    ensures p.System() < DWORD_MOD && bsect + p.System() <= NO_SECTOR
  {
    hide Bpb.System, Bpb.Clusters;
    assert p.csize * p.Clusters() >= 0;
  }

  /** The regions of an accepted volume follow one another without overlap and end inside it. */
  lemma Regions(p: Bpb, bsect: dword)
    requires Layout(p, bsect).Fat? && p.csize != 0 && NoWrap(p, bsect)
    ensures var g := Layout(p, bsect).g;
            && g.volbase == bsect < g.fatbase == bsect + p.nrsv
            && (if g.fsType == Fat32 then g.fatbase + g.FatArea() == g.database
                else g.fatbase + g.FatArea() == g.dirbase < g.dirbase + g.nRootdir / (SS / SZDIRE) == g.database)
            && g.End() <= bsect + p.tsect
  {
    hide Layout, Geometry.End, Bpb.Clusters, NoWrap;
    Fields(p, bsect);
    Sums(p, bsect);
    NoWrapSystem(p, bsect);
  }

  /** Every entry of an accepted volume, and both bytes of a FAT12 entry, lie inside the FAT. */
  lemma EntryInside(p: Bpb, bsect: dword, c: nat)
    requires Layout(p, bsect).Fat? && c < Layout(p, bsect).g.nFatent
    ensures var g := Layout(p, bsect).g; Offset(g.fsType, c) + Span(g.fsType) <= SS * g.fsize
  {
    hide And, NeededFatBytes, Offset, FatBytes;
    var g := Layout(p, bsect).g;
    FatLargeEnough(g.fsType, g.nFatent, g.fsize);
    OffsetInFat(g.fsType, c, g.nFatent);
  }

  // ---- the bytes of a boot record ----

  /** The cluster sizes are the powers of two that fit a byte. */
  lemma EightSizes(csize: byte)
    requires csize != 0
    ensures And(csize, csize - 1) == 0 <==> csize in {1, 2, 4, 8, 16, 32, 64, 128}
  {
    ClusterSizes(csize);
    SizesListed(csize);
  }

  lemma SizesListed(n: nat)
    ensures n < 0x100 ==> (PowerOfTwo(n) <==> n in {1, 2, 4, 8, 16, 32, 64, 128})
  {
    if 0 < n < 0x100 {
      assert PowerOfTwo(1) && PowerOfTwo(2) && PowerOfTwo(4) && PowerOfTwo(8);
      assert PowerOfTwo(16) && PowerOfTwo(32) && PowerOfTwo(64) && PowerOfTwo(128);
      if PowerOfTwo(n) { SmallPower(n); }
    }
  }

  lemma {:induction false} SmallPower(n: nat)
    requires PowerOfTwo(n) && n < 0x100
    ensures n in {1, 2, 4, 8, 16, 32, 64, 128}
  {
    if n >= 2 { assert PowerOfTwo(n / 2); }
    if n >= 4 { assert PowerOfTwo(n / 2 / 2); }
    if n >= 8 { assert PowerOfTwo(n / 2 / 2 / 2); }
    if n >= 16 { assert PowerOfTwo(n / 2 / 2 / 2 / 2); }
    if n >= 32 { assert PowerOfTwo(n / 2 / 2 / 2 / 2 / 2); }
    if n >= 64 { assert PowerOfTwo(n / 2 / 2 / 2 / 2 / 2 / 2); }
    if n >= 128 { assert PowerOfTwo(n / 2 / 2 / 2 / 2 / 2 / 2 / 2); }
  }

  /** The FAT is large enough for n entries exactly if their bits fit its bytes. */
  lemma EntriesFit(t: FatType, n: nat, fsize: nat)
    requires n <= EntryLimit(t)
    ensures fsize >= (NeededFatBytes(t, n) + (SS - 1)) / SS <==>
              (if t == Fat12 then 12 else if t == Fat16 then 16 else 32) * n <= 8 * 512 * fsize
  {
    hide NeededFatBytes;
    NeededExactly(t, n);
    SectorsFor(NeededFatBytes(t, n), fsize);
    if t == Fat12 { HalfBytes(n, fsize); }
  }

  lemma NeededExactly(t: FatType, n: nat)
    requires n <= EntryLimit(t)
    ensures NeededFatBytes(t, n) == match t case Fat12 => n * 3 / 2 + n % 2 case Fat16 => 2 * n case Fat32 => 4 * n
  {
    hide And;
    assert And(n, 1) == n % 2 by {
      assert PowerOfTwo(2);
      AndMask(n, 2);
    }
  }

  lemma SectorsFor(need: nat, fsize: nat)
    ensures fsize >= (need + (SS - 1)) / SS <==> need <= SS * fsize
  {
  }

  lemma HalfBytes(n: nat, fsize: nat)
    ensures n * 3 / 2 + n % 2 <= 512 * fsize <==> 12 * n <= 8 * 512 * fsize
  {
    var h := n / 2;
    assert n == 2 * h + n % 2;
    assert n * 3 / 2 == 3 * h + n % 2;
  }

  lemma SystemFits(p: Bpb, bsect: dword)
    requires p.System() < DWORD_MOD
    ensures p.System32() == p.System() && p.FatArea() % DWORD_MOD == p.FatArea()
    ensures bsect + p.System() < DWORD_MOD ==> bsect + p.nrsv + p.FatArea() < DWORD_MOD
  {
    hide Bpb.FatArea;
  }

  /** Which boot records are accepted, the system area of the volume being sys sectors and the data area n clusters. */
  lemma AcceptedExactly(p: Bpb, bsect: dword, sys: nat, n: nat)
    requires p.System() == sys < DWORD_MOD
    requires n == if p.csize == 0 || p.tsect < sys then 0 else (p.tsect - sys) / p.csize
    ensures Layout(p, bsect).Fat? <==>
              && p.bytsPerSec == 512 && p.csize in {1, 2, 4, 8, 16, 32, 64, 128} && (p.nFats == 1 || p.nFats == 2)
              && p.nrsv > 0 && p.nRootdir % 16 == 0 && 1 <= n <= 0x0FFF_FFF5
              && (if n <= 65525 then p.nRootdir != 0 else p.nRootdir == 0 && p.fsVer == 0)
              && (if n <= 4085 then 12 else if n <= 65525 then 16 else 32) * (n + 2) <= 8 * 512 * p.fsize
  {
    hide And, NeededFatBytes, Bpb.System, Bpb.System32, Bpb.FatArea;
    SystemFits(p, bsect);
    if p.csize != 0 {
      EightSizes(p.csize);
      assert p.Clusters() == n;
      if n <= MAX_FAT32 { EntriesFit(SubType(n), n + 2, p.fsize); }
    }
  }

  /** The geometry of an accepted volume whose system area ends below 4 Gi sectors. */
  lemma LaidOutExactly(p: Bpb, bsect: dword, sys: nat, n: nat)
    requires p.System() == sys < DWORD_MOD && Layout(p, bsect).Fat? && p.csize != 0
    requires n == if p.tsect < sys then 0 else (p.tsect - sys) / p.csize
    ensures var g := Layout(p, bsect).g;
            && g.fsType == (if n <= 4085 then Fat12 else if n <= 65525 then Fat16 else Fat32)
            && g.nFats == p.nFats && g.csize == p.csize && g.nRootdir == p.nRootdir && g.nFatent == n + 2
            && g.fsize == p.fsize && g.volbase == bsect
            && (bsect + sys < DWORD_MOD ==>
                  && g.fatbase == bsect + p.nrsv && g.database == bsect + sys
                  && g.dirbase == if n <= 65525 then bsect + p.nrsv + p.FatArea() else p.rootClus)
  {
    hide And, NeededFatBytes, Bpb.System, Bpb.System32, Bpb.FatArea;
    SystemFits(p, bsect);
    assert p.Clusters() == n;
  }

  /**
    A boot record by its bytes, for any volume whose system area fits 32 bits: exactly when it is accepted, and what
    geometry the fields of the record then give.
   */
  lemma BootRecordBytes(b: Sector, bsect: dword, tsect: nat, fsize: nat, sys: nat, n: nat)
    requires tsect == if LdWord(b, 19) != 0 then LdWord(b, 19) else LdDword(b, 32)
    requires fsize == if LdWord(b, 22) != 0 then LdWord(b, 22) else LdDword(b, 36)
    requires sys == LdWord(b, 14) + fsize * b[16] as int + LdWord(b, 17) / 16 < 0x1_0000_0000
    requires n == if b[13] == 0 || tsect < sys then 0 else (tsect - sys) / b[13] as int
    ensures Layout(Parse(b), bsect).Fat? <==>
              && LdWord(b, 11) == 512 && b[13] in {1, 2, 4, 8, 16, 32, 64, 128} && (b[16] == 1 || b[16] == 2)
              && LdWord(b, 14) > 0 && LdWord(b, 17) % 16 == 0 && 1 <= n <= 0x0FFF_FFF5
              && (if n <= 65525 then LdWord(b, 17) != 0 else LdWord(b, 17) == 0 && LdWord(b, 42) == 0)
              && (if n <= 4085 then 12 else if n <= 65525 then 16 else 32) * (n + 2) <= 8 * 512 * fsize
    ensures Layout(Parse(b), bsect).Fat? ==>
              var g := Layout(Parse(b), bsect).g;
              && g.fsType == (if n <= 4085 then Fat12 else if n <= 65525 then Fat16 else Fat32)
              && g.nFats == b[16] && g.csize == b[13] && g.nRootdir == LdWord(b, 17) && g.nFatent == n + 2
              && g.fsize == fsize && g.volbase == bsect
              && (bsect + sys < 0x1_0000_0000 ==>
                    && g.fatbase == bsect + LdWord(b, 14) && g.database == bsect + sys
                    && g.dirbase ==
                         if n <= 65525 then bsect + LdWord(b, 14) + fsize * b[16] as int else LdDword(b, 44))
  {
    hide Layout, LdWord, LdDword;
    AcceptedExactly(Parse(b), bsect, sys, n);
    if Layout(Parse(b), bsect).Fat? { LaidOutExactly(Parse(b), bsect, sys, n); }
  }

  // ---- finding the boot record ----

  datatype Kind = FatRecord | OtherRecord | NoRecord
  datatype MountResult = Mounted(g: Geometry) | DiskError | NoFilesystem

  /** check_fs on a sector that was read. */
  function KindOf(b: Sector): Kind
  {
    if LdWord(b, BS_55AA) != 0xAA55 then NoRecord
    else if (b[BS_JMPBOOT] == 0xE9 || b[BS_JMPBOOT] == 0xEB || b[BS_JMPBOOT] == 0xE8)
            && (b[BS_FILSYSTYPE..BS_FILSYSTYPE + 3] == [0x46, 0x41, 0x54] || b[BS_FILSYSTYPE32..BS_FILSYSTYPE32 + 5]
              == [0x46, 0x41, 0x54, 0x33, 0x32])
    then FatRecord
    else OtherRecord
  }

  /** Start of a partition, zero if the table entry is unused. */
  function Partition(b: Sector, i: nat): dword
    requires i < 4
  {
    var pte := MBR_TABLE + i * SZ_PTE;
    if b[pte + PTE_SYSTEM] != 0 then LdDword(b, pte + PTE_STLBA) else 0
  }

  predicate IsFat(store: seq<Sector>, sector: nat)
  {
    sector < |store| && KindOf(store[sector]) == FatRecord
  }

  /** The first of the partitions from i on that holds a FAT boot record. */
  function FirstFat(store: seq<Sector>, table: Sector, i: nat): (r: Option<dword>)
    requires i <= 4
    ensures r.Some? ==> IsFat(store, r.value)
    decreases 4 - i
  {
    if i == 4 then None
    else if Partition(table, i) != 0 && IsFat(store, Partition(table, i)) then Some(Partition(table, i))
    else FirstFat(store, table, i + 1)
  }

  /** Where the volume starts: at sector 0, or in the first partition that has a FAT boot record. */
  function BootSector(store: seq<Sector>): (r: Option<dword>)
    ensures r.Some? ==> IsFat(store, r.value)
  {
    if IsFat(store, 0) then Some(0)
    else if |store| > 0 && KindOf(store[0]) == OtherRecord then FirstFat(store, store[0], 0)
    else None
  }

  /** A FAT boot record by its bytes: signature, jump instruction and type string. */
  predicate RecordBytes(b: Sector)
  {
    && b[510] == 0x55 && b[511] == 0xAA && (b[0] == 0xEB || b[0] == 0xE9 || b[0] == 0xE8)
    && ((b[54] == 0x46 && b[55] == 0x41 && b[56] == 0x54)
        || (b[82] == 0x46 && b[83] == 0x41 && b[84] == 0x54 && b[85] == 0x33 && b[86] == 0x32))
  }

  lemma KindBytes(b: Sector)
    ensures KindOf(b) == FatRecord <==> RecordBytes(b)
    ensures KindOf(b) == OtherRecord <==> b[510] == 0x55 && b[511] == 0xAA && !RecordBytes(b)
  {
    assert b[54..57] == [b[54], b[55], b[56]] && b[82..87] == [b[82], b[83], b[84], b[85], b[86]];
    assert LdWord(b, 510) == 0xAA55 <==> b[510] == 0x55 && b[511] == 0xAA;
  }

  /** Entry i of the partition table names the start of a FAT volume. */
  predicate Bootable(store: seq<Sector>, table: Sector, i: nat)
    requires i < 4
  {
    var lba := LdDword(table, 446 + 16 * i + 8);
    table[446 + 16 * i + 4] != 0 && lba != 0 && lba < |store| && RecordBytes(store[lba])
  }

  lemma {:induction false} FirstFatBytes(store: seq<Sector>, table: Sector, i: nat, j: nat)
    requires i <= j <= 4 && (forall k :: i <= k < j ==> !Bootable(store, table, k))
    requires j < 4 ==> Bootable(store, table, j)
    ensures FirstFat(store, table, i) == if j < 4 then Some(LdDword(table, 446 + 16 * j + 8)) else None
    decreases 4 - i
  {
    hide KindOf, LdDword, RecordBytes;
    if i < 4 {
      var p := Partition(table, i);
      if p < |store| { KindBytes(store[p]); }
      if i < j {
        assert !Bootable(store, table, i);
        FirstFatBytes(store, table, i + 1, j);
      }
    }
  }

  /** Where a volume is looked for, by the bytes: in sector 0, or in the first partition that has a FAT boot record,
      partition j of the table in sector 0, none of the four if j is 4. */
  lemma BootSectorBytes(store: seq<Sector>, j: nat)
    requires |store| > 0 && j <= 4 && forall k :: 0 <= k < j ==> !Bootable(store, store[0], k)
    requires j < 4 ==> Bootable(store, store[0], j)
    ensures BootSector(store) ==
              if RecordBytes(store[0]) then Some(0)
              else if store[0][510] == 0x55 && store[0][511] == 0xAA && j < 4
              then Some(LdDword(store[0], 446 + 16 * j + 8)) else None
  {
    hide KindOf, LdDword, RecordBytes, Bootable;
    KindBytes(store[0]);
    FirstFatBytes(store, store[0], 0, j);
  }

  /** A boot record found at some sector is one that can be the volume's. */
  ghost predicate Candidate(store: seq<Sector>, bsect: nat)
  {
    && IsFat(store, bsect)
    && (bsect == 0 || (KindOf(store[0]) == OtherRecord && exists i :: 0 <= i < 4 && bsect == Partition(store[0], i)))
  }

  ghost predicate Mountable(store: seq<Sector>)
  {
    var b := BootSector(store);
    b.Some? && Layout(Parse(store[b.value]), b.value).Fat?
  }

  /** What a disk that does not fail reports as a disk error: there is no sector 0, or no volume is found and the last
      partition of the table starts past the end. */
  ghost predicate Unreadable(store: seq<Sector>)
  {
    || |store| == 0
    || (BootSector(store) == None && KindOf(store[0]) == OtherRecord && Partition(store[0], 3) >= |store|)
  }

  /** Mounting finds a candidate, and on a reliable disk exactly the boot sector above, and accepts it by Layout. */
  method FindVolume(disk: Disk) returns (r: MountResult, bsect: dword)
    ensures r.Mounted? ==> Candidate(disk.store, bsect) && Layout(Parse(disk.store[bsect]), bsect) == Fat(r.g)
    ensures disk.reliable && r.Mounted? ==> BootSector(disk.store) == Some(bsect)
    ensures disk.reliable ==> (r.Mounted? <==> Mountable(disk.store))
    ensures disk.reliable ==> (r.DiskError? <==> Unreadable(disk.store))
  {
    hide KindOf, Layout, Parse, Partition;
    bsect := 0;
    var fmt, win := CheckFs(disk, 0);
    if fmt == 2 {
      var table := win;
      var i := 0;
      fmt := 3;
      while i < 4 && fmt >= 2
        invariant 0 <= i <= 4
        invariant fmt < 2 ==> IsFat(disk.store, bsect) && win == disk.store[bsect]
                              && exists k :: 0 <= k < 4 && bsect == Partition(table, k)
        invariant fmt < 2 && disk.reliable ==> FirstFat(disk.store, table, 0) == Some(bsect)
        invariant fmt >= 2 && disk.reliable ==> FirstFat(disk.store, table, 0) == FirstFat(disk.store, table, i)
        invariant disk.reliable && fmt >= 2 ==>
                    (fmt == 4 <==> i > 0 && Partition(table, i - 1) != 0 && Partition(table, i - 1) >= |disk.store|)
      {
        bsect := Partition(table, i);
        if bsect != 0 {
          fmt, win := CheckFs(disk, bsect);
        } else {
          fmt := 3;
        }
        i := i + 1;
      }
    }
    if fmt == 4 { return DiskError, bsect; }
    if fmt >= 2 { return NoFilesystem, bsect; }
    match Layout(Parse(win), bsect)
    case NotFat => r := NoFilesystem;
    case Fat(g) => r := Mounted(g);
  }

  /** 0: a FAT boot record, 2: another boot record, 3: no boot record, 4: disk error. */
  method CheckFs(disk: Disk, sector: dword) returns (fmt: nat, win: Sector)
    ensures fmt == 0 || 2 <= fmt <= 4
    ensures fmt == 0 ==> IsFat(disk.store, sector)
    ensures fmt < 4 ==> sector < |disk.store| && win == disk.store[sector]
    ensures fmt == 2 ==> KindOf(win) == OtherRecord
    ensures disk.reliable ==> (fmt == 0 <==> IsFat(disk.store, sector))
    ensures disk.reliable ==> (fmt == 4 <==> sector >= |disk.store|)
    ensures fmt == 3 ==> KindOf(win) == NoRecord
  {
    hide KindOf;
    var ok;
    ok, win := disk.ReadSector(sector);
    if !ok { return 4, win; }
    match KindOf(win)
    case FatRecord => fmt := 0;
    case OtherRecord => fmt := 2;
    case NoRecord => fmt := 3;
  }
}
