/** A directory seen as a value: the sectors of its table, in a chain of clusters or in the static root area. */
module DirState {
  import opened Bytes
  import opened Volume
  import opened Arith
  import opened Chains
  import opened FatTable
  import opened FileBytes
  import opened LongNames
  import opened DirTable
  import Mount

  const MAX_DIR := 0x20_0000
  /** Entries in a sector. */
  const PER_SECTOR := 16
  /** Sectors of a table of MAX_DIR bytes; nothing past them is part of a directory. */
  const MAX_SECTORS := 4096

  /** Entry n of a table. */
  ghost function EntryAt(img: seq<Sector>, secs: seq<nat>, n: nat): Entry
    requires Covers(img, secs) && n < PER_SECTOR * |secs|
  {
    img[secs[n / PER_SECTOR]][n % PER_SECTOR * SZDIRE..n % PER_SECTOR * SZDIRE + SZDIRE]
  }

  ghost function TableOf(img: seq<Sector>, secs: seq<nat>): (t: seq<Entry>)
    requires Covers(img, secs)
    ensures |t| == PER_SECTOR * |secs|
    ensures forall n :: 0 <= n < |t| ==> t[n] == EntryAt(img, secs, n)
  {
    seq(PER_SECTOR * |secs|, n requires 0 <= n < PER_SECTOR * |secs| => EntryAt(img, secs, n))
  }

  /** The static root directory of a FAT12 or FAT16 volume lies between the FAT and the data area. */
  ghost predicate StaticRoot(g: Geometry)
  {
    && 0 < g.nRootdir <= PER_SECTOR * MAX_SECTORS && g.nRootdir % PER_SECTOR == 0
    && g.fatbase + g.FatArea() <= g.dirbase && g.dirbase + g.nRootdir / PER_SECTOR <= g.database
  }

  /** Mounting a FAT12 or FAT16 volume whose sums do not wrap establishes it. */
  lemma MountedRoot(p: Mount.Bpb, bsect: dword)
    requires Mount.Layout(p, bsect).Fat? && p.csize != 0 && Mount.NoWrap(p, bsect)
    ensures var g := Mount.Layout(p, bsect).g; g.Valid() && (g.fsType != Fat32 ==> StaticRoot(g))
  {
    hide Mount.Layout, Mount.NoWrap, PowerOfTwo, FatBytes, EntryLimit, Geometry.End;
    Mount.Fields(p, bsect);
    Mount.AcceptedVolume(p, bsect);
    Mount.Regions(p, bsect);
  }

  ghost function Within(secs: seq<nat>): (r: seq<nat>)
  {
    if |secs| <= MAX_SECTORS then secs else secs[..MAX_SECTORS]
  }

  datatype State = State(g: Geometry, fat: seq<nat>, view: seq<Sector>, fixed: bool, chain: seq<nat>,
    others: set<seq<nat>>)
  {
    ghost predicate Ok()
    {
      && g.Valid() && |fat| == g.nFatent && g.End() <= |view|
      && chain !in others && Clusters(g, chain)
      && if fixed then StaticRoot(g) && chain == [] && Forest(fat, others)
         else chain != [] && Forest(fat, others + {chain})
    }

    /** The sectors of the table. */
    ghost function Secs(): seq<nat>
      requires Clusters(g, chain)
    {
      if fixed then Run(g.dirbase, g.nRootdir / PER_SECTOR) else Within(Sectors(g, chain))
    }

    ghost function Table(): (t: seq<Entry>)
      requires Ok()
      ensures |t| == PER_SECTOR * |Secs()|
    {
      SecsCovered(this);
      TableOf(view, Secs())
    }
  }

  /** The sectors of a table are on the disk, after the FAT, and none is used twice. */
  lemma SecsCovered(s: State)
    requires s.Ok()
    ensures Covers(s.view, s.Secs())
    ensures forall j :: 0 <= j < |s.Secs()| ==> s.g.fatbase + s.g.FatArea() <= s.Secs()[j] < s.g.End()
    ensures s.fixed ==> forall j :: 0 <= j < |s.Secs()| ==> s.Secs()[j] < s.g.database
    ensures !s.fixed ==> forall j :: 0 <= j < |s.Secs()| ==> s.g.database <= s.Secs()[j]
  {
    hide PowerOfTwo, EntryLimit, FatBytes, Geometry.End, Sectors, Forest;
    if s.fixed {
      RootBeforeEnd(s.g);
    } else {
      forall j | 0 <= j < |s.Secs()|
        ensures s.g.database <= s.Secs()[j] < s.g.End()
      {
        SectorsOwned(s.g, s.chain, j);
      }
    }
  }

  lemma RootBeforeEnd(g: Geometry)
    requires g.Valid()
    ensures g.database <= g.End()
  {
    hide PowerOfTwo, EntryLimit, FatBytes;
    MulMonotone(g.csize, 0, g.nFatent - 2);
  }

  lemma SecsDistinct(s: State, i: nat, j: nat)
    requires s.Ok() && i < j < |s.Secs()|
    ensures s.Secs()[i] != s.Secs()[j]
  {
    hide PowerOfTwo, EntryLimit, FatBytes, Geometry.End, Sectors, Forest;
    if !s.fixed {
      ChainInForest(s);
      ChainDistinct(s.fat, s.chain);
      SectorsInjective(s.g, s.chain, i, j);
    }
  }

  lemma ChainInForest(s: State)
    requires s.Ok() && !s.fixed
    ensures IsChain(s.fat, s.chain)
  {
  }

  /**
    Where an entry lies on the disk: sixteen to a sector, in the root area from its first sector on, or in the clusters
    of the chain in order, cluster 2 being the first of the data area; a table has at most 65536 entries.
   */
  lemma EntryPlace(s: State, n: nat)
    requires s.Ok() && n < |s.Table()|
    ensures |s.Table()| == if s.fixed then s.g.nRootdir
              else if 16 * (|s.chain| * s.g.csize) <= 65536 then 16 * (|s.chain| * s.g.csize) else 65536
    ensures s.g.csize > 0 && (s.fixed || 0 <= n / 16 / s.g.csize < |s.chain|)
    ensures var k := if s.fixed then s.g.dirbase + n / 16
              else s.g.database + s.g.csize * (s.chain[n / 16 / s.g.csize] - 2) + n / 16 % s.g.csize;
            && 0 <= k < |s.view| && s.Table()[n] == s.view[k][32 * (n % 16)..32 * (n % 16) + 32]
  {
    hide PowerOfTwo, EntryLimit, FatBytes, Geometry.End, Sectors, Forest;
    SecsCovered(s);
    SectorsLength(s.g, s.chain);
    if !s.fixed { SectorsIndex(s.g, s.chain, n / PER_SECTOR); }
  }

  /** The table does not depend on anything before it on the disk. */
  lemma SameTable(s: State, t: State)
    requires s.Ok() && t == s.(view := t.view) && |t.view| == |s.view|
    requires SameOutsideFat(s.g, s.view, t.view)
    ensures t.Ok() && t.Table() == s.Table()
  {
    hide PowerOfTwo, EntryLimit, FatBytes, Geometry.End, Sectors, Forest;
    SecsCovered(s);
    SecsCovered(t);
    forall n | 0 <= n < |s.Table()|
      ensures t.Table()[n] == s.Table()[n]
    {
      assert s.Secs()[n / PER_SECTOR] < |s.view|;
    }
  }

  /** One entry of one sector is replaced. */
  lemma EntryWritten(s: State, t: State, n: nat, e: Entry)
    requires s.Ok() && t == s.(view := t.view) && n < |s.Table()|
    requires var k := s.Secs()[n / PER_SECTOR];
             var o := n % PER_SECTOR * SZDIRE;
             k < |s.view| && t.view == s.view[k := s.view[k][..o] + e + s.view[k][o + SZDIRE..]]
    ensures t.Ok() && t.Table() == s.Table()[n := e]
  {
    hide PowerOfTwo, EntryLimit, FatBytes, Geometry.End, Sectors, Forest;
    SecsCovered(s);
    SecsCovered(t);
    var k := s.Secs()[n / PER_SECTOR];
    var o := n % PER_SECTOR * SZDIRE;
    forall m | 0 <= m < |s.Table()|
      ensures t.Table()[m] == s.Table()[n := e][m]
    {
      var j := m / PER_SECTOR;
      if j == n / PER_SECTOR {
        SlotReplaced(s.view[k], o, e, m % PER_SECTOR * SZDIRE);
      } else if j < n / PER_SECTOR {
        SecsDistinct(s, j, n / PER_SECTOR);
      } else {
        SecsDistinct(s, n / PER_SECTOR, j);
      }
    }
  }

  lemma SlotReplaced(d: Sector, o: nat, e: Entry, p: nat)
    requires o + SZDIRE <= SS && p + SZDIRE <= SS && o % SZDIRE == 0 && p % SZDIRE == 0
    ensures var d' := d[..o] + e + d[o + SZDIRE..]; d'[p..p + SZDIRE] == if p == o then e else d[p..p + SZDIRE]
  {
    var d' := d[..o] + e + d[o + SZDIRE..];
    if p < o {
      assert p + SZDIRE <= o;
    }
  }

  // ---- stretching ----

  ghost function Blank(n: nat): (t: seq<Entry>)
    ensures |t| == n && forall k :: 0 <= k < n ==> t[k][0] == 0
  {
    seq(n, k => seq(SZDIRE, i => 0))
  }

  lemma {:induction false} PowerDivides(n: nat, m: nat)
    requires PowerOfTwo(n) && PowerOfTwo(m) && n <= m
    ensures m % n == 0
  {
    if n != 1 {
      PowerDivides(n / 2, m / 2);
      var q := m / 2 / (n / 2);
      DivBound(m / 2, n / 2, 0);
      assert m == q * n + 0;
      DivModUnique(m, n, q, 0);
    }
  }

  lemma Power4096()
    ensures PowerOfTwo(4096)
  {
    assert PowerOfTwo(1) && PowerOfTwo(2) && PowerOfTwo(4) && PowerOfTwo(8);
    PowerTimes512(8);
  }

  /** A table below the size limit can grow by a whole cluster. */
  lemma RoomForCluster(csize: nat, clusters: nat)
    requires PowerOfTwo(csize) && 1 <= csize <= 128 && clusters * csize < MAX_SECTORS
    ensures (clusters + 1) * csize <= MAX_SECTORS
  {
    hide PowerOfTwo;
    Power4096();
    PowerDivides(csize, 4096);
    DivBound(4096, csize, 0);
    MulCancel(clusters, 4096 / csize, csize);
    MulLess(clusters, 4096 / csize, csize);
  }

  lemma SecsStretched(s: State, t: State, c: nat)
    requires s.Ok() && !s.fixed && s.g.IsCluster(c) && t.g == s.g && t.fixed == s.fixed && t.chain == s.chain + [c]
    requires |s.Secs()| < MAX_SECTORS
    ensures Clusters(t.g, t.chain) && t.Secs() == s.Secs() + Run(s.g.FirstSector(c), s.g.csize)
  {
    hide EntryLimit, FatBytes, Geometry.End, Sectors, Forest, PowerOfTwo;
    SectorsLength(s.g, s.chain);
    RoomForCluster(s.g.csize, |s.chain|);
    SectorsStretch(s.g, s.chain, c);
    assert |s.chain| * s.g.csize + s.g.csize == (|s.chain| + 1) * s.g.csize;
  }

  /** A zeroed cluster at the end of the chain adds blank entries to the table and changes no other. */
  lemma Stretched(s: State, t: State, c: nat)
    requires s.Ok() && !s.fixed && |s.Secs()| < MAX_SECTORS
    requires t == s.(fat := t.fat, view := t.view, chain := s.chain + [c])
    requires Created(s.fat, t.fat, s.chain[|s.chain| - 1], c, s.g.Eoc())
    requires |t.view| == |s.view|
    requires forall k ::
               0 <= k < |s.view| && !s.g.InFat(k) && !(s.g.FirstSector(c) <= k < s.g.FirstSector(c) + s.g.csize) ==>
                 t.view[k] == s.view[k]
    requires forall k :: 0 <= k < |s.view| && s.g.FirstSector(c) <= k < s.g.FirstSector(c) + s.g.csize ==>
               t.view[k] == seq(SS, i => 0)
    ensures t.Ok() && t.Secs() == s.Secs() + Run(s.g.FirstSector(c), s.g.csize)
    ensures t.Table() == s.Table() + Blank(PER_SECTOR * s.g.csize)
  {
    hide EntryLimit, FatBytes, Geometry.End, Sectors, Forest, PowerOfTwo, Geometry.FirstSector;
    StretchedForest(s, t, c);
    SecsStretched(s, t, c);
    SecsCovered(s);
    SecsCovered(t);
    forall n | 0 <= n < |t.Table()|
      ensures t.Table()[n] == (s.Table() + Blank(PER_SECTOR * s.g.csize))[n]
    {
      var j := n / PER_SECTOR;
      if j < |s.Secs()| {
        OldSector(s, c, j);
      }
    }
  }

  lemma StretchedForest(s: State, t: State, c: nat)
    requires s.Ok() && !s.fixed && t == s.(fat := t.fat, view := t.view, chain := s.chain + [c]) && |t.view| == |s.view|
    requires Created(s.fat, t.fat, s.chain[|s.chain| - 1], c, s.g.Eoc())
    ensures t.Ok() && s.fat[c] == 0
  {
    hide PowerOfTwo, FatBytes, Forest, Disjoint;
    ChainInForest(s);
    CreatedForest(s.fat, t.fat, s.others + {s.chain}, s.chain, |s.chain| - 1, c, s.g.Eoc());
    assert s.others + {s.chain} - {s.chain} + {t.chain} == s.others + {t.chain};
    assert t.chain[|s.chain|] == c;
  }

  /** The new cluster holds no sector of the old table. */
  lemma OldSector(s: State, c: nat, j: nat)
    requires s.Ok() && !s.fixed && s.g.IsCluster(c) && s.fat[c] == 0 && j < |s.Secs()|
    ensures !s.g.InFat(s.Secs()[j]) && !s.g.InCluster(s.Secs()[j], c)
  {
    hide EntryLimit, FatBytes, Geometry.End, Sectors, PowerOfTwo, Geometry.FirstSector;
    SecsCovered(s);
    SectorsOwned(s.g, s.chain, j);
    var q := j / s.g.csize;
    assert Owned(s.others + {s.chain}, s.chain[q]);
    if s.g.InCluster(s.Secs()[j], c) {
      OneCluster(s.g, s.Secs()[j], c, s.chain[q]);
    }
  }

  // ---- positions and frames ----

  /** The offset, sector and cluster of entry n. */
  ghost predicate Position(s: State, n: nat, dptr: nat, sect: nat, clust: nat)
    requires s.Ok()
  {
    var j := n / PER_SECTOR;
    && j < |s.Secs()| && dptr == SZDIRE * n && sect == s.Secs()[j]
    && if s.fixed then clust == 0 else 0 <= j / s.g.csize < |s.chain| && clust == s.chain[j / s.g.csize]
  }

  lemma SplitOffset(ofs: nat, k: nat, csize: nat, rest: nat)
    requires rest < csize * SS && ofs == k * (csize * SS) + rest
    ensures rest / SS < csize && ofs / SS == k * csize + rest / SS
  {
    var j := k * csize;
    assert k * (csize * SS) == SS * j;
  }

  /** An offset found by following the chain. */
  lemma ChainPosition(s: State, ofs: nat, k: nat, rest: nat)
    requires s.Ok() && !s.fixed && ofs < MAX_DIR && ofs % SZDIRE == 0
    requires k < |s.chain| && rest < s.g.csize * SS && ofs == k * (s.g.csize * SS) + rest
    ensures Position(s, ofs / SZDIRE, ofs, s.g.FirstSector(s.chain[k]) + rest / SS, s.chain[k])
    ensures s.g.FirstSector(s.chain[k]) + rest / SS < NO_SECTOR
  {
    hide EntryLimit, FatBytes, Geometry.End, Sectors, Forest, PowerOfTwo, Geometry.FirstSector;
    var r := rest / SS;
    SplitOffset(ofs, k, s.g.csize, rest);
    SectorsElement(s.g, s.chain, k, r);
    assert ofs / SZDIRE / PER_SECTOR == ofs / SS;
    DivModUnique(k * s.g.csize + r, s.g.csize, k, r);
    ClusterBounds(s.g, s.chain[k]);
  }

  /** An offset is in the table exactly when the chain reaches it. */
  lemma ChainReaches(s: State, ofs: nat)
    requires s.Ok() && !s.fixed && ofs < MAX_DIR
    ensures ofs / SZDIRE < |s.Table()| <==> ofs < |s.chain| * (s.g.csize * SS)
  {
    hide EntryLimit, FatBytes, Geometry.End, Sectors, Forest, PowerOfTwo, Geometry.FirstSector;
    SectorsLength(s.g, s.chain);
    assert |s.chain| * (s.g.csize * SS) == SS * (|s.chain| * s.g.csize);
  }

  lemma FixedPosition(s: State, ofs: nat)
    requires s.Ok() && s.fixed && ofs % SZDIRE == 0 && ofs / SZDIRE < s.g.nRootdir
    ensures Position(s, ofs / SZDIRE, ofs, s.g.dirbase + ofs / SS, 0)
  {
    hide EntryLimit, FatBytes, Geometry.End, PowerOfTwo;
    assert ofs / SZDIRE / PER_SECTOR == ofs / SS;
  }

  /** An entry has one position: cluster, sector and offset in the window follow from its number. */
  lemma OnePosition(s: State, n: nat, d1: nat, s1: nat, c1: nat, d2: nat, s2: nat, c2: nat)
    requires s.Ok() && Position(s, n, d1, s1, c1) && Position(s, n, d2, s2, c2)
    ensures d1 == d2 && s1 == s2 && c1 == c2
  {
  }

  /** Nothing of the directory changed. */
  ghost predicate Kept(s: State, t: State)
    requires s.Ok()
  {
    t.Ok() && t == s.(view := t.view) && t.Table() == s.Table() && SameOutsideFat2(s.g, s.view, t.view)
  }

  lemma KeptItself(s: State)
    requires s.Ok()
    ensures Kept(s, s)
  {
  }

  /** A table has at most 65536 entries; the fixed root has the number the boot record gives. */
  lemma TableLimit(s: State)
    requires s.Ok()
    ensures 0 < |s.Table()| <= MAX_DIR / SZDIRE
    ensures s.fixed ==> |s.Table()| == s.g.nRootdir && 0 < s.g.dirbase
    ensures s.fixed ==> s.g.dirbase + s.g.nRootdir / PER_SECTOR < NO_SECTOR
    ensures !s.fixed ==> forall i :: 0 <= i < |s.chain| ==> 2 <= s.chain[i] < NO_SECTOR
  {
    hide EntryLimit, FatBytes, Sectors, Forest, PowerOfTwo;
    if s.fixed {
      RootBeforeEnd(s.g);
    } else {
      SectorsLength(s.g, s.chain);
      MulMonotone(s.g.csize, 1, |s.chain|);
    }
  }

  lemma KeptMore(s: State, t: State, u: State)
    requires s.Ok() && Kept(s, t) && Kept(t, u)
    ensures Kept(s, u)
  {
  }

  lemma KeptFields(s: State, t: State)
    requires s.Ok() && Kept(s, t)
    ensures t.Ok() && t == s.(view := t.view) && t.Table() == s.Table() && t.Secs() == s.Secs() && t.g.Valid()
  {
  }

  /** A position stays one. */
  lemma KeptPosition(s: State, t: State, n: nat, dptr: nat, sect: nat, clust: nat)
    requires s.Ok() && Kept(s, t) && Position(s, n, dptr, sect, clust)
    ensures Position(t, n, dptr, sect, clust)
  {
    hide EntryLimit, FatBytes, Geometry.End, Sectors, Forest, PowerOfTwo;
  }

  // ---- one entry further ----

  /** In the same sector. */
  lemma NextInSector(s: State, n: nat, dptr: nat, sect: nat, clust: nat)
    requires s.Ok() && Position(s, n, dptr, sect, clust) && (dptr + SZDIRE) % SS != 0
    ensures Position(s, n + 1, dptr + SZDIRE, sect, clust)
  {
    hide EntryLimit, FatBytes, Geometry.End, Sectors, Forest, PowerOfTwo;
    assert (n + 1) / PER_SECTOR == n / PER_SECTOR;
  }

  /** In the next sector of the fixed root. */
  lemma NextInRoot(s: State, n: nat, dptr: nat, sect: nat, clust: nat)
    requires s.Ok() && s.fixed && Position(s, n, dptr, sect, clust) && (dptr + SZDIRE) % SS == 0
    ensures (dptr + SZDIRE) / SZDIRE >= s.g.nRootdir <==> n + 1 == |s.Table()|
    ensures n + 1 < |s.Table()| ==> Position(s, n + 1, dptr + SZDIRE, sect + 1, clust)
  {
    hide EntryLimit, FatBytes, Geometry.End, Sectors, Forest, PowerOfTwo;
    assert (n + 1) / PER_SECTOR == n / PER_SECTOR + 1;
  }

  lemma NextSector(s: State, n: nat, dptr: nat, sect: nat, clust: nat)
    requires s.Ok() && Position(s, n, dptr, sect, clust) && (dptr + SZDIRE) % SS == 0
    ensures (n + 1) / PER_SECTOR == n / PER_SECTOR + 1 == (dptr + SZDIRE) / SS
    ensures s.g.csize > 0 && And((dptr + SZDIRE) / SS, s.g.csize - 1) == (n / PER_SECTOR + 1) % s.g.csize
  {
    hide EntryLimit, FatBytes, Geometry.End, Sectors, Forest, PowerOfTwo;
    AndMask((dptr + SZDIRE) / SS, s.g.csize);
  }

  /** In the next sector of the same cluster. */
  lemma NextInCluster(s: State, n: nat, dptr: nat, sect: nat, clust: nat)
    requires s.Ok() && !s.fixed && Position(s, n, dptr, sect, clust) && (dptr + SZDIRE) % SS == 0
    requires dptr + SZDIRE < MAX_DIR
    requires (n / PER_SECTOR + 1) % s.g.csize != 0
    ensures Position(s, n + 1, dptr + SZDIRE, sect + 1, clust)
  {
    hide EntryLimit, FatBytes, Geometry.End, Sectors, Forest, PowerOfTwo, Geometry.FirstSector;
    NextSector(s, n, dptr, sect, clust);
    var j := n / PER_SECTOR;
    StepBack(j + 1, s.g.csize);
    DivBound(j, s.g.csize, 0);
    DivBound(j + 1, s.g.csize, 0);
    SectorsIndex(s.g, s.chain, j);
    SectorsIndex(s.g, s.chain, j + 1);
  }

  /** In the next cluster, if the chain has one; else the table ends here. */
  lemma NextInChain(s: State, n: nat, dptr: nat, sect: nat, clust: nat)
    requires s.Ok() && !s.fixed && Position(s, n, dptr, sect, clust) && (dptr + SZDIRE) % SS == 0
    requires dptr + SZDIRE < MAX_DIR
    requires (n / PER_SECTOR + 1) % s.g.csize == 0
    ensures var k := n / PER_SECTOR / s.g.csize;
            && 0 <= k < |s.chain| && clust == s.chain[k]
            && (k + 1 < |s.chain| ==> n + 1 < |s.Table()| && s.g.IsCluster(s.chain[k + 1]))
            && (k + 1 < |s.chain| ==>
                  Position(s, n + 1, dptr + SZDIRE, s.g.FirstSector(s.chain[k + 1]), s.chain[k + 1]))
            && (k + 1 == |s.chain| ==> n + 1 == |s.Table()| && |s.Secs()| < MAX_SECTORS)
  {
    hide EntryLimit, FatBytes, Geometry.End, Sectors, Forest, PowerOfTwo, Geometry.FirstSector;
    NextSector(s, n, dptr, sect, clust);
    var j := n / PER_SECTOR;
    StepBack(j + 1, s.g.csize);
    DivBound(j + 1, s.g.csize, |s.chain|);
    SectorsIndex(s.g, s.chain, j);
    SectorsIndex(s.g, s.chain, j + 1);
    SectorsLength(s.g, s.chain);
  }

  /** The position past a stretched end. */
  lemma NextStretched(s: State, t: State, n: nat, dptr: nat, c: nat)
    requires s.Ok() && !s.fixed && t.Ok() && !t.fixed && t.g == s.g && s.g.IsCluster(c) && t.chain == s.chain + [c]
    requires t.Secs() == s.Secs() + Run(s.g.FirstSector(c), s.g.csize)
    requires n + 1 == |s.Table()| && dptr == SZDIRE * n && |s.Secs()| < MAX_SECTORS
    ensures Position(t, n + 1, dptr + SZDIRE, s.g.FirstSector(c), c)
  {
    hide EntryLimit, FatBytes, Geometry.End, Sectors, Forest, PowerOfTwo, Geometry.FirstSector;
    SectorsLength(s.g, s.chain);
    assert (n + 1) / PER_SECTOR == |s.Secs()| == |s.chain| * s.g.csize;
    DivModUnique(|s.chain| * s.g.csize, s.g.csize, |s.chain|, 0);
  }

  // ---- what survives ----

  /** A sector of a cluster that is free. */
  ghost predicate Unused(s: State, k: nat)
    requires |s.fat| == s.g.nFatent
  {
    exists c: nat :: s.g.IsCluster(c) && s.fat[c] == 0 && s.g.InCluster(k, c)
  }

  ghost predicate IsTail(s: State, c: nat)
  {
    s.chain != [] && c == s.chain[|s.chain| - 1]
  }

  /**
    What the disk keeps of a directory and of everything else when growing it has failed halfway: the sectors outside
    the FAT and the free clusters, and the FAT entries in use but for the end of its own chain.
   */
  ghost predicate Survives(s: State, img: seq<Sector>, fat: seq<nat>)
    requires |s.fat| == s.g.nFatent
  {
    && |img| == |s.view| && |fat| == |s.fat|
    && (forall k :: 0 <= k < |img| && !s.g.InFat(k) && !Unused(s, k) ==> img[k] == s.view[k])
    && (forall c :: 0 <= c < |fat| && s.fat[c] != 0 && !IsTail(s, c) ==> fat[c] == s.fat[c])
  }

  /** A directory has at most taken free clusters. */
  ghost predicate Spares(s: State, t: State)
    requires |s.fat| == s.g.nFatent
  {
    && t.g == s.g && Survives(s, t.view, t.fat)
    && (forall c :: 0 <= c < |s.fat| && t.fat[c] == 0 ==> s.fat[c] == 0)
    && (forall c: nat :: c < |s.fat| && IsTail(t, c) && !IsTail(s, c) ==> s.fat[c] == 0)
  }

  lemma SparesSurvives(s: State, t: State, img: seq<Sector>, fat: seq<nat>)
    requires |s.fat| == s.g.nFatent == |t.fat| && Spares(s, t) && Survives(t, img, fat)
    ensures Survives(s, img, fat)
  {
    hide IsTail, Geometry.InCluster, Geometry.FirstSector;
  }

  lemma SparesMore(s: State, t: State, u: State)
    requires |s.fat| == s.g.nFatent == |t.fat| && Spares(s, t) && Spares(t, u)
    ensures Spares(s, u)
  {
    hide IsTail, Unused;
    SparesSurvives(s, t, u.view, u.fat);
  }

  /** Where nothing but the FAT copies changed, and no entry, everything survives. */
  lemma SameSpares(s: State, t: State)
    requires |s.fat| == s.g.nFatent && t == s.(view := t.view) && SameOutsideFat(s.g, s.view, t.view)
    ensures Spares(s, t)
  {
    hide Unused;
  }

  /** The table survives, */
  lemma TableSurvives(s: State, img: seq<Sector>, fat: seq<nat>)
    requires s.Ok() && Survives(s, img, fat)
    ensures Covers(img, s.Secs()) && TableOf(img, s.Secs()) == s.Table()
  {
    hide EntryLimit, FatBytes, Geometry.End, Sectors, PowerOfTwo, Forest, Geometry.InCluster, Unused;
    SecsCovered(s);
    forall j | 0 <= j < |s.Secs()|
      ensures s.Secs()[j] < |img| && img[s.Secs()[j]] == s.view[s.Secs()[j]]
    {
      SectorSurvives(s, j);
    }
    forall n | 0 <= n < |s.Table()|
      ensures TableOf(img, s.Secs())[n] == s.Table()[n]
    {
      assert img[s.Secs()[n / PER_SECTOR]] == s.view[s.Secs()[n / PER_SECTOR]];
    }
  }

  lemma SectorSurvives(s: State, j: nat)
    requires s.Ok() && j < |s.Secs()|
    ensures !s.g.InFat(s.Secs()[j]) && !Unused(s, s.Secs()[j])
  {
    hide EntryLimit, FatBytes, Geometry.End, Sectors, PowerOfTwo, Geometry.FirstSector, Geometry.InCluster, Forest;
    SecsCovered(s);
    forall c: nat | s.g.IsCluster(c) && s.fat[c] == 0
      ensures !s.g.InCluster(s.Secs()[j], c)
    {
      if s.fixed {
        RootApart(s.g, s.Secs()[j], c);
      } else {
        OldSector(s, c, j);
      }
    }
  }

  lemma RootApart(g: Geometry, k: nat, c: nat)
    requires g.Valid() && g.IsCluster(c) && k < g.database
    ensures !g.InCluster(k, c)
  {
    hide EntryLimit, FatBytes, Geometry.End, PowerOfTwo;
    MulMonotone(g.csize, 0, c - 2);
  }

  /** and so does every cluster of every other chain. */
  lemma OthersSurvive(s: State, img: seq<Sector>, fat: seq<nat>, ch: seq<nat>, i: nat, k: nat)
    requires s.Ok() && Survives(s, img, fat) && ch in s.others && i < |ch| && s.g.IsCluster(ch[i])
    requires s.g.InCluster(k, ch[i]) && k < |img|
    ensures img[k] == s.view[k] && fat[ch[i]] == s.fat[ch[i]]
  {
    hide EntryLimit, FatBytes, Geometry.End, Sectors, PowerOfTwo, Geometry.FirstSector, Geometry.InCluster, Forest,
      Unused, IsTail;
    OwnedInUse(s, ch, i);
    ClusterOutsideFat(s.g, k, ch[i]);
    InUse(s, k, ch[i]);
  }

  lemma InUse(s: State, k: nat, c: nat)
    requires s.g.Valid() && |s.fat| == s.g.nFatent && s.g.IsCluster(c) && s.fat[c] != 0 && s.g.InCluster(k, c)
    ensures !Unused(s, k)
  {
    hide EntryLimit, FatBytes, Geometry.End, PowerOfTwo, Geometry.FirstSector, Geometry.InCluster;
    forall d: nat | s.g.IsCluster(d) && s.g.InCluster(k, d)
      ensures d == c
    {
      OneCluster(s.g, k, d, c);
    }
  }

  lemma OwnedInUse(s: State, ch: seq<nat>, i: nat)
    requires s.Ok() && ch in s.others && i < |ch|
    ensures ch[i] < |s.fat| && s.fat[ch[i]] != 0 && !IsTail(s, ch[i])
  {
    hide EntryLimit, FatBytes, Geometry.End, Sectors, PowerOfTwo, Forest;
    var all := if s.fixed then s.others else s.others + {s.chain};
    ForestMember(s.fat, all, ch, i);
    if !s.fixed { ForestApart(s.fat, all, ch, s.chain, i, |s.chain| - 1); }
  }

  lemma ClusterOutsideFat(g: Geometry, k: nat, c: nat)
    requires g.Valid() && g.IsCluster(c) && g.InCluster(k, c)
    ensures !g.InFat(k)
  {
    hide EntryLimit, FatBytes, Geometry.End, PowerOfTwo;
    MulMonotone(g.csize, 0, c - 2);
  }

  /** A step of create_chain at the end of the chain, and the new cluster written in any way. */
  lemma StretchSpares(s: State, t: State, c: nat)
    requires s.Ok() && !s.fixed && Created(s.fat, t.fat, s.chain[|s.chain| - 1], c, s.g.Eoc())
    requires t == s.(fat := t.fat, view := t.view, chain := s.chain + [c]) || t == s.(fat := t.fat, view := t.view)
    requires |t.view| == |s.view| && s.g.IsCluster(c)
    requires forall k :: 0 <= k < |s.view| && !s.g.InFat(k) && !s.g.InCluster(k, c) ==> t.view[k] == s.view[k]
    ensures Spares(s, t)
  {
    hide EntryLimit, FatBytes, Geometry.End, PowerOfTwo, Geometry.FirstSector, Geometry.InCluster, Forest;
    ChainInForest(s);
    EocNotZero(s.g);
  }

  /** The same for what is on the disk afterwards. */
  lemma StretchSurvives(s: State, t: State, img: seq<Sector>, c: nat)
    requires s.Ok() && !s.fixed && Created(s.fat, t.fat, s.chain[|s.chain| - 1], c, s.g.Eoc())
    requires t == s.(fat := t.fat, view := t.view) && |img| == |t.view| && s.g.IsCluster(c)
    requires SameOutsideFat(s.g, s.view, t.view)
    requires forall k :: 0 <= k < |img| && !s.g.InFat2(k) && !s.g.InCluster(k, c) ==> img[k] == t.view[k]
    ensures Survives(s, img, t.fat)
  {
    hide EntryLimit, FatBytes, Geometry.End, PowerOfTwo, Geometry.FirstSector, Geometry.InCluster, Forest, Survives,
      Created;
    StretchSpares(s, t.(view := img), c);
  }

  /** A create_chain that failed halfway. */
  lemma TornSurvives(s: State, img: seq<Sector>, fat: seq<nat>)
    requires s.Ok() && !s.fixed && |fat| == |s.fat| && SameOutsideFat(s.g, s.view, img)
    requires forall c :: 0 <= c < |fat| && c != s.chain[|s.chain| - 1] && s.fat[c] != 0 ==> fat[c] == s.fat[c]
    ensures Survives(s, img, fat)
  {
    hide EntryLimit, FatBytes, Geometry.End, PowerOfTwo, Forest, Unused;
  }

  lemma NoOnes(s: State)
    requires s.Ok() && !s.fixed
    ensures forall c :: 2 <= c < |s.fat| ==> s.fat[c] != 1
  {
    hide EntryLimit, FatBytes, Geometry.End, PowerOfTwo;
    ForestNoOnes(s.fat, s.others + {s.chain});
  }

  lemma EocNotZero(g: Geometry)
    ensures g.Eoc() != 0
  {
  }

  /** The table may have grown by blank entries; nothing else of the disk changed, the FAT apart. */
  ghost predicate Extended(s: State, t: State)
    requires s.Ok()
  {
    && t.Ok() && t == s.(fat := t.fat, view := t.view, chain := t.chain) && |t.view| == |s.view|
    && s.chain <= t.chain && s.Secs() <= t.Secs()
    && t.Table() == s.Table() + Blank(|t.Table()| - |s.Table()|)
    && (forall k :: 0 <= k < |s.view| && !s.g.InFat(k) && k !in t.Secs() ==> t.view[k] == s.view[k])
    && Spares(s, t) && IntoUnused(s, t)
  }

  /** The sectors the table has grown by were free. */
  ghost predicate IntoUnused(s: State, t: State)
    requires |s.fat| == s.g.nFatent && Clusters(s.g, s.chain) && Clusters(t.g, t.chain)
  {
    forall k :: k in t.Secs() && k !in s.Secs() ==> Unused(s, k)
  }

  lemma IntoUnusedMore(s: State, t: State, u: State)
    requires |s.fat| == s.g.nFatent == |t.fat| && t.g == s.g && Clusters(s.g, s.chain) && Clusters(t.g, t.chain)
    requires Clusters(u.g, u.chain)
    requires IntoUnused(s, t) && IntoUnused(t, u) && Spares(s, t)
    ensures IntoUnused(s, u)
  {
    hide IsTail, Geometry.InCluster, Geometry.FirstSector, State.Secs, Survives;
  }

  lemma KeptExtended(s: State, t: State)
    requires s.Ok() && Kept(s, t)
    ensures Extended(s, t)
  {
    hide EntryLimit, FatBytes, Geometry.End, Sectors, Forest, PowerOfTwo, Spares, Unused;
    assert s.Table() + Blank(0) == s.Table();
    SameSpares(s, t);
  }

  lemma ExtendedMore(s: State, t: State, u: State)
    requires s.Ok() && Extended(s, t) && Extended(t, u)
    ensures Extended(s, u)
  {
    hide EntryLimit, FatBytes, Geometry.End, Sectors, Forest, PowerOfTwo, State.Table, Spares, IntoUnused;
    var a, b := |t.Table()| - |s.Table()|, |u.Table()| - |t.Table()|;
    assert Blank(a) + Blank(b) == Blank(a + b);
    assert s.Table() + Blank(a) + Blank(b) == s.Table() + (Blank(a) + Blank(b));
    forall k | 0 <= k < |s.view| && !s.g.InFat(k) && k !in u.Secs()
      ensures u.view[k] == s.view[k]
    {
      assert k !in t.Secs();
    }
    SparesMore(s, t, u);
    IntoUnusedMore(s, t, u);
  }

  lemma StretchedExtended(s: State, t: State, c: nat)
    requires s.Ok() && !s.fixed && |s.Secs()| < MAX_SECTORS
    requires t == s.(fat := t.fat, view := t.view, chain := s.chain + [c])
    requires Created(s.fat, t.fat, s.chain[|s.chain| - 1], c, s.g.Eoc())
    requires |t.view| == |s.view|
    requires forall k :: 0 <= k < |s.view| && !s.g.InFat(k) && !s.g.InCluster(k, c) ==> t.view[k] == s.view[k]
    requires forall k :: 0 <= k < |s.view| && s.g.InCluster(k, c) ==> t.view[k] == seq(SS, i => 0)
    ensures Extended(s, t) && t.Secs() == s.Secs() + Run(s.g.FirstSector(c), s.g.csize)
    ensures t.Table() == s.Table() + Blank(PER_SECTOR * s.g.csize)
  {
    hide EntryLimit, FatBytes, Geometry.End, Sectors, Forest, PowerOfTwo, Geometry.FirstSector, State.Table, Spares,
      IntoUnused;
    Stretched(s, t, c);
    forall k: nat | s.g.InCluster(k, c)
      ensures k in t.Secs()
    {
      assert t.Secs()[|s.Secs()| + (k - s.g.FirstSector(c))] == k;
    }
    StretchSpares(s, t, c);
    StretchedForest(s, t, c);
    NewSectors(s, t, c);
  }

  lemma NewSectors(s: State, t: State, c: nat)
    requires |s.fat| == s.g.nFatent && s.g.IsCluster(c) && s.fat[c] == 0 && Clusters(s.g, s.chain)
    requires Clusters(t.g, t.chain)
    requires t.Secs() == s.Secs() + Run(s.g.FirstSector(c), s.g.csize)
    ensures IntoUnused(s, t)
  {
    hide EntryLimit, FatBytes, Geometry.End, Sectors, PowerOfTwo, Geometry.FirstSector, State.Secs;
    forall k | k in t.Secs() && k !in s.Secs()
      ensures Unused(s, k)
    {
      assert s.g.InCluster(k, c);
    }
  }

  lemma PositionFacts(s: State, n: nat, dptr: nat, sect: nat, clust: nat)
    requires s.Ok() && Position(s, n, dptr, sect, clust)
    ensures n < |s.Table()| <= MAX_DIR / SZDIRE && dptr == SZDIRE * n
    ensures 0 < sect < s.g.End() <= NO_SECTOR && sect < |s.view| && !s.g.InFat(sect)
    ensures clust == 0 <==> s.fixed
  {
    hide EntryLimit, FatBytes, Geometry.End, Sectors, Forest, PowerOfTwo;
    SecsCovered(s);
    TableLimit(s);
    assert s.Secs()[n / PER_SECTOR] == sect;
  }

  /** Moving the window keeps the directory. */
  lemma MovedKept(s: State, t: State)
    requires s.Ok() && t == s.(view := t.view) && SameOutsideFat2(s.g, s.view, t.view)
    ensures Kept(s, t)
  {
    hide EntryLimit, FatBytes, Geometry.End, Sectors, Forest, PowerOfTwo;
    SameTable(s, t);
  }

  lemma InWindow(n: nat)
    ensures SZDIRE * n % SS == n % PER_SECTOR * SZDIRE && n % PER_SECTOR * SZDIRE + SZDIRE <= SS
  {
    DivModUnique(SZDIRE * n, SS, n / PER_SECTOR, n % PER_SECTOR * SZDIRE);
  }

  /** The entry at a position is part of its sector. */
  lemma EntryHere(s: State, n: nat, dptr: nat, sect: nat, clust: nat)
    requires s.Ok() && Position(s, n, dptr, sect, clust)
    ensures n < |s.Table()| && sect < |s.view| && dptr % SS + SZDIRE <= SS
    ensures s.Table()[n] == s.view[sect][dptr % SS..dptr % SS + SZDIRE]
    ensures dptr % SS == n % PER_SECTOR * SZDIRE && s.Secs()[n / PER_SECTOR] == sect
  {
    hide EntryLimit, FatBytes, Geometry.End, Sectors, Forest, PowerOfTwo;
    SecsCovered(s);
    InWindow(n);
  }

  lemma ExtendedTable(s: State, t: State)
    requires s.Ok() && Extended(s, t)
    ensures t.Ok() && s.Table() <= t.Table() && forall k :: |s.Table()| <= k < |t.Table()| ==> t.Table()[k][0] == 0
    ensures t.g == s.g && t.others == s.others
  {
  }

  // ---- rewriting entries ----

  /** Entries were rewritten; outside the table, and the FAT apart, the disk is as it was. */
  ghost predicate Rewritten(s: State, t: State)
    requires s.Ok()
  {
    && t.Ok() && t == s.(view := t.view) && |t.view| == |s.view|
    && forall k :: 0 <= k < |s.view| && !s.g.InFat(k) && k !in s.Secs() ==> t.view[k] == s.view[k]
  }

  lemma KeptRewritten(s: State, t: State)
    requires s.Ok() && Kept(s, t)
    ensures Rewritten(s, t)
  {
    hide EntryLimit, FatBytes, Geometry.End, Sectors, Forest, PowerOfTwo, State.Table;
  }

  lemma RewrittenMore(s: State, t: State, u: State)
    requires s.Ok() && Rewritten(s, t) && Rewritten(t, u)
    ensures Rewritten(s, u)
  {
    hide EntryLimit, FatBytes, Geometry.End, Sectors, Forest, PowerOfTwo, State.Table;
  }

  lemma RewrittenFields(s: State, t: State)
    requires s.Ok() && Rewritten(s, t)
    ensures t.Ok() && t == s.(view := t.view) && |t.Table()| == |s.Table()| && t.Secs() == s.Secs()
  {
    hide EntryLimit, FatBytes, Geometry.End, Sectors, Forest, PowerOfTwo;
  }

  /** The window over the current sector, with the current entry replaced. */
  lemma WindowWritten(s: State, t: State, n: nat, dptr: nat, sect: nat, clust: nat, e: Entry)
    requires s.Ok() && Position(s, n, dptr, sect, clust) && sect < |s.view| && dptr % SS + SZDIRE <= SS
    requires t == s.(view := s.view[sect := s.view[sect][..dptr % SS] + e + s.view[sect][dptr % SS + SZDIRE..]])
    ensures Rewritten(s, t) && Position(t, n, dptr, sect, clust)
    ensures n < |s.Table()| && t.Table() == s.Table()[n := e]
  {
    hide EntryLimit, FatBytes, Geometry.End, Sectors, Forest, PowerOfTwo, State.Table;
    EntryHere(s, n, dptr, sect, clust);
    EntryWritten(s, t, n, e);
    assert sect in s.Secs();
  }

  /** Outside the table and the FAT the disk is as it was. */
  ghost predicate Elsewhere(s: State, t: State)
    requires t.Ok()
  {
    |t.view| == |s.view| && t.g == s.g && t.others == s.others
    && forall k :: 0 <= k < |s.view| && !s.g.InFat(k) && k !in t.Secs() ==> t.view[k] == s.view[k]
  }

  lemma KeptElsewhere(s: State, t: State, u: State)
    requires s.Ok() && u.Ok() && Kept(s, t) && Elsewhere(t, u)
    ensures Elsewhere(s, u)
  {
    hide EntryLimit, FatBytes, Geometry.End, Sectors, Forest, PowerOfTwo, State.Table, State.Secs;
  }

  lemma GrownAndRewritten(s: State, t: State, u: State, v: State)
    requires s.Ok() && Kept(s, t) && Extended(t, u) && Rewritten(u, v)
    ensures v.Ok() && Elsewhere(s, v)
    ensures s.Table() <= u.Table() && forall k :: |s.Table()| <= k < |u.Table()| ==> u.Table()[k][0] == 0
  {
    hide EntryLimit, FatBytes, Geometry.End, Sectors, Forest, PowerOfTwo, State.Table;
    KeptExtended(s, t);
    ExtendedMore(s, t, u);
    ExtendedTable(s, u);
  }

  // ---- what survives a registration ----

  /** Every live entry, every sector in use outside the table, and every FAT entry in use but for the end of the
      chain. */
  ghost predicate KeepsLive(s: State, img: seq<Sector>, fat: seq<nat>)
    requires s.Ok()
  {
    && |img| == |s.view| && |fat| == |s.fat|
    && (forall k :: 0 <= k < |img| && !s.g.InFat(k) && !Unused(s, k) && k !in s.Secs() ==> img[k] == s.view[k])
    && (forall c :: 0 <= c < |fat| && s.fat[c] != 0 && !IsTail(s, c) ==> fat[c] == s.fat[c])
    && Covers(img, s.Secs()) && LiveKept(s.Table(), TableOf(img, s.Secs()))
  }

  lemma SurvivesLive(s: State, img: seq<Sector>, fat: seq<nat>)
    requires s.Ok() && Survives(s, img, fat)
    ensures KeepsLive(s, img, fat)
  {
    hide EntryLimit, FatBytes, Geometry.End, Sectors, Forest, PowerOfTwo, State.Table, Unused, IsTail, State.Secs,
      TableOf;
    TableSurvives(s, img, fat);
  }

  /** The part of a grown table that was there before. */
  lemma OldPart(s: State, t: State, img: seq<Sector>)
    requires s.Ok() && t.Ok() && s.Secs() <= t.Secs() && Covers(img, t.Secs())
    ensures Covers(img, s.Secs()) && |s.Table()| <= |t.Table()|
    ensures forall k :: 0 <= k < |s.Table()| ==> TableOf(img, s.Secs())[k] == TableOf(img, t.Secs())[k]
  {
    hide EntryLimit, FatBytes, Geometry.End, Sectors, Forest, PowerOfTwo, State.Secs;
    assert forall j :: 0 <= j < |s.Secs()| ==> s.Secs()[j] == t.Secs()[j];
  }

  /** Grown, and then rewritten within a block of blank entries. */
  lemma BlockSpares(s: State, u: State, v: State, lo: nat, hi: nat)
    requires s.Ok() && Extended(s, u) && Rewritten(u, v) && lo <= hi <= |u.Table()| && AllFree(u.Table(), lo, hi - lo)
    requires OnlyWithin(u.Table(), v.Table(), lo, hi)
    ensures KeepsLive(s, v.view, v.fat)
  {
    hide EntryLimit, FatBytes, Geometry.End, Sectors, Forest, PowerOfTwo, State.Table, Unused, IsTail, Free,
      State.Secs, TableOf;
    ExtendedTable(s, u);
    SecsCovered(v);
    RewrittenFields(u, v);
    TableIs(v);
    OldPart(s, u, v.view);
    forall k | 0 <= k < |s.Table()| && !Free(s.Table()[k])
      ensures k < |TableOf(v.view, s.Secs())| && TableOf(v.view, s.Secs())[k] == s.Table()[k]
    {
      assert u.Table()[k] == s.Table()[k];
    }
  }

  lemma TableIs(s: State)
    requires s.Ok()
    ensures Covers(s.view, s.Secs()) && s.Table() == TableOf(s.view, s.Secs())
  {
    hide EntryLimit, FatBytes, Geometry.End, Sectors, Forest, PowerOfTwo;
    SecsCovered(s);
  }
}
