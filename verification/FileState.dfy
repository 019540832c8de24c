/**
  One open file seen as a value: its chain among the chains of the volume, the logical disk image under
  it, and its private sector buffer overlaid on that image while dirty.
 */
module FileState {
  import opened Bytes
  import opened Volume
  import opened Arith
  import opened Chains
  import opened FatTable
  import opened FileBytes

  datatype State = State(
    g: Geometry,
    fat: seq<nat>,
    view: seq<Sector>,
    winsect: nat,
    chain: seq<nat>,
    others: set<seq<nat>>,
    buf: seq<byte>,
    sect: nat,
    home: nat,
    dirty: bool,
    base: seq<Sector>,
    total: nat,
    window: nat,
    steady: bool)
  {
    /** Every chain of the volume. */
    ghost function All(): set<seq<nat>>
    {
      if chain == [] then others else others + {chain}
    }

    /** Clusters the file owns or may take. */
    ghost predicate Mine(c: nat)
    {
      g.IsCluster(c) && c < |fat| && (c in chain || fat[c] == 0)
    }

    /** The shared window never holds a sector of those clusters. */
    ghost predicate Apart()
    {
      forall c :: Mine(c) ==> !g.InCluster(winsect, c)
    }

    /** The private buffer holds a sector of cluster home, a copy of the image unless it is dirty. */
    ghost predicate Buffered()
    {
      && |buf| == SS
      && (dirty ==> sect != 0)
      && (sect != 0 ==> Mine(home) && g.InCluster(sect, home) && sect < |view| && (dirty || buf == view[sect]))
    }

    /** A sector of none of those clusters. */
    ghost predicate Foreign(k: nat)
    {
      forall c :: Mine(c) ==> !g.InCluster(k, c)
    }

    /** Outside those clusters, the FAT apart, the disk is as it was when the file was opened. */
    ghost predicate Isolated()
    {
      |base| == |view| && forall k :: 0 <= k < |view| && !g.InFat(k) && Foreign(k) ==> view[k] == base[k]
    }

    ghost predicate Ok()
    {
      && g.Valid() && |fat| == g.nFatent && g.End() <= |view|
      && Forest(fat, All()) && chain !in others
      && Clusters(g, chain)
      && Apart()
      && Buffered()
      && Isolated()
      && Balanced()
      && WindowOver(g, window, winsect)
      && Settled()
    }

    /** Unless a truncation has taken it away, the cluster of the buffered sector is one of the file. */
    ghost predicate Settled()
    {
      steady && sect != 0 ==> home in chain
    }

    /** The file's clusters and the free ones together stay the same number. */
    ghost predicate Balanced()
    {
      Zeros(fat) + |chain| == total
    }

    /** The file's view of the disk. */
    ghost function Image(): (img: seq<Sector>)
      requires Buffered()
      ensures |img| == |view|
    {
      if dirty then view[sect := buf] else view
    }

    ghost function Secs(): seq<nat>
      requires Clusters(g, chain)
    {
      Sectors(g, chain)
    }

    /** The file contents, for a size its chain can hold. */
    ghost function Data(size: nat): (r: seq<byte>)
      requires Ok() && size <= SS * |Secs()|
      ensures |r| == size
    {
      SecsCovered(this);
      Content(Image(), Secs(), size)
    }
  }

  /** A file just opened on a disk as it is. */
  ghost function Opened(g: Geometry, fat: seq<nat>, view: seq<Sector>, winsect: nat, chain: seq<nat>,
                        others: set<seq<nat>>): State
  {
    State(g, fat, view, winsect, chain, others, seq(SS, i => 0), 0, 0, false, view, Zeros(fat) + |chain|, winsect, true)
  }

  /** The same file, measured against the other objects and the disk as they are now. */
  ghost function Remarked(s: State, rest: set<seq<nat>>): State
  {
    s.(others := rest, base := s.view, window := s.winsect, total := Zeros(s.fat) + |s.chain|,
       steady := s.sect == 0 || s.home in s.chain)
  }

  lemma SecsCovered(s: State)
    requires s.Ok()
    ensures Covers(s.view, s.Secs()) && Covers(s.Image(), s.Secs())
    ensures forall j :: 0 <= j < |s.Secs()| ==> s.g.database <= s.Secs()[j] < s.g.End()
  {
    hide State.Isolated, PowerOfTwo, EntryLimit, FatBytes, Geometry.End, Sectors, Forest, State.Apart;
    forall j | 0 <= j < |s.Secs()|
      ensures s.g.database <= s.Secs()[j] < s.g.End()
    {
      SectorsOwned(s.g, s.chain, j);
    }
  }

  /** A cluster of the data area never meets the FAT or an empty window. */
  lemma OutsideClusters(g: Geometry, s: nat)
    requires g.Valid() && (g.InFat(s) || s == NO_SECTOR)
    ensures forall c :: g.IsCluster(c) ==> !g.InCluster(s, c)
  {
    hide State.Isolated, PowerOfTwo, EntryLimit, FatBytes, Geometry.FirstSector;
    forall c | g.IsCluster(c)
      ensures !g.InCluster(s, c)
    {
      ClusterBounds(g, c);
    }
  }

  /** The window after any FAT access. */
  ghost predicate WindowOver(g: Geometry, was: nat, now: nat)
  {
    now == NO_SECTOR || g.InFat1(now) || now == was
  }

  /** Images that differ in the FAT copies only agree on data sectors. */
  lemma FatOpKeepsData(s: State, view: seq<Sector>)
    requires s.Ok() && SameOutsideFat(s.g, s.view, view)
    ensures forall k :: s.g.database <= k < |view| ==> s.view[k] == view[k]
  {
  }

  /** Sectors stay foreign while the owned and free clusters together are the same. */
  lemma SameForeign(s: State, t: State)
    requires s.Ok() && t == s.(view := t.view, winsect := t.winsect, fat := t.fat, chain := t.chain, steady := t.steady)
    requires SameOutsideFat(s.g, s.view, t.view) && forall c :: t.Mine(c) <==> s.Mine(c)
    ensures t.Isolated()
  {
    hide PowerOfTwo, EntryLimit, FatBytes, Forest, Clusters, State.Mine, State.Apart, State.Buffered, Geometry.End;
    forall k | 0 <= k < |t.view| && !t.g.InFat(k) && t.Foreign(k)
      ensures t.view[k] == t.base[k]
    {
      assert s.Foreign(k);
    }
  }

  /** Any FAT access that leaves the owned and free clusters together the same leaves the window apart
      and the buffer good. */
  lemma FatOpKeepsPlace(s: State, t: State)
    requires s.Ok() && t == s.(view := t.view, winsect := t.winsect, fat := t.fat, chain := t.chain, steady := t.steady)
    requires SameOutsideFat(s.g, s.view, t.view) && WindowOver(s.g, s.winsect, t.winsect)
    requires |t.fat| == |s.fat| && forall c :: t.Mine(c) <==> s.Mine(c)
    ensures t.Apart() && t.Buffered() && t.Isolated()
    ensures forall k :: s.g.database <= k < |t.view| ==> s.Image()[k] == t.Image()[k]
  {
    SameForeign(s, t);
    hide State.Isolated, PowerOfTwo, EntryLimit, FatBytes, Forest, Clusters, State.Mine;
    FatOpKeepsData(s, t.view);
    forall c | t.Mine(c)
      ensures t.g.IsCluster(c) && !t.g.InCluster(t.winsect, c)
    {
      MineIsCluster(t, c);
      if t.winsect != s.winsect { OutsideClusters(s.g, t.winsect); }
    }
    if s.sect != 0 {
      MineIsCluster(s, s.home);
      ClusterBounds(s.g, s.home);
    }
  }

  lemma MineIsCluster(s: State, c: nat)
    requires s.Mine(c)
    ensures s.g.IsCluster(c)
  {
  }

  /** Reading the FAT: nothing about the file changes. */
  lemma AfterFatRead(s: State, t: State, size: nat)
    requires s.Ok() && t == s.(view := t.view, winsect := t.winsect) && size <= SS * |s.Secs()|
    requires SameOutsideFat(s.g, s.view, t.view) && WindowOver(s.g, s.winsect, t.winsect)
    ensures t.Ok() && t.Data(size) == s.Data(size)
  {
    hide State.Isolated, PowerOfTwo, EntryLimit, FatBytes, Forest, Sectors, Geometry.End;
    FatOpKeepsPlace(s, t);
    SecsCovered(s);
    ContentFrame(s.Image(), t.Image(), s.Secs(), size);
  }

  /** The bytes a chain shows do not depend on sectors outside the data area. */
  lemma DataFrom(s: State, t: State, size: nat)
    requires s.Ok() && t.Ok() && s.g == t.g && |s.view| == |t.view|
    requires s.Secs() <= t.Secs() && size <= SS * |s.Secs()|
    requires forall k :: s.g.database <= k < |t.view| ==> s.Image()[k] == t.Image()[k]
    ensures t.Data(size) == s.Data(size)
  {
    hide State.Isolated, PowerOfTwo, EntryLimit, FatBytes, Forest, Sectors, Geometry.End, State.Apart, State.Image;
    SecsCovered(s);
    SecsCovered(t);
    ContentFrame(s.Image(), t.Image(), s.Secs(), size);
    ContentPrefix(t.Image(), s.Secs(), t.Secs(), size);
  }

  /** create_chain at the end of the file's chain: one cluster more, the same bytes. */
  lemma AfterStretch(s: State, t: State, clst: nat, c: nat, size: nat)
    requires s.Ok() && t == s.(view := t.view, winsect := t.winsect, fat := t.fat, chain := s.chain + [c])
    requires SameOutsideFat(s.g, s.view, t.view) && WindowOver(s.g, s.winsect, t.winsect)
    requires clst == (if s.chain == [] then 0 else s.chain[|s.chain| - 1])
    requires Created(s.fat, t.fat, clst, c, s.g.Eoc()) && size <= SS * |s.Secs()|
    ensures t.Ok() && s.Secs() <= t.Secs() && |t.Secs()| == |s.Secs()| + s.g.csize && t.Data(size) == s.Data(size)
  {
    hide State.Isolated, PowerOfTwo, FatBytes, Sectors, Geometry.End, State.Image, Geometry.FirstSector, State.Apart,
      State.Buffered, Forest, Created, State.Data, EntryLimit, State.Balanced, State.Mine;
    StretchForest(s, t, clst, c);
    StretchBalanced(s, t, clst, c);
    forall d ensures t.Mine(d) <==> s.Mine(d) {
      StretchMine(s, t, clst, c, d);
    }
    FatOpKeepsPlace(s, t);
    SectorsStretch(s.g, s.chain, c);
    SectorsPrefix(s.g, s.chain, t.chain);
    DataFrom(s, t, size);
  }

  lemma StretchBalanced(s: State, t: State, clst: nat, c: nat)
    requires s.Balanced() && t.total == s.total && t.chain == s.chain + [c] && 2 <= c < |s.fat| && s.fat[c] == 0
    requires clst == 0 || (2 <= clst < |s.fat| && s.fat[clst] != 0)
    requires t.fat == Linked(s.fat, clst, c, s.g.Eoc())
    ensures t.Balanced()
  {
    hide ZerosBelow;
    ZerosAfterLink(s.fat, clst, c, s.g.Eoc());
  }

  lemma StretchForest(s: State, t: State, clst: nat, c: nat)
    requires s.Ok() && t == s.(view := t.view, winsect := t.winsect, fat := t.fat, chain := s.chain + [c])
    requires clst == (if s.chain == [] then 0 else s.chain[|s.chain| - 1])
    requires Created(s.fat, t.fat, clst, c, s.g.Eoc())
    ensures Forest(t.fat, t.All()) && t.chain !in t.others && Clusters(t.g, t.chain)
    ensures s.fat[c] == 0 && |t.fat| == |s.fat| && c !in s.chain
    ensures clst != 0 ==> clst in s.chain && s.fat[clst] >= |s.fat|
    ensures 2 <= c < |s.fat| && s.g.IsCluster(c) && (clst != 0 ==> 2 <= clst < |s.fat|)
    ensures t.fat == Linked(s.fat, clst, c, s.g.Eoc())
  {
    hide State.Isolated, PowerOfTwo, FatBytes, State.Apart, State.Buffered, Forest, Geometry.End, State.Balanced;
    var eoc := s.g.Eoc();
    if s.chain == [] {
      CreatedNewChain(s.fat, t.fat, s.others, c, eoc);
      assert t.chain == [c];
    } else {
      ForestChain(s.fat, s.All(), s.chain);
      CreatedForest(s.fat, t.fat, s.All(), s.chain, |s.chain| - 1, c, eoc);
      assert s.All() - {s.chain} == s.others;
    }
    FreeNowhere(s.fat, s.All(), c);
    assert t.chain[|s.chain|] == c;
  }

  lemma StretchMine(s: State, t: State, clst: nat, c: nat, d: nat)
    requires t == s.(view := t.view, winsect := t.winsect, fat := t.fat, chain := s.chain + [c])
    requires c < |s.fat| && clst < |s.fat| && s.fat[c] == 0
    requires clst != 0 ==> clst in s.chain && s.fat[clst] != 0 && clst != c
    requires t.fat == Linked(s.fat, clst, c, s.g.Eoc()) && c != 0 && s.g.IsCluster(c)
    ensures t.Mine(d) <==> s.Mine(d)
  {
  }

  /** What remove_chain behind the first k clusters has done to the disk. */
  ghost predicate Severed(s: State, t: State, k: nat, path: seq<nat>)
    requires k < |s.chain|
  {
    && t == s.(view := t.view, winsect := t.winsect, fat := t.fat)
    && SameOutsideFat(s.g, s.view, t.view) && WindowOver(s.g, s.winsect, t.winsect)
    && var cut := Cut(s.fat, if k == 0 then 0 else s.chain[k - 1], s.g.Eoc());
       IsPath(cut, s.chain[k], path) && Exhausted(cut, s.chain[k], path) && t.fat == Freed(cut, path)
  }

  /** The file without its clusters from the k-th on; a buffer over one of them is not settled. */
  ghost function Shortened(s: State, k: nat): State
    requires k < |s.chain|
  {
    s.(chain := s.chain[..k], steady := s.steady && (s.sect != 0 ==> s.home in s.chain[..k]))
  }

  /** remove_chain behind the first k clusters of the file's chain: the prefix keeps its bytes. */
  lemma AfterCut(s: State, t: State, k: nat, path: seq<nat>, size: nat)
    requires s.Ok() && k < |s.chain| && Severed(s, t, k, path)
    ensures var u := Shortened(t, k);
            u.Ok() && u.Secs() <= s.Secs() && (size <= SS * |u.Secs()| ==> u.Data(size) == s.Data(size))
  {
    hide State.Isolated, PowerOfTwo, FatBytes, Sectors, Geometry.End, State.Image, Geometry.FirstSector, State.Apart,
      State.Buffered, State.Data;
    var u := Shortened(t, k);
    CutForest(s, u, k, path);
    CutBalanced(s, u, k, path);
    FatOpKeepsPlace(s, u);
    SectorsPrefix(s.g, u.chain, s.chain);
    if size <= SS * |u.Secs()| {
      DataTo(s, u, size);
    }
  }

  /** The same, for a chain that became shorter. */
  lemma DataTo(s: State, t: State, size: nat)
    requires s.Ok() && t.Ok() && s.g == t.g && |s.view| == |t.view|
    requires t.Secs() <= s.Secs() && size <= SS * |t.Secs()|
    requires forall k :: s.g.database <= k < |t.view| ==> s.Image()[k] == t.Image()[k]
    ensures t.Data(size) == s.Data(size)
  {
    hide State.Isolated, PowerOfTwo, EntryLimit, FatBytes, Forest, Sectors, Geometry.End, State.Apart, State.Image;
    SecsCovered(s);
    SecsCovered(t);
    ContentFrame(s.Image(), t.Image(), t.Secs(), size);
    ContentPrefix(s.Image(), t.Secs(), s.Secs(), size);
  }

  lemma CutBalanced(s: State, t: State, k: nat, path: seq<nat>)
    requires s.Ok() && k < |s.chain| && path == s.chain[k..] && t.chain == s.chain[..k] && t.total == s.total
    requires t.fat == Freed(Cut(s.fat, if k == 0 then 0 else s.chain[k - 1], s.g.Eoc()), path)
    ensures t.Balanced()
  {
    hide State.Isolated, PowerOfTwo, FatBytes, State.Apart, State.Buffered, Geometry.End, ZerosBelow;
    assert s.chain in s.All() && IsChain(s.fat, s.chain);
    RemovedCount(s.fat, s.chain, k, s.g.Eoc());
  }

  lemma CutForest(s: State, t: State, k: nat, path: seq<nat>)
    requires s.Ok() && k < |s.chain|
    requires t == s.(view := t.view, winsect := t.winsect, fat := t.fat, chain := s.chain[..k], steady := t.steady)
    requires var cut := Cut(s.fat, if k == 0 then 0 else s.chain[k - 1], s.g.Eoc());
             IsPath(cut, s.chain[k], path) && Exhausted(cut, s.chain[k], path) && t.fat == Freed(cut, path)
    ensures |t.fat| == |s.fat| && Forest(t.fat, t.All()) && t.chain !in t.others && Clusters(t.g, t.chain)
    ensures path == s.chain[k..]
    ensures forall d :: t.Mine(d) <==> s.Mine(d)
  {
    hide State.Isolated, PowerOfTwo, FatBytes, State.Apart, State.Buffered, IsPath, Exhausted;
    assert s.chain in s.All() && IsChain(s.fat, s.chain);
    RemovedForest(s.fat, s.All(), s.chain, k, s.g.Eoc(), path);
    assert s.All() - {s.chain} == s.others;
    if k == 0 { assert s.others + {} == s.others; }
    assert t.chain in s.others ==> Disjoint(t.chain, s.chain);
    assert k > 0 ==> t.chain[0] == s.chain[0];
    forall d | s.g.IsCluster(d)
      ensures t.Mine(d) <==> s.Mine(d)
    {
      CutEntry(s.fat, s.chain, k, s.g.Eoc(), d);
      CutOwner(s.fat, s.chain, k, d);
    }
  }

  /** Writing back the dirty buffer does not change the file's view of the disk. */
  lemma AfterFlush(s: State, t: State, size: nat)
    requires s.Ok() && s.dirty && t == s.(view := t.view, dirty := false) && size <= SS * |s.Secs()|
    requires SameOutside(s.view, t.view, s.sect, s.sect + 1) && s.sect < |s.view| && t.view[s.sect] == s.buf
    ensures t.Ok() && t.Image() == s.Image() && t.Data(size) == s.Data(size)
  {
    hide State.Isolated, PowerOfTwo, EntryLimit, FatBytes, Forest, Sectors, Geometry.End;
    FlushIsolated(s, t);
  }

  lemma FlushIsolated(s: State, t: State)
    requires s.Ok() && s.dirty && t == s.(view := t.view, dirty := false)
    requires SameOutside(s.view, t.view, s.sect, s.sect + 1)
    ensures t.Isolated()
  {
    hide PowerOfTwo, EntryLimit, FatBytes, Forest, Sectors, Geometry.End, State.Apart, State.Mine;
    forall k | 0 <= k < |t.view| && !t.g.InFat(k) && t.Foreign(k)
      ensures t.view[k] == t.base[k]
    {
      SameMine(s, t);
      assert s.Foreign(k) && s.Mine(s.home);
    }
  }

  lemma SameMine(s: State, t: State)
    requires t.g == s.g && t.fat == s.fat && t.chain == s.chain
    ensures forall c :: t.Mine(c) <==> s.Mine(c)
  {
  }

  /** What does not touch the disk keeps it isolated. */
  lemma StillIsolated(s: State, t: State)
    requires s.Isolated() && t.g == s.g && t.fat == s.fat && t.chain == s.chain && t.view == s.view && t.base == s.base
    ensures t.Isolated()
  {
    hide State.Mine;
    SameMine(s, t);
    assert forall k :: t.Foreign(k) ==> s.Foreign(k);
  }

  /** Filling a clean buffer does not either. */
  lemma AfterFill(s: State, t: State, sector: nat, c: nat, size: nat)
    requires s.Ok() && !s.dirty && sector < |s.view| && s.Mine(c) && s.g.InCluster(sector, c) && size <= SS * |s.Secs()|
    requires s.steady ==> c in s.chain
    requires t == s.(buf := s.view[sector], sect := sector, home := c)
    ensures t.Ok() && t.Image() == s.Image() && t.Data(size) == s.Data(size)
  {
    hide State.Isolated, PowerOfTwo, EntryLimit, FatBytes, Forest, Sectors, Geometry.End;
    ClusterBounds(s.g, c);
    StillIsolated(s, t);
  }

  /** The buffer shows the bytes of the sector it holds. */
  lemma BufferBytes(s: State, size: nat, p: nat, n: nat)
    requires s.Ok() && p + n <= size <= SS * |s.Secs()| && p % SS + n <= SS && 0 < n
    requires s.sect != 0 && s.sect == s.Secs()[p / SS]
    ensures s.buf[p % SS..p % SS + n] == s.Data(size)[p..p + n]
  {
    hide State.Isolated, PowerOfTwo, EntryLimit, FatBytes, Forest, Sectors, Geometry.End, State.Apart;
    SecsCovered(s);
    assert s.Image()[s.sect] == s.buf;
    SectorBytes(s.Image(), s.Secs(), size, p, n);
  }

  /** A direct read with the dirty buffer laid over it shows the file's view of those sectors. */
  lemma OverlaidRun(s: State, lo: nat, n: nat)
    requires s.Buffered() && lo + n <= |s.view|
    ensures s.Image()[lo..lo + n] == if s.dirty && lo <= s.sect < lo + n then s.view[lo..lo + n][s.sect - lo := s.buf]
                                     else s.view[lo..lo + n]
  {
  }

  lemma SecsDistinct(s: State, i: nat, j: nat)
    requires s.Ok() && i < |s.Secs()| && j < |s.Secs()| && i != j
    ensures s.Secs()[i] != s.Secs()[j]
  {
    hide State.Isolated, PowerOfTwo, EntryLimit, FatBytes, Sectors, Geometry.End, State.Apart, State.Buffered;
    if s.chain != [] {
      assert s.chain in s.All();
      ChainDistinct(s.fat, s.chain);
    }
    if i < j { SectorsInjective(s.g, s.chain, i, j); } else { SectorsInjective(s.g, s.chain, j, i); }
  }

  /** The buffer takes part of a sector of the file. Bytes of that sector past the new end of the file
      may hold anything. */
  lemma AfterBufferWrite(s: State, t: State, size: nat, p: nat, w: seq<byte>, size': nat)
    requires s.Ok() && 0 < |w| && p % SS + |w| <= SS && p <= size
    requires size' == (if p + |w| <= size then size else p + |w|) && size' <= SS * |s.Secs()|
    requires t == s.(buf := t.buf, sect := s.Secs()[p / SS], home := t.home, dirty := true)
    requires t.Mine(t.home) && t.g.InCluster(t.sect, t.home) && |t.buf| == SS && (s.dirty ==> s.sect == t.sect)
    requires t.steady ==> t.home in t.chain
    requires forall i :: 0 <= i < |w| ==> t.buf[p % SS + i] == w[i]
    requires forall i :: 0 <= i < SS && !(p % SS <= i < p % SS + |w|) && SS * (p / SS) + i < size' ==>
                           t.sect < |s.Image()| && t.buf[i] == s.Image()[t.sect][i]
    ensures t.Ok() && t.Data(size') == Splice(s.Data(size), p, w)
  {
    hide State.Isolated, PowerOfTwo, EntryLimit, FatBytes, Forest, Sectors, Geometry.End, Geometry.FirstSector;
    SecsCovered(s);
    ClusterBounds(t.g, t.home);
    StillIsolated(s, t);
    assert t.Ok();
    var secs, a, b := s.Secs(), s.Image(), t.Image();
    forall q | 0 <= q < size'
      ensures b[secs[q / SS]][q % SS] == if p <= q < p + |w| then w[q - p] else a[secs[q / SS]][q % SS]
    {
      if q / SS == p / SS {
        assert p <= q < p + |w| ==> q % SS == p % SS + (q - p);
      } else {
        SecsDistinct(s, q / SS, p / SS);
      }
    }
    ContentSplice(a, b, secs, size, p, w, size');
  }

  /** Whole sectors are written directly, and the clean buffer follows if it holds one of them. */
  lemma AfterDirectWrite(s: State, t: State, size: nat, p: nat, data: seq<Sector>, size': nat, lo: nat)
    requires s.Ok() && !s.dirty && 0 < |data| && p % SS == 0 && p <= size
    requires size' == (if p + SS * |data| <= size then size else p + SS * |data|) && size' <= SS * |s.Secs()|
    requires Consecutive(s.Secs(), p / SS, lo, |data|) && lo + |data| <= |s.view|
    requires SameOutside(s.view, t.view, lo, lo + |data|) && t.view[lo..lo + |data|] == data
    requires t == s.(view := t.view, buf := t.buf)
    requires t.buf == if lo <= s.sect < lo + |data| then data[s.sect - lo] else s.buf
    ensures t.Ok() && t.Data(size') == Splice(s.Data(size), p, Flat(data))
  {
    hide State.Isolated, PowerOfTwo, EntryLimit, FatBytes, Forest, Sectors, Geometry.End, Geometry.FirstSector;
    SecsCovered(s);
    DirectIsolated(s, t, p, |data|, lo);
    assert t.Ok();
    var secs, j0, n := s.Secs(), p / SS, |data|;
    forall q | 0 <= q < size'
      ensures t.view[secs[q / SS]][q % SS] == if p <= q < p + SS * n then Flat(data)[q - p]
              else s.view[secs[q / SS]][q % SS]
    {
      DirectWriteByte(s, t, data, p, q, lo);
    }
    ContentSplice(s.view, t.view, secs, size, p, Flat(data), size');
  }

  lemma DirectIsolated(s: State, t: State, p: nat, n: nat, lo: nat)
    requires s.Ok() && Consecutive(s.Secs(), p / SS, lo, n) && lo + n <= |s.view|
    requires SameOutside(s.view, t.view, lo, lo + n) && t == s.(view := t.view, buf := t.buf)
    ensures t.Isolated()
  {
    hide PowerOfTwo, EntryLimit, FatBytes, Forest, Sectors, Geometry.End, State.Apart, State.Buffered,
      Geometry.FirstSector;
    forall k | 0 <= k < |t.view| && !t.g.InFat(k) && t.Foreign(k)
      ensures t.view[k] == t.base[k]
    {
      SameMine(s, t);
      assert s.Foreign(k);
      if lo <= k < lo + n { OwnSector(s, p / SS + (k - lo)); }
    }
  }

  /** The sectors of the file lie in its clusters. */
  lemma OwnSector(s: State, j: nat)
    requires s.Ok() && j < |s.Secs()|
    ensures 0 <= j / s.g.csize < |s.chain| && s.Mine(s.chain[j / s.g.csize])
    ensures s.g.InCluster(s.Secs()[j], s.chain[j / s.g.csize])
    ensures !s.Foreign(s.Secs()[j])
  {
    hide State.Isolated, PowerOfTwo, EntryLimit, FatBytes, Forest, Sectors, Geometry.End, State.Apart, State.Buffered,
      Geometry.FirstSector;
    SectorsOwned(s.g, s.chain, j);
  }

  /** The sectors of another object lie in none of the clusters the file owns or may take. */
  lemma OtherIsForeign(s: State, other: seq<nat>, j: nat)
    requires s.Ok() && other in s.others && Clusters(s.g, other) && j < |Sectors(s.g, other)|
    ensures s.g.database <= Sectors(s.g, other)[j] < s.g.End() && s.Foreign(Sectors(s.g, other)[j])
  {
    hide PowerOfTwo, EntryLimit, FatBytes, Sectors, State.Apart, State.Buffered, State.Isolated, Geometry.FirstSector,
      Forest, Geometry.End, State.Mine, Geometry.InCluster;
    SectorsOwned(s.g, other, j);
    forall d | s.Mine(d)
      ensures s.g.IsCluster(d) && !s.g.InCluster(Sectors(s.g, other)[j], d)
    {
      MineIsCluster(s, d);
      NotShared(s, other, j / s.g.csize, d);
      if s.g.InCluster(Sectors(s.g, other)[j], d) { OneCluster(s.g, Sectors(s.g, other)[j], other[j / s.g.csize], d); }
    }
  }

  /** The sectors of every other object are as they were when the file was opened. */
  lemma OthersUntouched(s: State, other: seq<nat>, j: nat)
    requires s.Ok() && other in s.others && Clusters(s.g, other) && j < |Sectors(s.g, other)|
    ensures Sectors(s.g, other)[j] < |s.view| && s.view[Sectors(s.g, other)[j]] == s.base[Sectors(s.g, other)[j]]
  {
    hide PowerOfTwo, EntryLimit, FatBytes, Sectors, State.Apart, State.Buffered, Geometry.FirstSector, Forest,
      State.Foreign, Geometry.End;
    OtherIsForeign(s, other, j);
    DataOutsideFat(s.g, Sectors(s.g, other)[j]);
  }

  /** Every other object has the same sectors with the same contents. */
  ghost predicate OthersSame(s: State, t: State)
  {
    && t.others == s.others && |t.view| == |s.view|
    && forall other, j ::
         && other in s.others && Clusters(s.g, other)
         && 0 <= j < |Sectors(s.g, other)| && Sectors(s.g, other)[j] < |s.view| ==>
           t.view[Sectors(s.g, other)[j]] == s.view[Sectors(s.g, other)[j]]
  }

  lemma OthersKept(s: State, t: State)
    requires s.Ok() && t.Ok() && t.g == s.g && t.base == s.base && t.others == s.others
    ensures OthersSame(s, t)
  {
    hide PowerOfTwo, EntryLimit, FatBytes, Sectors, State.Apart, State.Buffered, Geometry.FirstSector, Forest;
    forall other, j | other in s.others && Clusters(s.g, other) && 0 <= j < |Sectors(s.g, other)|
      ensures Sectors(s.g, other)[j] < |s.view| && t.view[Sectors(s.g, other)[j]] == s.view[Sectors(s.g, other)[j]]
    {
      OthersUntouched(s, other, j);
      OthersUntouched(t, other, j);
    }
  }

  /** The chains of other objects are chains, and their sectors are as they were when the file was opened. */
  ghost predicate Intact(g: Geometry, fat: seq<nat>, view: seq<Sector>, others: set<seq<nat>>, base: seq<Sector>)
  {
    && |view| == |base|
    && (forall other :: other in others ==> IsChain(fat, other))
    && forall other, j ::
         other in others && Clusters(g, other) && 0 <= j < |Sectors(g, other)| && Sectors(g, other)[j] < |base| ==>
           view[Sectors(g, other)[j]] == base[Sectors(g, other)[j]]
  }

  lemma StillIntact(s: State)
    requires s.Ok()
    ensures Intact(s.g, s.fat, s.view, s.others, s.base)
  {
    hide PowerOfTwo, EntryLimit, FatBytes, Sectors, State.Apart, State.Buffered, Geometry.FirstSector;
    assert forall other :: other in s.others ==> other in s.All();
    forall other, j | other in s.others && Clusters(s.g, other) && 0 <= j < |Sectors(s.g, other)|
      ensures Sectors(s.g, other)[j] < |s.view| && s.view[Sectors(s.g, other)[j]] == s.base[Sectors(s.g, other)[j]]
    {
      OthersUntouched(s, other, j);
    }
  }

  /** A change of the FAT that broke off among the file's own and free clusters. */
  lemma TornFat(s: State, fat: seq<nat>, view: seq<Sector>)
    requires s.Ok() && |fat| == |s.fat| && SameOutsideFat(s.g, s.view, view)
    requires forall c :: 2 <= c < |fat| && s.fat[c] != 0 && c !in s.chain ==> fat[c] == s.fat[c]
    ensures Intact(s.g, fat, view, s.others, s.base)
  {
    hide PowerOfTwo, EntryLimit, FatBytes, Sectors, State.Apart, State.Buffered, State.Isolated, Geometry.FirstSector,
      Forest, Geometry.End;
    StillIntact(s);
    forall other | other in s.others
      ensures IsChain(fat, other)
    {
      OtherChain(s, fat, other);
    }
    forall other, j | other in s.others && Clusters(s.g, other) && 0 <= j < |Sectors(s.g, other)|
      ensures Sectors(s.g, other)[j] < |s.view| && view[Sectors(s.g, other)[j]] == s.view[Sectors(s.g, other)[j]]
    {
      SectorsOwned(s.g, other, j);
      DataOutsideFat(s.g, Sectors(s.g, other)[j]);
    }
  }

  lemma DataOutsideFat(g: Geometry, k: nat)
    requires g.Valid() && g.database <= k
    ensures !g.InFat(k)
  {
    hide PowerOfTwo, EntryLimit, FatBytes, Geometry.End;
  }

  lemma OtherChain(s: State, fat: seq<nat>, other: seq<nat>)
    requires s.Ok() && other in s.others && |fat| == |s.fat|
    requires forall c :: 2 <= c < |fat| && s.fat[c] != 0 && c !in s.chain ==> fat[c] == s.fat[c]
    ensures IsChain(fat, other)
  {
    hide PowerOfTwo, EntryLimit, FatBytes, Sectors, State.Apart, State.Buffered, State.Isolated, Geometry.End,
      Disjoint, IsChain;
    assert other in s.All();
    forall i | 0 <= i < |other|
      ensures 2 <= other[i] < |fat| && fat[other[i]] == s.fat[other[i]]
    {
      ForestMember(s.fat, s.All(), other, i);
      if other[i] in s.chain {
        var j :| 0 <= j < |s.chain| && s.chain[j] == other[i];
        ForestApart(s.fat, s.All(), other, s.chain, i, j);
      }
    }
    ChainFrame(s.fat, fat, other);
  }

  /** A write that broke off inside the clusters of the file. */
  lemma TornData(s: State, view: seq<Sector>, lo: nat, hi: nat)
    requires s.Ok() && SameOutside(s.view, view, lo, hi) && forall k :: lo <= k < hi ==> !s.Foreign(k)
    ensures Intact(s.g, s.fat, view, s.others, s.base)
  {
    hide PowerOfTwo, EntryLimit, FatBytes, Sectors, State.Apart, State.Buffered, State.Isolated, Geometry.FirstSector,
      Forest, Geometry.End, State.Foreign;
    StillIntact(s);
    forall other, j | other in s.others && Clusters(s.g, other) && 0 <= j < |Sectors(s.g, other)|
      ensures Sectors(s.g, other)[j] < |s.view| && view[Sectors(s.g, other)[j]] == s.view[Sectors(s.g, other)[j]]
    {
      OtherIsForeign(s, other, j);
    }
  }

  /** A write back of the buffer, */
  lemma TornFlush(s: State, view: seq<Sector>)
    requires s.Ok() && s.sect != 0 && SameOutside(s.view, view, s.sect, s.sect + 1)
    ensures Intact(s.g, s.fat, view, s.others, s.base)
  {
    hide PowerOfTwo, EntryLimit, FatBytes, Sectors, State.Apart, State.Isolated, Geometry.FirstSector, Forest,
      Geometry.End, State.Mine, Geometry.InCluster;
    assert !s.Foreign(s.sect) by { assert s.Mine(s.home); }
    TornData(s, view, s.sect, s.sect + 1);
  }

  /** a direct transfer, */
  lemma TornRun(s: State, view: seq<Sector>, p: nat, lo: nat, n: nat)
    requires s.Ok() && Consecutive(s.Secs(), p / SS, lo, n) && SameOutside(s.view, view, lo, lo + n)
    ensures Intact(s.g, s.fat, view, s.others, s.base)
  {
    hide PowerOfTwo, EntryLimit, FatBytes, Sectors, State.Apart, State.Buffered, State.Isolated, Geometry.FirstSector,
      Forest, Geometry.End, State.Foreign;
    forall k | lo <= k < lo + n
      ensures !s.Foreign(k)
    {
      OwnSector(s, p / SS + (k - lo));
    }
    TornData(s, view, lo, lo + n);
  }

  /** a new link at the i-th cluster, */
  lemma TornLink(s: State, fat: seq<nat>, view: seq<Sector>, clst: nat)
    requires s.Ok() && |fat| == |s.fat| && SameOutsideFat(s.g, s.view, view) && (clst == 0 || clst in s.chain)
    requires forall c :: 0 <= c < |fat| && c != clst && s.fat[c] != 0 ==> fat[c] == s.fat[c]
    ensures Intact(s.g, fat, view, s.others, s.base)
  {
    hide PowerOfTwo, EntryLimit, FatBytes, Sectors, State.Apart, State.Buffered, State.Isolated, Forest, Intact,
      Geometry.End;
    TornFat(s, fat, view);
  }

  /** and a cut behind the first k clusters, broken off. */
  lemma TornCut(s: State, fat: seq<nat>, view: seq<Sector>, k: nat, path: seq<nat>)
    requires s.Ok() && k < |s.chain| && SameOutsideFat(s.g, s.view, view)
    requires var p := if k == 0 then 0 else s.chain[k - 1];
             var cut := Cut(s.fat, p, s.g.Eoc());
             IsPath(cut, s.chain[k], path) && FreedBut(s.fat, fat, path, {p, Next(cut, s.chain[k], path)})
    ensures Intact(s.g, fat, view, s.others, s.base)
  {
    hide PowerOfTwo, EntryLimit, FatBytes, Sectors, State.Apart, State.Buffered, State.Isolated, Intact, Geometry.End,
      IsPath;
    assert s.chain in s.All() && IsChain(s.fat, s.chain);
    PathInChain(s.fat, s.chain, k, s.g.Eoc(), path);
    TornFat(s, fat, view);
  }

  lemma NotShared(s: State, other: seq<nat>, i: nat, d: nat)
    requires s.Ok() && other in s.others && i < |other| && s.Mine(d)
    ensures other[i] != d
  {
    hide State.Isolated, PowerOfTwo, EntryLimit, FatBytes, Sectors, State.Apart, State.Buffered, Geometry.FirstSector;
    assert other in s.All() && Owned(s.All(), other[i]);
    if s.chain != [] { assert Disjoint(other, s.chain); }
  }

  lemma DirectWriteByte(s: State, t: State, data: seq<Sector>, p: nat, q: nat, lo: nat)
    requires s.Ok() && p % SS == 0 && q / SS < |s.Secs()|
    requires Consecutive(s.Secs(), p / SS, lo, |data|) && lo + |data| <= |s.view| == |t.view|
    requires SameOutside(s.view, t.view, lo, lo + |data|) && t.view[lo..lo + |data|] == data
    requires s.Secs()[q / SS] < |s.view|
    ensures t.view[s.Secs()[q / SS]][q % SS] == if p <= q < p + SS * |data| then Flat(data)[q - p]
            else s.view[s.Secs()[q / SS]][q % SS]
  {
    hide State.Isolated, PowerOfTwo, EntryLimit, FatBytes, Forest, Sectors, Geometry.End, Geometry.FirstSector,
      Geometry.Valid, State.Apart, State.Buffered;
    var secs, j, j0 := s.Secs(), q / SS, p / SS;
    if j0 <= j < j0 + |data| {
      assert (q - p) / SS == j - j0 && (q - p) % SS == q % SS;
      assert secs[j] == lo + (j - j0);
      assert data[j - j0] == t.view[lo..lo + |data|][j - j0];
    } else if lo <= secs[j] < lo + |data| {
      assert secs[j0 + (secs[j] - lo)] == secs[j];
      SecsDistinct(s, j, j0 + (secs[j] - lo));
    }
  }

  /** Index in the chain of the cluster of byte p. */
  ghost function ClusterIndex(g: Geometry, p: nat): nat
  {
    if g.csize == 0 then 0 else p / SS / g.csize
  }

  lemma ClusterIndexInChain(s: State, p: nat)
    requires s.Ok() && p / SS < |s.Secs()|
    ensures ClusterIndex(s.g, p) < |s.chain| && s.g.IsCluster(s.chain[ClusterIndex(s.g, p)])
    ensures s.chain[ClusterIndex(s.g, p)] < 0x1000_0000
  {
    hide State.Isolated, FatBytes, Sectors, Geometry.End, State.Apart, State.Buffered, PowerOfTwo, Forest;
    SectorsIndex(s.g, s.chain, p / SS);
  }

  lemma BoundaryIndex(g: Geometry, p: nat)
    requires g.csize > 0 && 0 < p && p % SS == 0
    ensures ClusterIndex(g, p - 1) == if p / SS % g.csize == 0 then ClusterIndex(g, p) - 1 else ClusterIndex(g, p)
  {
    assert (p - 1) / SS == p / SS - 1;
    StepBack(p / SS, g.csize);
  }

  /** Where the byte at a sector boundary lives: in the cluster of the byte before it, or, on a cluster
      boundary, in the one that cluster's FAT entry names. */
  lemma ClusterAtBoundary(s: State, p: nat)
    requires s.Ok() && 0 < p && p % SS == 0 && p / SS < |s.Secs()|
    ensures ClusterIndex(s.g, p) < |s.chain|
    ensures var i, k := ClusterIndex(s.g, p), ClusterIndex(s.g, p - 1);
            && 0 <= k < |s.chain| && s.g.IsCluster(s.chain[k])
            && if p / SS % s.g.csize == 0 then s.fat[s.chain[k]] == s.chain[i] else k == i
  {
    hide State.Isolated, FatBytes, Sectors, Geometry.End, State.Apart, State.Buffered, PowerOfTwo, ClusterIndex;
    ClusterIndexInChain(s, p);
    BoundaryIndex(s.g, p);
    assert s.chain in s.All() && IsChain(s.fat, s.chain);
  }

  /** The sector offset in the cluster, as the C code masks it. */
  lemma SectorMask(s: State, j: nat)
    requires s.Ok()
    ensures 0 < s.g.csize <= 128 && And(j, s.g.csize - 1) == j % s.g.csize < s.g.csize
  {
    AndMask(j, s.g.csize);
  }

  /** clst2sect of the current cluster plus the masked offset is the disk sector of byte p; up to the end
      of the cluster the file is consecutive there, and the window stays out of it. */
  lemma SectorOfPosition(s: State, p: nat, n: nat)
    requires s.Ok() && p / SS < |s.Secs()| && 0 < n && p / SS % s.g.csize + n <= s.g.csize
    ensures ClusterIndex(s.g, p) < |s.chain|
    ensures var c, j := s.chain[ClusterIndex(s.g, p)], p / SS;
            && c < NO_SECTOR && s.Mine(c) && s.g.ClstToSect(c) != 0
            && s.Secs()[j] == s.g.ClstToSect(c) + j % s.g.csize
            && s.g.InCluster(s.Secs()[j], c)
            && Consecutive(s.Secs(), j, s.Secs()[j], n)
            && s.g.database <= s.Secs()[j] && s.Secs()[j] + n <= s.g.End() < DWORD_MOD
            && !(s.Secs()[j] <= s.winsect < s.Secs()[j] + n)
  {
    hide State.Isolated, FatBytes, Sectors, PowerOfTwo, Forest, Geometry.FirstSector, Consecutive, State.Buffered,
      Geometry.ClstToSect;
    ClusterIndexInChain(s, p);
    var c := s.chain[ClusterIndex(s.g, p)];
    ClusterSector(s.g, c);
    ClusterBounds(s.g, c);
    SectorsIndex(s.g, s.chain, p / SS);
    ClusterRun(s.g, s.chain, p / SS, n);
    assert s.Mine(c);
  }

  /** What a direct read delivers, the dirty buffer laid over it, is the file's bytes there. */
  lemma DirectRead(s: State, size: nat, p: nat, data: seq<Sector>, lo: nat)
    requires s.Ok() && p % SS == 0 && p + SS * |data| <= size <= SS * |s.Secs()|
    requires Consecutive(s.Secs(), p / SS, lo, |data|) && lo + |data| <= |s.view|
    requires data == if s.dirty && lo <= s.sect < lo + |data| then s.view[lo..lo + |data|][s.sect - lo := s.buf]
                     else s.view[lo..lo + |data|]
    ensures Flat(data) == s.Data(size)[p..p + SS * |data|]
  {
    hide State.Isolated, FatBytes, Sectors, PowerOfTwo, Forest, Geometry.End, Consecutive, State.Apart, Flat, Content,
      EntryLimit, State.Image, State.Balanced, Covers, State.Settled, WindowOver, State.Mine, Geometry.InCluster,
      State.Data;
    OverlaidRun(s, lo, |data|);
    assert data == s.Image()[lo..lo + |data|];
    DataRun(s, size, p, lo, |data|);
  }

  lemma DataRun(s: State, size: nat, p: nat, lo: nat, n: nat)
    requires s.Ok() && p % SS == 0 && p + SS * n <= size <= SS * |s.Secs()|
    requires Consecutive(s.Secs(), p / SS, lo, n) && lo + n <= |s.view|
    ensures Flat(s.Image()[lo..lo + n]) == s.Data(size)[p..p + SS * n]
  {
    hide State.Isolated, FatBytes, Sectors, PowerOfTwo, Forest, Geometry.End, Consecutive, State.Apart, Flat, Content,
      EntryLimit, State.Image, State.Balanced, Covers, State.Settled, WindowOver, State.Mine, Geometry.InCluster;
    SecsCovered(s);
    RunBytes(s.Image(), s.Secs(), size, p, lo, n);
  }

  /** After a run of whole sectors inside one cluster the last byte is still in that cluster. */
  lemma EndOfRun(g: Geometry, p: nat, n: nat)
    requires g.csize > 0 && p % SS == 0 && 0 < n && p / SS % g.csize + n <= g.csize
    ensures (p + SS * n) % SS == 0 && ClusterIndex(g, p + SS * n - 1) == ClusterIndex(g, p)
  {
    assert (p + SS * n - 1) / SS == p / SS + (n - 1);
    SameBlock(p / SS, n - 1, g.csize);
  }

  /** After part of one sector the last byte is still in the cluster and sector of the first. */
  lemma EndOfPart(g: Geometry, p: nat, n: nat)
    requires 0 < n && p % SS + n <= SS
    ensures ClusterIndex(g, p + n - 1) == ClusterIndex(g, p)
    ensures (p + n) % SS != 0 ==> (p + n) / SS == p / SS
  {
    assert (p + n - 1) / SS == p / SS;
  }

  /** No sector of a file is sector 0. */
  lemma BufferedAt(s: State, p: nat)
    requires s.Ok() && p / SS < |s.Secs()|
    ensures s.Secs()[p / SS] != 0
  {
    hide State.Isolated, PowerOfTwo, EntryLimit, FatBytes, Sectors, Geometry.End, Forest, State.Apart, State.Buffered;
    SecsCovered(s);
  }

  /** Inside a sector the byte before the pointer is in the same cluster. */
  lemma SameSectorIndex(g: Geometry, p: nat)
    requires p % SS != 0
    ensures ClusterIndex(g, p - 1) == ClusterIndex(g, p)
  {
    assert (p - 1) / SS == p / SS;
  }

  /** Every member of the chain is a cluster in use; no entry of the table is 1. */
  lemma ChainInUse(s: State)
    requires s.Ok()
    ensures forall i :: 0 <= i < |s.chain| ==> s.g.IsCluster(s.chain[i]) && s.fat[s.chain[i]] >= 2
    ensures forall i :: 0 <= i < |s.chain| - 1 ==> s.fat[s.chain[i]] == s.chain[i + 1]
    ensures s.chain != [] ==> s.fat[s.chain[|s.chain| - 1]] >= |s.fat|
    ensures forall c :: 2 <= c < |s.fat| ==> s.fat[c] != 1
  {
    hide State.Isolated, PowerOfTwo, EntryLimit, FatBytes, Geometry.End, State.Apart, State.Buffered;
    ForestNoOnes(s.fat, s.All());
    if s.chain != [] {
      assert s.chain in s.All() && IsChain(s.fat, s.chain);
      forall i | 0 <= i < |s.chain| ensures s.fat[s.chain[i]] >= 2 { InUse(s.fat, s.chain, i); }
    }
  }

  /** create_chain inside the file's chain only follows it. */
  lemma CreatedInside(s: State, fat: seq<nat>, i: nat, ncl: nat)
    requires s.Ok() && i + 1 < |s.chain| && Created(s.fat, fat, s.chain[i], ncl, s.g.Eoc())
    ensures fat == s.fat && ncl == s.chain[i + 1]
  {
    hide State.Isolated, PowerOfTwo, EntryLimit, FatBytes, Geometry.End, State.Apart, State.Buffered;
    ChainInUse(s);
    assert s.fat[s.chain[i]] == s.chain[i + 1];
  }

  lemma SectorInChain(s: State, p: nat)
    requires s.Ok() && ClusterIndex(s.g, p) < |s.chain|
    ensures p / SS < |s.Secs()|
  {
    hide State.Isolated, PowerOfTwo, EntryLimit, FatBytes, Geometry.End, State.Apart, State.Buffered, Sectors, Forest;
    SectorsIndex(s.g, s.chain, p / SS);
  }

  /** Off a cluster boundary the position lies inside the chain. */
  lemma InsideCluster(s: State, p: nat)
    requires s.Ok() && p <= SS * |s.Secs()| && p % SS == 0 && p / SS % s.g.csize != 0
    ensures p > 0 && p / SS < |s.Secs()| && ClusterIndex(s.g, p) == ClusterIndex(s.g, p - 1) < |s.chain|
  {
    hide State.Isolated, PowerOfTwo, EntryLimit, FatBytes, Geometry.End, State.Apart, State.Buffered, Sectors, Forest;
    SectorsLength(s.g, s.chain);
    if p / SS == |s.Secs()| {
      DivModUnique(p / SS, s.g.csize, |s.chain|, 0);
    }
    SectorsIndex(s.g, s.chain, p / SS);
    BoundaryIndex(s.g, p);
  }

  lemma NotZero(s: State, i: nat)
    requires s.Ok() && i < |s.chain|
    ensures s.chain[i] != 0
  {
    hide State.Isolated, PowerOfTwo, FatBytes, Geometry.End, State.Apart, State.Buffered, Forest;
    assert s.g.IsCluster(s.chain[i]);
  }

  lemma ChainHead(s: State)
    requires s.Ok() && s.chain != []
    ensures 2 <= s.chain[0] < 0x1000_0000
  {
    hide State.Isolated, PowerOfTwo, FatBytes, Geometry.End, State.Apart, State.Buffered, Forest;
    assert s.g.IsCluster(s.chain[0]);
  }

  lemma RunFits(s: State, p: nat, lo: nat, n: nat)
    requires s.Ok() && p % SS == 0 && Consecutive(s.Secs(), p / SS, lo, n)
    ensures p + SS * n <= SS * |s.Secs()|
  {
  }

  /** The file sees its buffer at the sector it holds. */
  lemma ImageAtBuffer(s: State)
    requires s.Ok() && s.sect != 0
    ensures s.sect < |s.Image()| && s.Image()[s.sect] == s.buf
  {
    hide State.Isolated, PowerOfTwo, EntryLimit, FatBytes, Geometry.End, State.Apart, Forest;
  }

  /** f_write's partial store: data goes into the buffer that holds the sector of p, or into one taken over
      unread at the growing edge of the file. */
  lemma AfterPut(s: State, t: State, size: nat, p: nat, w: seq<byte>, size': nat)
    requires s.Ok() && 0 < |w| && p % SS + |w| <= SS && p <= size <= SS * |s.Secs()| && p / SS < |s.Secs()|
    requires size' == if p + |w| <= size then size else p + |w|
    requires t == s.(buf := Splice(s.buf, p % SS, w), sect := s.Secs()[p / SS], home := t.home, dirty := true)
    requires s.Mine(t.home) && s.g.InCluster(t.sect, t.home) && (t.steady ==> t.home in t.chain)
    requires s.sect == t.sect || (!s.dirty && p % SS == 0 && p == size)
    ensures size' <= SS * |s.Secs()| && t.Ok() && t.Data(size') == Splice(s.Data(size), p, w)
  {
    hide State.Isolated, PowerOfTwo, EntryLimit, FatBytes, Geometry.End, State.Apart, Forest, Sectors, State.Data,
      State.Image;
    BufferedAt(s, p);
    if s.sect == t.sect { ImageAtBuffer(s); }
    AfterBufferWrite(s, t, size, p, w, size');
  }

  /** Inside a sector the position lies in the chain. */
  lemma InsideSector(s: State, p: nat)
    requires s.Ok() && p <= SS * |s.Secs()| && p % SS != 0
    ensures p / SS < |s.Secs()|
  {
  }

  lemma BufferHome(s: State)
    requires s.Ok() && s.sect != 0
    ensures s.Mine(s.home) && s.g.InCluster(s.sect, s.home) && (s.steady ==> s.home in s.chain)
  {
    hide State.Isolated, PowerOfTwo, EntryLimit, FatBytes, Geometry.End, State.Apart, Forest;
  }

  /** At a position inside a sector the buffered sector lies in the cluster of the byte before it. */
  lemma HomeInside(s: State, p: nat)
    requires s.Ok() && p % SS != 0 && p / SS < |s.Secs()| && s.sect == s.Secs()[p / SS]
    ensures ClusterIndex(s.g, p - 1) < |s.chain| && s.home == s.chain[ClusterIndex(s.g, p - 1)]
  {
    hide State.Isolated, PowerOfTwo, EntryLimit, FatBytes, Geometry.End, State.Apart, Forest, Sectors,
      Geometry.FirstSector, Geometry.InCluster, State.Buffered;
    BufferedAt(s, p);
    BufferHome(s);
    SectorsOwned(s.g, s.chain, p / SS);
    SameSectorIndex(s.g, p);
    OneCluster(s.g, s.sect, s.home, s.chain[ClusterIndex(s.g, p)]);
  }

  /** The whole-cluster part of a position, as the C code masks it, and the index of its cluster. */
  lemma ClusterStart(s: State, x: nat)
    requires s.Ok()
    ensures 0 < s.g.csize * SS && ClusterIndex(s.g, x) == x / (s.g.csize * SS)
    ensures x - And(x, s.g.csize * SS - 1) == SS * (ClusterIndex(s.g, x) * s.g.csize) <= x
  {
    hide State.Isolated, FatBytes, Geometry.End, State.Apart, State.Buffered, Forest, And, PowerOfTwo, EntryLimit,
      Sectors, State.Balanced;
    MaskedStart(s.g.csize, x);
  }

  lemma MaskedStart(cs: nat, x: nat)
    requires cs > 0 && PowerOfTwo(cs)
    ensures 0 < cs * SS && x / SS / cs == x / (cs * SS)
    ensures x - And(x, cs * SS - 1) == SS * (x / SS / cs * cs) <= x
  {
    hide And, PowerOfTwo;
    DivDiv(x, SS, cs);
    assert SS * cs == cs * SS;
    PowerTimes512(cs);
    AndMask(x, cs * SS);
    DivBound(x, cs * SS, 0);
    Regroup(x / (cs * SS), cs);
  }

  lemma Regroup(q: nat, cs: nat)
    ensures q * (cs * SS) == SS * (q * cs)
  {
  }

  /** A position in the same cluster or a later one is past the start of the cluster. */
  lemma NearStart(s: State, x: nat, y: nat)
    requires s.Ok() && 0 < s.g.csize * SS && y / (s.g.csize * SS) >= x / (s.g.csize * SS)
    ensures SS * (ClusterIndex(s.g, x) * s.g.csize) <= y
  {
    hide State.Isolated, FatBytes, Geometry.End, State.Apart, State.Buffered, Forest, And, PowerOfTwo;
    var cs := s.g.csize;
    ClusterStart(s, x);
    SameOrLater(y, x, cs * SS);
    assert x / (cs * SS) * (cs * SS) == SS * (x / (cs * SS) * cs);
  }

  /** The test of f_lseek for a target in the current cluster or behind it. */
  lemma SeekFrom(s: State, x: nat, y: nat)
    requires s.Ok()
    ensures var bcs := s.g.csize * SS;
            && 0 < bcs && 0 <= x - And(x, bcs - 1) == SS * (ClusterIndex(s.g, x) * s.g.csize)
            && (y / bcs >= x / bcs ==> x - And(x, bcs - 1) <= y)
  {
    hide State.Isolated, FatBytes, Geometry.End, State.Apart, State.Buffered, Forest, And, PowerOfTwo, ClusterIndex;
    ClusterStart(s, x);
    if y / (s.g.csize * SS) >= x / (s.g.csize * SS) { NearStart(s, x, y); }
  }

  /** A position in cluster k of the chain, whose first sector is number base of the file. */
  lemma PositionInCluster(s: State, k: nat, base: nat, pos: nat)
    requires s.Ok() && k < |s.chain| && base == k * s.g.csize && SS * base < pos <= SS * (base + s.g.csize)
    ensures pos <= SS * |s.Secs()| && ClusterIndex(s.g, pos - 1) == k
    ensures pos % SS != 0 ==>
              && pos / SS < |s.Secs()| && ClusterIndex(s.g, pos) == k && s.g.csize > 0
              && pos / SS % s.g.csize == pos / SS - base
  {
    hide State.Isolated, FatBytes, Geometry.End, State.Apart, State.Buffered, Forest, Sectors, PowerOfTwo, EntryLimit;
    SectorsElement(s.g, s.chain, k, s.g.csize - 1);
    var j := (pos - 1) / SS;
    assert base <= j < base + s.g.csize;
    DivModUnique(j, s.g.csize, k, j - base);
    if pos % SS != 0 { assert pos / SS == j; }
  }

  /** The number of clusters that p bytes take. */
  ghost function Need(g: Geometry, p: nat): nat
  {
    if p == 0 then 0 else ClusterIndex(g, p - 1) + 1
  }

  /** A chain has grown as far as needed and no further. */
  ghost predicate Reaches(was: seq<nat>, now: seq<nat>, need: nat)
  {
    was <= now && |now| == if |was| < need then need else |was|
  }

  lemma ReachesMore(a: seq<nat>, b: seq<nat>, c: seq<nat>, need: nat, need': nat)
    requires Reaches(a, b, need) && Reaches(b, c, need') && need <= need'
    ensures Reaches(a, c, need')
  {
  }

  lemma ReachesNothing(a: seq<nat>)
    ensures Reaches(a, a, 0)
  {
  }

  /** At the end of the chain with no cluster free, every cluster the file could have is used up. */
  lemma UsedUp(s: State, p: nat)
    requires s.Ok() && p == SS * |s.Secs()| && forall c :: 2 <= c < s.g.nFatent ==> s.fat[c] != 0
    ensures p == s.g.csize * SS * s.total
  {
    hide PowerOfTwo, EntryLimit, FatBytes, Sectors, State.Data, Geometry.End, State.Apart, State.Buffered,
      State.Isolated, Forest, ZerosBelow;
    ChainEnd(s);
    var n, cs := |s.chain|, s.g.csize;
    assert SS * (n * cs) == cs * SS * n;
    ZerosBelowExtremes(s.fat, |s.fat|);
  }

  lemma NeedMonotone(g: Geometry, p: nat, q: nat)
    requires p <= q
    ensures Need(g, p) <= Need(g, q)
  {
    if 0 < p && g.csize > 0 {
      var a, b := (p - 1) / SS, (q - 1) / SS;
      DivBound(b, g.csize, b / g.csize + 1);
      DivBound(a, g.csize, b / g.csize + 1);
    }
  }

  /** At a cluster boundary behind the last cluster the position is the end of the chain. */
  lemma BoundaryEnd(s: State, p: nat)
    requires s.Ok() && p % SS == 0 && s.g.csize > 0 && p / SS % s.g.csize == 0 && Need(s.g, p) == |s.chain|
    ensures p == SS * |s.Secs()|
  {
    hide State.Isolated, FatBytes, Geometry.End, State.Apart, State.Buffered, Forest, PowerOfTwo, EntryLimit, Sectors;
    ChainEnd(s);
    if p > 0 { BoundaryIndex(s.g, p); }
    DivBound(p / SS, s.g.csize, 0);
  }

  lemma LastInChain(s: State, i: nat)
    requires s.Ok() && i < |s.chain|
    ensures s.fat[s.chain[i]] >= |s.fat| ==> i + 1 == |s.chain|
  {
    hide State.Isolated, FatBytes, Geometry.End, State.Apart, State.Buffered, PowerOfTwo, EntryLimit, Forest;
    ChainInUse(s);
    assert i + 1 < |s.chain| ==> s.fat[s.chain[i]] == s.chain[i + 1];
  }

  /** The end of the chain. */
  lemma ChainEnd(s: State)
    requires s.Ok()
    ensures |s.Secs()| == |s.chain| * s.g.csize
  {
    hide State.Isolated, FatBytes, Geometry.End, State.Apart, State.Buffered, Forest, PowerOfTwo, EntryLimit, Sectors;
    SectorsLength(s.g, s.chain);
  }

  /**
    Where a byte of a file lies: in the cluster its position falls into, in cluster order, cluster 2 being the first of
    the data area; the private buffer counts before the disk while it is dirty.
   */
  lemma ByteOnDisk(s: State, size: nat, p: nat)
    requires s.Ok() && size <= SS * |s.Secs()| && p < size
    ensures s.g.csize > 0 && 0 <= p / 512 / s.g.csize < |s.chain|
    ensures var k := s.g.database + s.g.csize * (s.chain[p / 512 / s.g.csize] - 2) + p / 512 % s.g.csize;
            && 0 <= k < |s.view|
            && s.Data(size)[p] == if s.dirty && s.sect == k then s.buf[p % 512] else s.view[k][p % 512]
  {
    hide State.Isolated, FatBytes, Geometry.End, State.Apart, Forest, PowerOfTwo, EntryLimit, Sectors;
    SecsCovered(s);
    SectorsIndex(s.g, s.chain, p / SS);
  }

  /** Contents for a larger size extend those for a smaller one. */
  lemma DataGrows(s: State, size: nat, size': nat)
    requires s.Ok() && size <= size' <= SS * |s.Secs()|
    ensures s.Data(size')[..size] == s.Data(size)
  {
    hide State.Isolated, FatBytes, Geometry.End, State.Apart, Forest, PowerOfTwo, EntryLimit, Sectors, State.Image;
    SecsCovered(s);
  }

  /** A position past cluster k of the chain means that the chain goes on. */
  lemma LinkWithin(s: State, k: nat, target: nat)
    requires s.Ok() && k < |s.chain| && SS * (k * s.g.csize) + SS * s.g.csize < target <= SS * |s.Secs()|
    ensures k + 1 < |s.chain| && s.g.IsCluster(s.chain[k]) && s.fat[s.chain[k]] == s.chain[k + 1] && 2 <= s.chain[k + 1]
  {
    hide State.Isolated, FatBytes, Geometry.End, State.Apart, State.Buffered, PowerOfTwo, EntryLimit, Sectors, Forest;
    ChainEnd(s);
    ChainInUse(s);
    assert (k + 1) * s.g.csize == k * s.g.csize + s.g.csize;
    MulCancel(k + 1, |s.chain|, s.g.csize);
    assert s.fat[s.chain[k]] == s.chain[k + 1];
  }

  /** The sector f_lseek computes for a position inside a sector is the file's sector there. */
  lemma SeekSector(s: State, k: nat, base: nat, pos: nat)
    requires s.Ok() && k < |s.chain| && base == k * s.g.csize && SS * base < pos <= SS * (base + s.g.csize)
    requires pos % SS != 0
    ensures pos / SS < |s.Secs()| && s.chain[k] < NO_SECTOR && s.g.ClstToSect(s.chain[k]) != 0
    ensures s.Secs()[pos / SS] == s.g.ClstToSect(s.chain[k]) + (pos - SS * base) / SS < DWORD_MOD
    ensures s.Mine(s.chain[k]) && s.g.InCluster(s.Secs()[pos / SS], s.chain[k])
  {
    hide State.Isolated, FatBytes, Geometry.End, State.Apart, State.Buffered, PowerOfTwo, EntryLimit, Sectors, Forest,
      ClusterIndex, Geometry.ClstToSect, Consecutive;
    PositionInCluster(s, k, base, pos);
    assert pos / SS % s.g.csize < s.g.csize;
    SectorOfPosition(s, pos, 1);
    assert (pos - SS * base) / SS == pos / SS - base;
  }

  /** The two clusters at a cut are in use. */
  lemma CutInUse(s: State, k: nat)
    requires s.Ok() && k < |s.chain|
    ensures s.g.IsCluster(s.chain[k]) && (k > 0 ==> s.g.IsCluster(s.chain[k - 1]) && s.fat[s.chain[k - 1]] != 0)
    ensures k > 0 ==> s.chain[k - 1] != 0
    ensures forall c :: 2 <= c < |s.fat| ==> s.fat[c] != 1
  {
    hide State.Isolated, FatBytes, Geometry.End, State.Apart, State.Buffered, PowerOfTwo, EntryLimit, Sectors, Forest;
    ChainInUse(s);
  }

  lemma CutEnd(s: State, k: nat)
    requires s.Ok() && k <= |s.chain|
    ensures Clusters(s.g, s.chain[..k]) && |Sectors(s.g, s.chain[..k])| == k * s.g.csize
  {
    hide State.Isolated, FatBytes, Geometry.End, State.Apart, State.Buffered, PowerOfTwo, EntryLimit, Sectors, Forest;
    SectorsLength(s.g, s.chain[..k]);
  }

  /** The pointer is not past the cluster of the byte before it. */
  lemma PointerBound(s: State, p: nat)
    requires s.Ok() && 0 < p <= SS * |s.Secs()|
    ensures ClusterIndex(s.g, p - 1) < |s.chain| && s.g.IsCluster(s.chain[ClusterIndex(s.g, p - 1)])
    ensures p <= SS * ((ClusterIndex(s.g, p - 1) + 1) * s.g.csize)
  {
    hide State.Isolated, FatBytes, Geometry.End, State.Apart, State.Buffered, PowerOfTwo, EntryLimit, Sectors, Forest;
    ClusterIndexInChain(s, p - 1);
    var j := (p - 1) / SS;
    DivBound(j, s.g.csize, 0);
    assert (j / s.g.csize + 1) * s.g.csize == j / s.g.csize * s.g.csize + s.g.csize;
  }

  lemma NextInChain(s: State, k: nat)
    requires s.Ok() && k < |s.chain| && s.fat[s.chain[k]] < |s.fat|
    ensures k + 1 < |s.chain| && s.fat[s.chain[k]] == s.chain[k + 1]
  {
    hide State.Isolated, FatBytes, Geometry.End, State.Apart, State.Buffered, PowerOfTwo, EntryLimit, Sectors, Forest;
    ChainInUse(s);
    assert k + 1 < |s.chain| ==> s.fat[s.chain[k]] == s.chain[k + 1];
  }

  lemma FullClusterEnd(s: State, k: nat)
    requires s.Ok() && k + 1 == |s.chain|
    ensures 0 < s.g.csize && SS * |s.Secs()| == SS * (k * s.g.csize) + s.g.csize * SS
  {
    hide State.Isolated, FatBytes, Geometry.End, State.Apart, State.Buffered, PowerOfTwo, EntryLimit, Sectors, Forest;
    ChainEnd(s);
    assert (k + 1) * s.g.csize == k * s.g.csize + s.g.csize;
  }

  lemma OffsetInSectors(b: nat, o: nat)
    ensures (SS * b + o) % SS == o % SS && (SS * b + o) / SS == b + o / SS
  {
  }

  /** The file's chain after create_chain behind its i-th cluster returned ncl. */
  ghost function ChainAfter(s: State, i: int, ncl: nat): seq<nat>
  {
    if ncl == 0 || i + 1 < |s.chain| then s.chain else s.chain + [ncl]
  }

  /** What create_chain behind the i-th cluster has done to the disk. */
  ghost predicate Continued(s: State, t: State, i: int, ncl: nat)
    requires s.Ok() && -1 <= i < |s.chain|
  {
    && t == s.(view := t.view, winsect := t.winsect, fat := t.fat, chain := ChainAfter(s, i, ncl))
    && SameOutsideFat(s.g, s.view, t.view) && WindowOver(s.g, s.winsect, t.winsect)
    && var clst := if i == -1 then 0 else s.chain[i];
       if ncl == 0 then t.fat == s.fat && (i >= 0 ==> s.fat[clst] >= |s.fat|)
         else Created(s.fat, t.fat, clst, ncl, s.g.Eoc())
  }

  /** create_chain behind the i-th cluster of the file: it finds the volume full, follows the chain, or
      appends one cluster; the bytes stay. */
  lemma AfterCreate(s: State, t: State, i: int, ncl: nat, size: nat)
    requires s.Ok() && -1 <= i < |s.chain| && (i == -1 ==> s.chain == []) && size <= SS * |s.Secs()|
    requires Continued(s, t, i, ncl)
    ensures t.Ok() && s.chain <= t.chain && s.Secs() <= t.Secs() && t.Data(size) == s.Data(size)
    ensures if ncl == 0 then i + 1 == |t.chain| && t.fat == s.fat else i + 1 < |t.chain| && t.chain[i + 1] == ncl
  {
    hide State.Isolated, FatBytes, Geometry.End, State.Apart, State.Buffered, PowerOfTwo, EntryLimit, Sectors, Forest,
      Created, State.Data;
    if ncl == 0 {
      if i >= 0 { LastInChain(s, i); }
      AfterFatRead(s, t, size);
    } else if i + 1 < |s.chain| {
      CreatedInside(s, t.fat, i, ncl);
      AfterFatRead(s, t, size);
    } else {
      AfterStretch(s, t, if i == -1 then 0 else s.chain[i], ncl, size);
    }
  }
}
