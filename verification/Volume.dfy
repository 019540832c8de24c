/** Layout of a mounted FAT volume: the geometry fields of FATFS and the region arithmetic over them. */
module Volume {
  import opened Bytes

  datatype FatType = Fat12 | Fat16 | Fat32

  const MAX_FAT12 := 0xFF5
  const MAX_FAT16 := 0xFFF5
  const MAX_FAT32 := 0x0FFF_FFF5

  /** winsect when win[] holds no sector. */
  const NO_SECTOR: dword := 0xFFFF_FFFF

  ghost predicate PowerOfTwo(n: nat)
  {
    n == 1 || (n > 1 && n % 2 == 0 && PowerOfTwo(n / 2))
  }

  /** Largest number of FAT entries a volume of each type may have. */
  function EntryLimit(t: FatType): (n: nat)
    ensures n < 0x1000_0000
  {
    match t
    case Fat12 => MAX_FAT12 + 2
    case Fat16 => MAX_FAT16 + 2
    case Fat32 => MAX_FAT32 + 2
  }

  /** The values an entry of each type can hold are those below this bound. */
  function EntryRange(t: FatType): (n: nat)
    ensures EntryLimit(t) < n
  {
    match t
    case Fat12 => 0x1000
    case Fat16 => 0x1_0000
    case Fat32 => 0x1000_0000
  }

  /** Bytes of FAT occupied by entries 0..n-1. */
  function FatBytes(t: FatType, n: nat): nat
  {
    match t
    case Fat12 => n * 3 / 2 + n % 2
    case Fat16 => 2 * n
    case Fat32 => 4 * n
  }

  datatype Geometry = Geometry(
    fsType: FatType,
    nFats: nat,
    csize: nat,
    nRootdir: nat,
    nFatent: nat,
    fsize: nat,
    volbase: nat,
    fatbase: nat,
    dirbase: nat,
    database: nat)
  {
    /** What mounting establishes: the FAT copies lie before the data area and hold every entry. */
    ghost predicate Valid() {
      && 1 <= nFats <= 2
      && 1 <= csize <= 128 && PowerOfTwo(csize)
      && 3 <= nFatent <= EntryLimit(fsType)
      && volbase < fatbase
      && fatbase + FatArea() <= database
      && FatBytes(fsType, nFatent) <= SS * fsize
      && End() <= NO_SECTOR
    }

    /** Sectors of all FAT copies. */
    function FatArea(): nat
    {
      if nFats == 2 then 2 * fsize else fsize
    }

    /** First sector past the data area. */
    function End(): nat
    {
      database + csize * (if nFatent < 2 then 0 else nFatent - 2)
    }

    predicate InFat1(s: nat) {
      fatbase <= s < fatbase + fsize
    }

    predicate InFat2(s: nat) {
      nFats == 2 && fatbase + fsize <= s < fatbase + 2 * fsize
    }

    predicate InFat(s: nat) {
      InFat1(s) || InFat2(s)
    }

    predicate IsCluster(c: nat) {
      2 <= c < nFatent
    }

    /** First sector of a cluster. */
    function FirstSector(c: nat): nat
      requires IsCluster(c)
    {
      database + csize * (c - 2)
    }

    /** The sectors of a cluster. */
    predicate InCluster(s: nat, c: nat)
      requires IsCluster(c)
    {
      FirstSector(c) <= s < FirstSector(c) + csize
    }

    /** clst2sect: the sector number as C computes it, 0 for an invalid cluster number. */
    function ClstToSect(clst: dword): (s: dword)
    {
      if Sub32(clst, 2) >= nFatent - 2 then 0
      else (database + csize * Sub32(clst, 2)) % DWORD_MOD
    }

    /** The EOC mark, as the entry width truncates 0xFFFFFFFF. */
    function Eoc(): (e: nat)
      ensures EntryLimit(fsType) < e < NO_SECTOR
    {
      EntryRange(fsType) - 1
    }
  }

  /** Cluster numbers fit an entry; 0xFFFFFFFF is truncated to the EOC mark. */
  lemma EntryValues(g: Geometry)
    requires g.Valid()
    ensures forall c {:trigger c % EntryRange(g.fsType)} :: 0 <= c < g.nFatent ==> c % EntryRange(g.fsType) == c
    ensures 0xFFFF_FFFF % EntryRange(g.fsType) == g.Eoc()
    ensures g.nFatent <= g.Eoc()
  {
  }

  lemma ClusterBounds(g: Geometry, c: nat)
    requires g.Valid() && g.IsCluster(c)
    ensures g.database <= g.FirstSector(c)
    ensures g.FirstSector(c) + g.csize <= g.End()
  {
    hide PowerOfTwo;
    assert g.csize * (c - 2) + g.csize == g.csize * (c - 1);
    MulMonotone(g.csize, c - 1, g.nFatent - 2);
    MulMonotone(g.csize, 0, c - 2);
  }

  lemma MulMonotone(k: nat, a: int, b: int)
    requires a <= b
    ensures k * a <= k * b
  {
    assert k * (b - a) >= 0;
  }

  /** Distinct clusters own disjoint sectors. */
  lemma ClustersDisjoint(g: Geometry, c: nat, d: nat)
    requires g.Valid() && g.IsCluster(c) && g.IsCluster(d) && c < d
    ensures g.FirstSector(c) + g.csize <= g.FirstSector(d)
  {
    hide PowerOfTwo;
    assert g.csize * (c - 2) + g.csize == g.csize * (c - 1);
    MulMonotone(g.csize, c - 1, d - 2);
  }

  /** A sector belongs to at most one cluster. */
  lemma OneCluster(g: Geometry, s: nat, c: nat, d: nat)
    requires g.Valid() && g.IsCluster(c) && g.IsCluster(d) && g.InCluster(s, c) && g.InCluster(s, d)
    ensures c == d
  {
    hide PowerOfTwo, Geometry.FirstSector, Geometry.End;
    if c < d { ClustersDisjoint(g, c, d); }
    if d < c { ClustersDisjoint(g, d, c); }
  }

  /** clst2sect maps exactly the clusters of the volume to their own sectors in the data area and
      answers 0 for every other number; distinct clusters get disjoint sector ranges. */
  lemma ClstToSectCorrect(g: Geometry, c: dword)
    requires g.Valid()
    ensures g.ClstToSect(c) != 0 <==> g.IsCluster(c)
    ensures g.IsCluster(c) ==> g.ClstToSect(c) == g.FirstSector(c)
                               && g.database <= g.ClstToSect(c)
                               && g.ClstToSect(c) + g.csize <= g.End()
    ensures forall d: dword :: g.IsCluster(c) && g.IsCluster(d) && c != d ==>
                                 g.ClstToSect(c) + g.csize <= g.ClstToSect(d)
                                   || g.ClstToSect(d) + g.csize <= g.ClstToSect(c)
  {
    hide PowerOfTwo;
    if g.IsCluster(c) {
      ClusterBounds(g, c);
      ClusterSector(g, c);
      forall d: dword | g.IsCluster(d) && c != d
        ensures g.ClstToSect(c) + g.csize <= g.ClstToSect(d) || g.ClstToSect(d) + g.csize <= g.ClstToSect(c)
      {
        ClusterSector(g, d);
        if c < d { ClustersDisjoint(g, c, d); } else { ClustersDisjoint(g, d, c); }
      }
    }
  }

  lemma ClusterSector(g: Geometry, c: dword)
    requires g.Valid() && g.IsCluster(c)
    ensures g.ClstToSect(c) == g.FirstSector(c) > 0
  {
    hide PowerOfTwo;
    ClusterBounds(g, c);
  }
}
