/** A file's bytes: the sectors of a chain of clusters, read through a disk image. */
module FileBytes {
  import opened Bytes
  import opened Volume
  import opened Arith
  import opened Chains

  ghost predicate Clusters(g: Geometry, ch: seq<nat>)
  {
    forall i :: 0 <= i < |ch| ==> g.IsCluster(ch[i])
  }

  /** A run of consecutive sector numbers. */
  ghost function Run(s: nat, n: nat): (r: seq<nat>)
    ensures |r| == n && forall k :: 0 <= k < n ==> r[k] == s + k
  {
    seq(n, k requires 0 <= k => s + k)
  }

  /** The disk sectors of a chain, in file order. */
  ghost function Sectors(g: Geometry, ch: seq<nat>): (r: seq<nat>)
    requires Clusters(g, ch)
  {
    if ch == [] then []
    else Sectors(g, ch[..|ch| - 1]) + Run(g.FirstSector(ch[|ch| - 1]), g.csize)
  }

  lemma {:induction false} SectorsLength(g: Geometry, ch: seq<nat>)
    requires Clusters(g, ch)
    ensures |Sectors(g, ch)| == |ch| * g.csize
  {
    hide Geometry.FirstSector;
    if ch != [] {
      SectorsLength(g, ch[..|ch| - 1]);
      assert |ch| * g.csize == (|ch| - 1) * g.csize + g.csize;
    }
  }

  lemma {:induction false} SectorsElement(g: Geometry, ch: seq<nat>, q: nat, r: nat)
    requires Clusters(g, ch) && q < |ch| && r < g.csize
    ensures q * g.csize + r < |Sectors(g, ch)|
    ensures Sectors(g, ch)[q * g.csize + r] == g.FirstSector(ch[q]) + r
  {
    hide Geometry.FirstSector;
    var front := ch[..|ch| - 1];
    SectorsLength(g, front);
    if q < |front| {
      SectorsElement(g, front, q, r);
    }
  }

  /** The j-th sector of a file is sector j % csize of its cluster j / csize. */
  lemma SectorsIndex(g: Geometry, ch: seq<nat>, j: nat)
    requires g.csize > 0 && Clusters(g, ch)
    ensures 0 <= j / g.csize && (j < |Sectors(g, ch)| <==> j / g.csize < |ch|)
    ensures j < |Sectors(g, ch)| ==> Sectors(g, ch)[j] == g.FirstSector(ch[j / g.csize]) + j % g.csize
  {
    hide Geometry.FirstSector, Sectors;
    SectorsLength(g, ch);
    DivBound(j, g.csize, |ch|);
    if j < |Sectors(g, ch)| {
      SectorsElement(g, ch, j / g.csize, j % g.csize);
    }
  }

  /** The sectors of a longer chain start with those of the shorter. */
  lemma {:induction false} SectorsPrefix(g: Geometry, ch: seq<nat>, more: seq<nat>)
    requires Clusters(g, more) && ch <= more
    ensures Clusters(g, ch) && Sectors(g, ch) <= Sectors(g, more)
  {
    hide Geometry.FirstSector;
    if |ch| < |more| {
      SectorsPrefix(g, ch, more[..|more| - 1]);
    } else {
      assert ch == more;
    }
  }

  lemma SectorsStretch(g: Geometry, ch: seq<nat>, c: nat)
    requires Clusters(g, ch) && g.IsCluster(c)
    ensures Clusters(g, ch + [c])
    ensures Sectors(g, ch + [c]) == Sectors(g, ch) + Run(g.FirstSector(c), g.csize)
  {
    assert (ch + [c])[..|ch|] == ch;
  }

  /** Every sector of a chain lies in one of its clusters, inside the data area. */
  lemma SectorsOwned(g: Geometry, ch: seq<nat>, j: nat)
    requires g.Valid() && Clusters(g, ch) && j < |Sectors(g, ch)|
    ensures 0 <= j / g.csize < |ch| && g.InCluster(Sectors(g, ch)[j], ch[j / g.csize])
    ensures g.database <= Sectors(g, ch)[j] < g.End()
  {
    hide PowerOfTwo, EntryLimit, FatBytes, Geometry.FirstSector, Geometry.End, Sectors;
    SectorsIndex(g, ch, j);
    DivBound(j, g.csize, |ch|);
    ClusterBounds(g, ch[j / g.csize]);
  }

  /** Different sectors of a file are different disk sectors. */
  lemma SectorsInjective(g: Geometry, ch: seq<nat>, i: nat, j: nat)
    requires g.Valid() && Clusters(g, ch) && Distinct(ch) && i < j < |Sectors(g, ch)|
    ensures Sectors(g, ch)[i] != Sectors(g, ch)[j]
  {
    hide PowerOfTwo, EntryLimit, FatBytes, Geometry.FirstSector, Geometry.End, Sectors;
    SectorsOwned(g, ch, i);
    SectorsOwned(g, ch, j);
    SectorsIndex(g, ch, i);
    SectorsIndex(g, ch, j);
    if Sectors(g, ch)[i] == Sectors(g, ch)[j] {
      var a, b := i / g.csize, j / g.csize;
      OneCluster(g, Sectors(g, ch)[i], ch[a], ch[b]);
      assert a == b;
      DivBound(i, g.csize, 0);
      DivBound(j, g.csize, 0);
    }
  }

  /** A sector list that an image can serve. */
  ghost predicate Covers(img: seq<Sector>, secs: seq<nat>)
  {
    forall j :: 0 <= j < |secs| ==> secs[j] < |img|
  }

  /** The contents of a file of a given size. */
  ghost function Content(img: seq<Sector>, secs: seq<nat>, size: nat): (r: seq<byte>)
    requires Covers(img, secs) && size <= SS * |secs|
    ensures |r| == size
    ensures forall p :: 0 <= p < size ==> r[p] == img[secs[p / SS]][p % SS]
  {
    seq(size, p requires 0 <= p < size => img[secs[p / SS]][p % SS])
  }

  /** A file is not affected by changes elsewhere. */
  lemma ContentFrame(a: seq<Sector>, b: seq<Sector>, secs: seq<nat>, size: nat)
    requires Covers(a, secs) && |a| == |b| && size <= SS * |secs|
    requires forall j :: 0 <= j < |secs| ==> a[secs[j]] == b[secs[j]]
    ensures Content(a, secs, size) == Content(b, secs, size)
  {
  }

  /** A longer chain shows the same bytes, as far as the shorter one goes. */
  lemma ContentPrefix(img: seq<Sector>, secs: seq<nat>, more: seq<nat>, size: nat)
    requires Covers(img, more) && secs <= more && size <= SS * |secs|
    ensures Covers(img, secs)
    ensures Content(img, more, size) == Content(img, secs, size)
  {
    assert forall j :: 0 <= j < |secs| ==> secs[j] == more[j];
  }

  /** Write w over s at position p, extending it if needed. */
  function Splice(s: seq<byte>, p: nat, w: seq<byte>): (r: seq<byte>)
    requires p <= |s|
    ensures |r| == if p + |w| <= |s| then |s| else p + |w|
    ensures forall i :: 0 <= i < |r| ==> r[i] == if p <= i < p + |w| then w[i - p] else s[i]
  {
    s[..p] + w + if p + |w| <= |s| then s[p + |w|..] else []
  }

  lemma SpliceCompose(s: seq<byte>, p: nat, a: seq<byte>, b: seq<byte>)
    requires p <= |s|
    ensures Splice(Splice(s, p, a), p + |a|, b) == Splice(s, p, a + b)
  {
  }

  lemma SpliceNothing(s: seq<byte>, p: nat)
    requires p <= |s|
    ensures Splice(s, p, []) == s
  {
  }

  lemma SpliceMore(s: seq<byte>, p: nat, data: seq<byte>, a: nat, b: nat, n: nat)
    requires p <= |s| && b <= n && a + n <= |data|
    ensures Splice(Splice(s, p, data[..a]), p + a, data[a..a + n][..b]) == Splice(s, p, data[..a + b])
    ensures b == 0 ==> Splice(s, p, data[..a + b]) == Splice(s, p, data[..a])
  {
    assert data[..a] + data[a..a + n][..b] == data[..a + b];
    SpliceCompose(s, p, data[..a], data[a..a + n][..b]);
  }

  /** Flat bytes of a run of sectors. */
  function Flat(ss: seq<Sector>): (r: seq<byte>)
    ensures |r| == SS * |ss|
    ensures forall i :: 0 <= i < |r| ==> r[i] == ss[i / SS][i % SS]
  {
    seq(SS * |ss|, i requires 0 <= i < SS * |ss| => ss[i / SS][i % SS])
  }

  /** The first n sectors of a byte string. */
  function ToSectors(w: seq<byte>, n: nat): (r: seq<Sector>)
    requires SS * n <= |w|
    ensures |r| == n
    ensures forall k :: 0 <= k < n ==> r[k] == w[SS * k..SS * k + SS]
  {
    seq(n, k requires 0 <= k < n => w[SS * k..SS * k + SS])
  }

  lemma FlatToSectors(w: seq<byte>, n: nat)
    requires SS * n <= |w|
    ensures Flat(ToSectors(w, n)) == w[..SS * n]
  {
    var ss := ToSectors(w, n);
    forall i | 0 <= i < SS * n
      ensures Flat(ss)[i] == w[i]
    {
      assert ss[i / SS] == w[SS * (i / SS)..SS * (i / SS) + SS];
    }
  }

  /** An image that changes the bytes [p, p+|w|) of a file, and otherwise only bytes past its new end,
      splices them into the contents. */
  lemma ContentSplice(a: seq<Sector>, b: seq<Sector>, secs: seq<nat>, size: nat, p: nat, w: seq<byte>, size': nat)
    requires |a| == |b| && Covers(a, secs) && Covers(b, secs)
    requires p <= size <= size' <= SS * |secs| && size' == if p + |w| <= size then size else p + |w|
    requires forall q :: 0 <= q < size' ==>
                           b[secs[q / SS]][q % SS] == if p <= q < p + |w| then w[q - p] else a[secs[q / SS]][q % SS]
    ensures Content(b, secs, size') == Splice(Content(a, secs, size), p, w)
  {
  }

  /** A stretch of a sector list that is consecutive on the disk. */
  ghost predicate Consecutive(secs: seq<nat>, j: nat, lo: nat, n: nat)
  {
    j + n <= |secs| && forall k :: j <= k < j + n ==> secs[k] == lo + (k - j)
  }

  lemma ClusterRunAt(g: Geometry, ch: seq<nat>, q: nat, r: nat, n: nat)
    requires Clusters(g, ch) && q < |ch| && 0 < n && r + n <= g.csize
    ensures Consecutive(Sectors(g, ch), q * g.csize + r, g.FirstSector(ch[q]) + r, n)
  {
    hide Geometry.FirstSector, Sectors;
    var j := q * g.csize + r;
    forall k | j <= k < j + n
      ensures k < |Sectors(g, ch)| && Sectors(g, ch)[k] == g.FirstSector(ch[q]) + r + (k - j)
    {
      SectorsElement(g, ch, q, r + (k - j));
    }
    SectorsElement(g, ch, q, r + n - 1);
  }

  /** The sectors of one cluster are consecutive. */
  lemma ClusterRun(g: Geometry, ch: seq<nat>, j: nat, n: nat)
    requires g.csize > 0 && Clusters(g, ch) && j < |Sectors(g, ch)| && 0 < n && j % g.csize + n <= g.csize
    ensures 0 <= j / g.csize < |ch|
    ensures Consecutive(Sectors(g, ch), j, g.FirstSector(ch[j / g.csize]) + j % g.csize, n)
  {
    hide Geometry.FirstSector, Sectors, Consecutive;
    SectorsIndex(g, ch, j);
    DivBound(j, g.csize, |ch|);
    ClusterRunAt(g, ch, j / g.csize, j % g.csize, n);
  }

  /** Whole sectors read from consecutive disk sectors are the bytes of the file there. */
  lemma RunBytes(img: seq<Sector>, secs: seq<nat>, size: nat, p: nat, lo: nat, n: nat)
    requires Covers(img, secs) && p % SS == 0 && p + SS * n <= size <= SS * |secs|
    requires lo + n <= |img| && Consecutive(secs, p / SS, lo, n)
    ensures Flat(img[lo..lo + n]) == Content(img, secs, size)[p..p + SS * n]
  {
    var r := Flat(img[lo..lo + n]);
    var c := Content(img, secs, size)[p..p + SS * n];
    forall i | 0 <= i < SS * n
      ensures r[i] == c[i]
    {
      assert (p + i) / SS == p / SS + i / SS && (p + i) % SS == i % SS;
      assert secs[p / SS + i / SS] == lo + i / SS;
    }
  }

  /** Part of one sector of the file. */
  lemma SectorBytes(img: seq<Sector>, secs: seq<nat>, size: nat, p: nat, n: nat)
    requires Covers(img, secs) && p + n <= size <= SS * |secs| && p % SS + n <= SS && 0 < n
    ensures img[secs[p / SS]][p % SS..p % SS + n] == Content(img, secs, size)[p..p + n]
  {
    var c := Content(img, secs, size)[p..p + n];
    var r := img[secs[p / SS]][p % SS..p % SS + n];
    forall i | 0 <= i < n
      ensures r[i] == c[i]
    {
      assert (p + i) / SS == p / SS && (p + i) % SS == p % SS + i;
    }
  }
}
