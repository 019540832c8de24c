/**
  Two open files of one volume used in turn. Each is a byte string of its own; they share the free clusters. The one
  thing that can go wrong is the sector buffer that a truncation leaves over a cluster it has freed.
 */
module TwoFiles {
  import opened Bytes
  import opened Volume
  import opened Arith
  import opened Chains
  import opened FatTable
  import opened FileBytes
  import opened FileSystem
  import opened FileState
  import opened FileIO
  import opened FileRuns

  /** Two files on the same disk, each among the other objects of the other. */
  ghost predicate Shared(s: State, t: State)
  {
    && s.g == t.g && s.fat == t.fat && s.view == t.view && s.winsect == t.winsect && s.All() == t.All()
    && (s.chain != [] ==> s.chain in t.others) && (t.chain != [] ==> t.chain in s.others)
  }

  /** A file after another one has changed the disk under it. */
  ghost function Beside(s: State, t: State): State
  {
    Remarked(s.(fat := t.fat, view := t.view, winsect := t.winsect), t.All() - {s.chain})
  }

  /** The buffer holds no sector, one of the file, or one of a cluster that is still free, with its contents. */
  ghost predicate Undisturbed(s: State, t: State)
    requires s.Buffered() && |t.fat| == |s.fat| && |t.view| == |s.view|
  {
    || s.sect == 0 || s.home in s.chain
    || (t.fat[s.home] == 0 && (s.dirty || s.buf == t.view[s.sect]))
  }

  /** What one operation of the first file, from s to s', is for the second file, t. */
  ghost predicate Moved(s: State, s': State, t: State)
  {
    && s.Ok() && s'.Ok() && t.Ok() && Shared(s, t)
    && s'.g == s.g && OthersSame(s, s') && WindowOver(s.g, s.winsect, s'.winsect)
  }

  lemma SameSector(s: State, s': State, t: State, j: nat)
    requires Moved(s, s', t) && j < |t.Secs()|
    ensures t.Secs()[j] < |t.view| && s'.view[t.Secs()[j]] == t.view[t.Secs()[j]]
  {
    hide PowerOfTwo, EntryLimit, FatBytes, Sectors, Geometry.End, State.Apart, State.Isolated, Forest;
    SecsCovered(t);
    ChainNotEmpty(t, j);
    assert t.chain in s.others && t.Secs() == Sectors(s.g, t.chain);
  }

  lemma ChainNotEmpty(t: State, j: nat)
    requires t.Ok() && j < |t.Secs()|
    ensures t.chain != []
  {
    hide PowerOfTwo, EntryLimit, FatBytes, Sectors, Geometry.End, State.Apart, State.Isolated, Forest, State.Buffered;
    ChainEnd(t);
  }

  /** The buffered sector as one of the file. */
  lemma HomeSector(t: State) returns (j: nat)
    requires t.Ok() && t.sect != 0 && t.home in t.chain
    ensures j < |t.Secs()| && t.Secs()[j] == t.sect
  {
    hide PowerOfTwo, EntryLimit, FatBytes, Sectors, Geometry.End, State.Apart, State.Isolated, Forest;
    var i :| 0 <= i < |t.chain| && t.chain[i] == t.home;
    var r := t.sect - t.g.FirstSector(t.home);
    SectorsElement(t.g, t.chain, i, r);
    j := i * t.g.csize + r;
  }

  /** The chains of the volume, seen from the second file. */
  lemma BesideForest(s: State, s': State, t: State)
    requires Moved(s, s', t)
    ensures var u := Beside(t, s');
            Forest(u.fat, u.All()) && u.chain !in u.others && u.All() == s'.All() && |u.fat| == u.g.nFatent
  {
    hide PowerOfTwo, EntryLimit, FatBytes, Sectors, Geometry.End, State.Apart, State.Isolated, State.Buffered;
    assert [] !in s'.All();
    assert t.chain != [] ==> t.chain in s'.others && t.chain in s'.All();
    var u := Beside(t, s');
    if t.chain == [] {
      assert s'.All() - {t.chain} == s'.All();
    } else {
      assert s'.All() - {t.chain} + {t.chain} == s'.All();
    }
  }

  /** The window stays out of the clusters of the second file, too. */
  lemma BesideApart(s: State, s': State, t: State)
    requires Moved(s, s', t)
    ensures Beside(t, s').Apart()
  {
    hide PowerOfTwo, EntryLimit, FatBytes, Sectors, Geometry.End, State.Isolated, State.Buffered, Forest,
      Geometry.InCluster;
    var u := Beside(t, s');
    forall c | u.Mine(c)
      ensures !u.g.InCluster(u.winsect, c)
    {
      if c in t.chain {
        assert t.g.IsCluster(c) && t.Mine(c) by { MemberIsMine(t, c); }
        if u.winsect != t.winsect { OutsideClusters(t.g, u.winsect); }
      } else {
        assert s'.Mine(c);
      }
    }
  }

  lemma MemberIsMine(t: State, c: nat)
    requires t.Ok() && c in t.chain
    ensures t.Mine(c) && t.g.IsCluster(c)
  {
    hide PowerOfTwo, EntryLimit, FatBytes, Sectors, Geometry.End, State.Isolated, State.Buffered, Forest, State.Apart;
    var i :| 0 <= i < |t.chain| && t.chain[i] == c;
    assert t.g.IsCluster(t.chain[i]);
  }

  lemma BesideBuffered(s: State, s': State, t: State)
    requires Moved(s, s', t)
    ensures |s'.fat| == |t.fat| && |s'.view| == |t.view|
    ensures Beside(t, s').Buffered() <==> Undisturbed(t, s')
  {
    hide PowerOfTwo, EntryLimit, FatBytes, Sectors, Geometry.End, State.Isolated, Forest, State.Apart, OthersSame,
      Geometry.InCluster;
    assert |s'.view| == |t.view| by { SameLength(s, s'); }
    var u := Beside(t, s');
    if t.sect != 0 && t.home in t.chain {
      var j := HomeSector(t);
      SameSector(s, s', t, j);
      MemberIsMine(t, t.home);
    }
  }

  lemma SameLength(s: State, s': State)
    requires OthersSame(s, s')
    ensures |s'.view| == |s.view|
  {
  }

  /**
    An operation of one file leaves another open file as good as it was if and only if the buffer of that one is
    undisturbed; its contents are the same in any case.
   */
  lemma Bystander(s: State, s': State, t: State)
    requires Moved(s, s', t)
    ensures |s'.fat| == |t.fat| && |s'.view| == |t.view|
    ensures Beside(t, s').Ok() <==> Undisturbed(t, s')
    ensures Shared(s', Beside(t, s')) && Shared(Beside(t, s'), s')
  {
    hide PowerOfTwo, EntryLimit, FatBytes, Sectors, Geometry.End, State.Apart, State.Buffered, Forest, OthersSame,
      Undisturbed;
    BesideForest(s, s', t);
    BesideApart(s, s', t);
    BesideBuffered(s, s', t);
    BesideShared(s, s', t);
  }

  lemma BesideShared(s: State, s': State, t: State)
    requires Moved(s, s', t)
    ensures Shared(s', Beside(t, s')) && Shared(Beside(t, s'), s')
  {
    hide PowerOfTwo, EntryLimit, FatBytes, Sectors, Geometry.End, State.Apart, State.Buffered, Forest, State.Isolated;
    BesideForest(s, s', t);
    assert t.chain != [] ==> t.chain in s'.others;
    assert s'.chain != [] ==> s'.chain in s'.All() && s'.chain != t.chain;
  }

  lemma SameImage(s: State, s': State, t: State, j: nat)
    requires Moved(s, s', t) && Beside(t, s').Ok() && j < |t.Secs()|
    ensures |Beside(t, s').Image()| == |t.Image()| && t.Secs()[j] < |t.Image()|
    ensures Beside(t, s').Image()[t.Secs()[j]] == t.Image()[t.Secs()[j]]
  {
    hide PowerOfTwo, EntryLimit, FatBytes, Sectors, Geometry.End, State.Apart, State.Isolated, Forest,
      Geometry.InCluster;
    SameSector(s, s', t, j);
  }

  lemma BystanderData(s: State, s': State, t: State, size: nat)
    requires Moved(s, s', t) && Beside(t, s').Ok() && size <= SS * |t.Secs()|
    ensures Beside(t, s').Secs() == t.Secs() && Beside(t, s').Data(size) == t.Data(size)
  {
    hide PowerOfTwo, EntryLimit, FatBytes, Sectors, Geometry.End, State.Apart, State.Isolated, Forest, OthersSame,
      State.Image, State.Buffered, Content;
    var u := Beside(t, s');
    SecsCovered(t);
    SecsCovered(u);
    if t.Secs() != [] { SameImage(s, s', t, 0); }
    forall j | 0 <= j < |t.Secs()|
      ensures t.Image()[t.Secs()[j]] == u.Image()[t.Secs()[j]]
    {
      SameImage(s, s', t, j);
    }
    SameLength(s, s');
    ContentFrame(t.Image(), u.Image(), t.Secs(), size);
  }

  // ---- turns ----

  /** Two files open for reading and writing, each measured against the disk as it is. */
  ghost predicate Pair(f: Fil, h: Fil)
    reads f, f.buf, h, h.buf, f.fs`winsect, f.fs`wflag, f.fs`mirrorLost, f.fs.win, f.fs.disk
  {
    && f != h && f.fs == h.fs && f.buf != h.buf
    && Ready(f) && Ready(h) && Shared(f.St(), h.St())
    && f.window == h.window == f.fs.winsect
  }

  /** Neither buffer stands over a freed cluster. */
  ghost predicate Calm(f: Fil, h: Fil)
    reads f, h
  {
    f.steady && h.steady
  }

  /** The objects that are neither of the two files. */
  ghost function Third(f: Fil, h: Fil): set<seq<nat>>
    reads f`others, h`others
  {
    f.others * h.others
  }

  lemma ThirdKept(s: State, s': State, t: State)
    requires Moved(s, s', t)
    ensures s.others * t.others <= s'.others * Beside(t, s').others
  {
    hide PowerOfTwo, EntryLimit, FatBytes, Sectors, Geometry.End, State.Apart, State.Buffered, State.Isolated, Forest;
  }

  /** An abstract file whose neighbour has taken or given back clusters. */
  ghost function Neighbour(a: AbstractFile, b: AbstractFile): AbstractFile
  {
    a.(free := b.free, counted := b.counted)
  }

  /** A settled file is undisturbed by whatever another one does. */
  lemma CalmUndisturbed(t: State, s': State)
    requires t.Ok() && t.steady && |s'.fat| == |t.fat| && |s'.view| == |t.view|
    ensures Undisturbed(t, s') && (t.sect == 0 || t.home in t.chain)
  {
    hide PowerOfTwo, EntryLimit, FatBytes, Sectors, Geometry.End, State.Apart, State.Isolated, Forest;
  }

  lemma RemarkedOk(s: State, size: nat)
    requires s.Ok() && size <= SS * |s.Secs()|
    ensures var t := Remarked(s, s.others); t.Ok() && t.Secs() == s.Secs() && t.Data(size) == s.Data(size)
  {
    hide PowerOfTwo, EntryLimit, FatBytes, Sectors, Geometry.End, State.Apart, Forest, State.Image, Content;
    var t := Remarked(s, s.others);
    assert t.Apart() by { SameApart(s, t); }
    SecsCovered(s);
    SecsCovered(t);
    assert t.Image() == s.Image() by { ImageIs(s, t); }
  }

  lemma SameApart(s: State, t: State)
    requires s.Apart() && t.g == s.g && t.fat == s.fat && t.chain == s.chain && t.winsect == s.winsect
    ensures t.Apart()
  {
    hide State.Mine, Geometry.InCluster;
    SameMine(s, t);
  }

  lemma ImageIs(s: State, t: State)
    requires s.Buffered() && t.Buffered() && t.view == s.view && t.buf == s.buf && t.sect == s.sect
    requires t.dirty == s.dirty
    ensures t.Image() == s.Image()
  {
  }

  /** What the fields of an open file say about a state of it. */
  ghost predicate Fits(h: Fil, t: State)
    requires Clusters(t.g, t.chain)
    reads h`sclust, h`objsize, h`fptr, h`clust, h`err
  {
    && h.buf != h.fs.win && h.buf.Length == SS && h.fs.g == t.g
    && h.sclust == (if t.chain == [] then 0 else t.chain[0]) && h.fptr <= h.objsize <= SS * |t.Secs()|
    && (h.fptr > 0 ==> ClusterIndex(t.g, h.fptr - 1) < |t.chain| && h.clust == t.chain[ClusterIndex(t.g, h.fptr - 1)])
    && (h.fptr % SS != 0 ==> h.fptr / SS < |t.Secs()| && t.sect == t.Secs()[h.fptr / SS])
    && h.canRead && h.canWrite && h.err == Ok
  }

  lemma FitsNow(h: Fil)
    requires Ready(h)
    ensures h.St().Ok() && Fits(h, h.St())
  {
    hide PowerOfTwo, EntryLimit, FatBytes, Sectors, Geometry.End, Fatfs.View, Fatfs.Valid, Fatfs.Fat, State.Apart,
      State.Buffered, State.Isolated, Forest;
    if h.fptr % SS != 0 { InsideSector(h.St(), h.fptr); }
  }

  lemma ReadyAgain(h: Fil)
    requires h.fs.Valid() && h.St().Ok() && Fits(h, h.St())
    ensures Ready(h)
  {
    hide PowerOfTwo, EntryLimit, FatBytes, Sectors, Geometry.End, Fatfs.View, Fatfs.Valid, Fatfs.Fat, State.Apart,
      State.Buffered, State.Isolated, Forest, State.Balanced, ClusterIndex;
  }

  lemma FitsSize(h: Fil, t: State)
    requires t.Ok() && Fits(h, t)
    ensures h.objsize <= SS * |t.Secs()|
  {
    hide PowerOfTwo, EntryLimit, FatBytes, Sectors, Geometry.End, State.Apart, State.Buffered, State.Isolated, Forest;
  }

  lemma BesideFits(h: Fil, s': State, t: State)
    requires t.Ok() && Fits(h, t)
    ensures Clusters(t.g, t.chain) && Beside(t, s').Secs() == t.Secs() && Fits(h, Beside(t, s'))
  {
    hide PowerOfTwo, EntryLimit, FatBytes, Sectors, Geometry.End, State.Apart, State.Buffered, State.Isolated, Forest,
      State.Balanced, ClusterIndex, Zeros;
  }

  /** The bystander goes on. */
  ghost method Again(h: Fil, s: State, s': State, t: State)
    requires Moved(s, s', t) && t.steady && Fits(h, t) && h.fs.Valid()
    requires h.St() == t.(fat := s'.fat, view := s'.view, winsect := s'.winsect)
    modifies h`others, h`base, h`window, h`total, h`steady
    ensures h.St() == Beside(t, s') && Ready(h) && h.Contents() == t.Data(h.objsize) && h.steady
  {
    hide PowerOfTwo, EntryLimit, FatBytes, Sectors, Geometry.End, Fatfs.View, Fatfs.Valid, Fatfs.Fat, State.Data,
      Undisturbed, State.Ok, Fits, OthersSame, Shared, Ready, Zeros;
    Bystander(s, s', t);
    CalmUndisturbed(t, s');
    BesideFits(h, s', t);
    FitsSize(h, t);
    BystanderData(s, s', t, h.objsize);
    h.Resume(s'.All() - {t.chain});
    ReadyAgain(h);
  }

  lemma RemarkedFits(f: Fil, s: State)
    requires s.Ok() && Fits(f, s)
    ensures Clusters(s.g, s.chain) && Fits(f, Remarked(s, s.others))
  {
    hide PowerOfTwo, EntryLimit, FatBytes, Sectors, Geometry.End, State.Apart, State.Buffered, State.Isolated, Forest,
      State.Balanced, ClusterIndex, Zeros;
  }

  /** And so does the file that was used; its buffer tells whether it is still settled. */
  ghost method Remark(f: Fil)
    requires Ready(f)
    modifies f`others, f`base, f`window, f`total, f`steady
    ensures f.St() == Remarked(old(f.St()), old(f.others)) && Ready(f) && f.Contents() == old(f.Contents())
    ensures f.steady == (f.sect == 0 || f.home in f.chain)
  {
    hide PowerOfTwo, EntryLimit, FatBytes, Sectors, Geometry.End, Fatfs.View, Fatfs.Valid, Fatfs.Fat, State.Data,
      State.Ok, Fits, Zeros, Fil.Placed;
    ghost var s := f.St();
    FitsNow(f);
    RemarkedFits(f, s);
    RemarkedOk(s, f.objsize);
    f.Resume(f.others);
    ReadyAgain(f);
  }

  /**
    One operation of one of two open files: it is a step of that file, and the other one has the same bytes and
    position as before. Only a truncation at a sector boundary can leave its own buffer over a freed cluster.
   */
  method Turn(f: Fil, h: Fil, op: Op) returns (res: FResult, r: Reply)
    requires Pair(f, h) && Calm(f, h) && Wellformed(op)
    modifies f, f.buf, h`others, h`base, h`window, h`total, h`steady, f.fs, f.fs.win, f.fs.disk
    ensures f.fs.disk.reliable ==> res == Ok
    ensures res == Ok ==> Pair(f, h) && ClusterBytes(f) > 0 && Step(ClusterBytes(f), old(Abs(f)), op, r, Abs(f))
    ensures res == Ok ==> Abs(h) == Neighbour(old(Abs(h)), Abs(f)) && h.steady
    ensures res == Ok && !Cuts(op, old(Abs(f))) ==> f.steady
    ensures res == Ok ==> OthersSame(old(f.St()), f.St()) && old(Third(f, h)) <= Third(f, h)
  {
    hide PowerOfTwo, EntryLimit, FatBytes, Sectors, Geometry.End, Fatfs.View, Fatfs.Valid, Fatfs.Fat, State.Data,
      State.Ok, Fits, Zeros, Fil.Placed, Step, Cuts, CountAccurate;
    ghost var s, t := f.St(), h.St();
    FitsNow(f);
    FitsNow(h);
    res, r := Apply(f, op);
    if res == Ok {
      ghost var s' := f.St();
      OthersKept(s, s');
      WindowKept(s, s');
      Again(h, s, s', t);
      Bystander(s, s', t);
      ThirdKept(s, s', t);
      SettledFile(s');
      Remark(f);
    }
  }

  lemma WindowKept(s: State, s': State)
    requires s'.Ok() && s'.g == s.g && s'.window == s.winsect
    ensures WindowOver(s.g, s.winsect, s'.winsect)
  {
  }

  lemma SettledFile(s: State)
    requires s.Ok()
    ensures s.steady ==> s.sect == 0 || s.home in s.chain
  {
  }

  // ---- runs ----

  /** An operation of the first or the second file. */
  datatype Turned = Turned(first: bool, op: Op)

  /** Two files as byte strings. */
  datatype Both = Both(first: AbstractFile, second: AbstractFile)

  ghost function AbsBoth(f: Fil, h: Fil): Both
    requires f.Core() && h.Core()
    reads f, f.buf, f.fs`winsect, f.fs`wflag, f.fs`mirrorLost, f.fs`freeClst, f.fs.win, f.fs.disk
    reads h, h.buf, h.fs`winsect, h.fs`wflag, h.fs`mirrorLost, h.fs`freeClst, h.fs.win, h.fs.disk
  {
    Both(Abs(f), Abs(h))
  }

  function Acting(a: Both, first: bool): AbstractFile
  {
    if first then a.first else a.second
  }

  /** One of the files makes a step; the other one sees nothing of it but the number of free clusters. */
  ghost predicate JointStep(cs: nat, a: Both, turn: Turned, r: Reply, b: Both)
    requires cs > 0
  {
    && Step(cs, Acting(a, turn.first), turn.op, r, Acting(b, turn.first))
    && Acting(b, !turn.first) == Neighbour(Acting(a, !turn.first), Acting(b, turn.first))
  }

  lemma PairTurned(f: Fil, h: Fil)
    requires Pair(f, h)
    ensures Pair(h, f)
  {
    hide Ready, Fatfs.Valid, Fatfs.Fat, Fatfs.View;
  }

  /** One operation of either file. */
  method JointTurn(f: Fil, h: Fil, turn: Turned) returns (res: FResult, r: Reply)
    requires Pair(f, h) && Calm(f, h) && Wellformed(turn.op)
    modifies f, f.buf, h, h.buf, f.fs, f.fs.win, f.fs.disk
    ensures f.fs.disk.reliable ==> res == Ok
    ensures res == Ok ==> Pair(f, h) && ClusterBytes(f) > 0 && JointStep(ClusterBytes(f), old(AbsBoth(f, h)), turn, r,
            AbsBoth(f, h))
    ensures res == Ok && !Cuts(turn.op, Acting(old(AbsBoth(f, h)), turn.first)) ==> Calm(f, h)
    ensures res == Ok ==> old(Third(f, h)) <= Third(f, h) && SameSectors(f.fs.g, old(Third(f, h)), old(f.fs.View()),
            f.fs.View())
  {
    hide PowerOfTwo, EntryLimit, FatBytes, Sectors, Geometry.End, Fatfs.View, Fatfs.Valid, Fatfs.Fat, State.Data,
      State.Ok, Fil.Placed, Zeros, Step, Cuts, CountAccurate, Shared, OthersSame, SameSectors;
    assert f.others * h.others == h.others * f.others;
    ghost var s, t, third := f.St(), h.St(), Third(f, h);
    if turn.first {
      res, r := Turn(f, h, turn.op);
      if res == Ok { OthersSectors(s, f.St(), third); }
    } else {
      PairTurned(f, h);
      res, r := Turn(h, f, turn.op);
      if res == Ok {
        PairTurned(h, f);
        OthersSectors(t, h.St(), third);
        assert f.others * h.others == h.others * f.others;
      }
    }
  }

  /** The sectors of some chains have the same contents. */
  ghost predicate SameSectors(g: Geometry, chains: set<seq<nat>>, a: seq<Sector>, b: seq<Sector>)
  {
    && |b| == |a|
    && forall ch, j :: ch in chains && Clusters(g, ch) && 0 <= j < |Sectors(g, ch)| && Sectors(g, ch)[j] < |a| ==>
                         b[Sectors(g, ch)[j]] == a[Sectors(g, ch)[j]]
  }

  lemma OthersSectors(s: State, s': State, chains: set<seq<nat>>)
    requires OthersSame(s, s') && chains <= s.others
    ensures SameSectors(s.g, chains, s.view, s'.view)
  {
  }

  lemma MoreSectors(g: Geometry, some: set<seq<nat>>, chains: set<seq<nat>>, a: seq<Sector>, b: seq<Sector>,
                    c: seq<Sector>)
    requires SameSectors(g, some, a, b) && SameSectors(g, chains, b, c) && some <= chains
    ensures SameSectors(g, some, a, c)
  {
    hide Sectors;
  }

  /** A run of two byte strings that share the free clusters. */
  ghost predicate IsJointRun(cs: nat, turns: seq<Turned>, replies: seq<Reply>, trace: seq<Both>)
    requires cs > 0
  {
    && |replies| <= |turns| && |trace| == |replies| + 1
    && forall i :: 0 <= i < |replies| ==> JointStep(cs, trace[i], turns[i], replies[i], trace[i + 1])
  }

  /** Whether an operation is a truncation at a sector boundary inside its file. */
  method IsCut(f: Fil, op: Op) returns (b: bool)
    requires f.Core()
    ensures b <==> Cuts(op, Abs(f))
  {
    b := op.OpTruncate? && f.fptr % SS == 0 && f.fptr < f.objsize;
  }

  /**
    Every run of two open files in turn: on an error-free disk each answer is that of two byte strings with a
    common stock of clusters, and all third objects keep their bytes. It is followed to the end, or to the first
    truncation at a sector boundary inside its file.
   */
  method Run(f: Fil, h: Fil, turns: seq<Turned>) returns (res: FResult, replies: seq<Reply>, ghost trace: seq<Both>)
    requires Pair(f, h) && Calm(f, h) && forall i :: 0 <= i < |turns| ==> Wellformed(turns[i].op)
    modifies f, f.buf, h, h.buf, f.fs, f.fs.win, f.fs.disk
    ensures f.fs.disk.reliable ==> res == Ok
    ensures res == Ok ==>
              && Pair(f, h) && Calm(f, h) && ClusterBytes(f) > 0 && IsJointRun(ClusterBytes(f), turns, replies, trace)
              && trace[0] == old(AbsBoth(f, h)) && trace[|replies|] == AbsBoth(f, h)
              && SameSectors(f.fs.g, old(Third(f, h)), old(f.fs.View()), f.fs.View())
    ensures res == Ok && |replies| < |turns| ==>
              var turn := turns[|replies|]; Cuts(turn.op, Acting(trace[|replies|], turn.first))
  {
    hide PowerOfTwo, EntryLimit, FatBytes, Sectors, Geometry.End, Fatfs.View, Fatfs.Valid, Fatfs.Fat, State.Data,
      State.Ok, Fil.Placed, Zeros, Step, Cuts, CountAccurate, Shared, SameSectors, JointStep, Third, Wellformed, Abs;
    res, replies, trace := Ok, [], [AbsBoth(f, h)];
    ghost var third, view := Third(f, h), f.fs.View();
    AbsFacts(f);
    NothingMoved(f.fs.g, third, view);
    var n := 0;
    while n < |turns|
      invariant 0 <= n <= |turns| && Pair(f, h) && Calm(f, h) && |replies| == n && |trace| == n + 1 && res == Ok
      invariant trace[0] == old(AbsBoth(f, h)) && trace[n] == AbsBoth(f, h)
      invariant forall i :: 0 <= i < n ==> JointStep(ClusterBytes(f), trace[i], turns[i], replies[i], trace[i + 1])
      invariant third <= Third(f, h) && SameSectors(f.fs.g, third, view, f.fs.View())
    {
      var cut := IsCut(if turns[n].first then f else h, turns[n].op);
      if cut {
        break;
      }
      ghost var mid, wider := f.fs.View(), Third(f, h);
      var r;
      res, r := JointTurn(f, h, turns[n]);
      if res != Ok { return; }
      MoreSectors(f.fs.g, third, wider, view, mid, f.fs.View());
      replies, trace := replies + [r], trace + [AbsBoth(f, h)];
      n := n + 1;
    }
  }

  lemma NothingMoved(g: Geometry, chains: set<seq<nat>>, a: seq<Sector>)
    ensures SameSectors(g, chains, a, a)
  {
  }

  /** In every such run no cluster is lost between the two files and the free ones, and both see the same stock. */
  lemma {:induction false} JointKeeps(cs: nat, turns: seq<Turned>, replies: seq<Reply>, trace: seq<Both>, n: nat)
    requires cs > 0 && IsJointRun(cs, turns, replies, trace) && n <= |replies|
    requires trace[0].first.free == trace[0].second.free
    ensures var a, b := trace[0], trace[n];
            && b.first.free == b.second.free
            && b.first.clusters + b.second.clusters + b.first.free
               == a.first.clusters + a.second.clusters + a.first.free
  {
    if n > 0 {
      JointKeeps(cs, turns, replies, trace, n - 1);
      assert JointStep(cs, trace[n - 1], turns[n - 1], replies[n - 1], trace[n - 1 + 1]);
    }
  }

  // ---- a stale buffer ----

  /** On a full volume the clusters that other objects do not own are those of the file. */
  lemma OnlyMine(s: State, c: nat)
    requires s.Ok() && Zeros(s.fat) == 0 && s.g.IsCluster(c) && c !in s.chain
    ensures Owned(s.others, c)
  {
    hide PowerOfTwo, EntryLimit, FatBytes, Sectors, Geometry.End, State.Apart, State.Buffered, State.Isolated;
    ZerosBelowExtremes(s.fat, |s.fat|);
    assert s.fat[c] != 0 && Owned(s.All(), c);
    var ch :| ch in s.All() && c in ch;
    assert ch in s.others;
  }

  /** What the file owns, no other object does. */
  lemma NotOwned(s: State, c: nat)
    requires s.Ok() && c in s.chain
    ensures s.g.IsCluster(c) && !Owned(s.others, c)
  {
    hide PowerOfTwo, EntryLimit, FatBytes, Sectors, Geometry.End, State.Apart, State.Buffered, State.Isolated, Forest,
      State.Mine;
    MemberIsMine(s, c);
    if Owned(s.others, c) {
      var ch :| ch in s.others && c in ch;
      var i :| 0 <= i < |ch| && ch[i] == c;
      NotShared(s, ch, i, c);
    }
  }

  /** The one sector of a file of one small cluster shows its bytes. */
  lemma OneSector(s: State, c: nat, data: seq<byte>)
    requires s.Ok() && s.g.csize == 1 && s.chain == [c] && |data| == SS && SS <= SS * |s.Secs()| && s.Data(SS) == data
    ensures s.g.IsCluster(c) && s.g.FirstSector(c) < |s.Image()| && s.Image()[s.g.FirstSector(c)] == data
  {
    hide PowerOfTwo, EntryLimit, FatBytes, Sectors, Geometry.End, State.Apart, State.Buffered, State.Isolated, Forest,
      State.Image, Geometry.FirstSector;
    SecsCovered(s);
    SectorsIndex(s.g, s.chain, 0);
    SectorBytes(s.Image(), s.Secs(), SS, 0, SS);
    var sec := s.Image()[s.Secs()[0]];
    assert sec[0..SS] == sec && s.Data(SS)[0..SS] == data;
  }

  /** A truncation to nothing on a full volume of one-sector clusters: one cluster is free, and the buffer still
      stands over it. */
  method CutAway(f: Fil, h: Fil) returns (ghost c: nat)
    requires Pair(f, h) && Calm(f, h) && f.fs.disk.reliable && f.fs.g.csize == 1 && f.fs.Counted()
    requires |f.chain| == 1 && f.fptr == 0 < f.objsize && f.sect != 0 && h.chain == [] && Zeros(f.fs.Fat()) == 0
    modifies f, f.buf, h`others, h`base, h`window, h`total, h`steady, f.fs, f.fs.win, f.fs.disk
    ensures Ready(h) && h.fs.Counted() && h.total == 1 && h.chain == [] && h.fs.g.IsCluster(c)
    ensures forall d :: h.fs.g.IsCluster(d) && d != c ==> Owned(h.others, d)
    ensures f.home == c && f.sect == f.fs.g.FirstSector(c) && f.sect != 0 && !f.dirty && f.buf[..] == old(f.buf[..])
  {
    hide PowerOfTwo, EntryLimit, FatBytes, Sectors, Geometry.End, Fatfs.View, Fatfs.Valid, Fatfs.Fat, State.Data,
      State.Ok, Fits, ZerosBelow, Fil.Placed, CountAccurate, Intact;
    c := f.chain[0];
    ghost var s, t := f.St(), h.St();
    FitsNow(f);
    FitsNow(h);
    SettledFile(s);
    HomeOfOne(s, c);
    forall d | s.g.IsCluster(d) && d != c
      ensures Owned(s.others, d)
    {
      OnlyMine(s, d);
    }
    var res := f.Truncate();
    ghost var s' := f.St();
    OthersKept(s, s');
    WindowKept(s, s');
    Again(h, s, s', t);
    BalancedNow(s, s');
    BesideOthers(s, s', t);
  }

  lemma HomeOfOne(s: State, c: nat)
    requires s.Ok() && s.chain == [c] && s.sect != 0 && s.home in s.chain && s.g.csize == 1
    ensures s.home == c && s.g.IsCluster(c) && s.sect == s.g.FirstSector(c)
  {
    hide PowerOfTwo, EntryLimit, FatBytes, Sectors, Geometry.End, State.Apart, State.Isolated, Forest;
  }

  lemma BalancedNow(s: State, s': State)
    requires s.Ok() && s'.Ok() && s'.total == s.total && Zeros(s.fat) == 0 && |s.chain| == 1 && s'.chain == []
    ensures Zeros(s'.fat) == 1
  {
    hide PowerOfTwo, EntryLimit, FatBytes, Sectors, Geometry.End, State.Apart, State.Isolated, Forest, State.Buffered,
      ZerosBelow;
  }

  lemma BesideOthers(s: State, s': State, t: State)
    requires Moved(s, s', t) && s'.chain == [] && t.chain == []
    ensures Beside(t, s').others == s'.others == s.others
  {
    hide PowerOfTwo, EntryLimit, FatBytes, Sectors, Geometry.End, State.Apart, State.Isolated, State.Buffered;
    assert [] !in s'.All();
  }

  /**
    Such a buffer goes stale: the other file takes the cluster and fills it, and the first one holds a clean buffer
    for a sector with other contents. The next time it comes to that sector it does not read it.
   */
  method StaleBuffer(f: Fil, h: Fil, data: seq<byte>)
    requires Pair(f, h) && Calm(f, h) && f.fs.disk.reliable && f.fs.g.csize == 1 && f.fs.Counted()
    requires |f.chain| == 1 && f.fptr == 0 < f.objsize && f.sect != 0 && h.chain == [] && Zeros(f.fs.Fat()) == 0
    requires |data| == SS && data != f.buf[..]
    modifies f, f.buf, h, h.buf, f.fs, f.fs.win, f.fs.disk
    ensures h.Valid() && h.Contents() == data && h.chain == [f.home]
    ensures f.sect != 0 && !f.dirty && f.sect < |h.St().Image()| && h.St().Image()[f.sect] == data != f.buf[..]
  {
    hide PowerOfTwo, EntryLimit, FatBytes, Sectors, Geometry.End, Fatfs.View, Fatfs.Valid, Fatfs.Fat, State.Data,
      State.Ok, ZerosBelow, Fil.Placed, CountAccurate, Intact;
    ghost var c := CutAway(f, h);
    EmptyFile(h);
    var res, n := h.Write(data);
    FilledUp(h, n);
    assert Splice([], 0, data[..SS]) == data;
    NotOwned(h.St(), h.chain[0]);
    OneSector(h.St(), c, data);
  }

  /** A write of one sector to an empty file that can get one cluster stores all of it. */
  lemma FilledUp(h: Fil, n: nat)
    requires h.Core() && h.fs.g.csize == 1 && h.total == 1 && n <= SS && h.fptr == n && |h.chain| == Need(h.fs.g, n)
    requires n < SS ==> h.AtEnd() && forall c :: 2 <= c < h.fs.g.nFatent ==> h.fs.Fat()[c] != 0
    ensures n == SS && |h.chain| == 1
  {
    hide PowerOfTwo, EntryLimit, FatBytes, Sectors, Geometry.End, Fatfs.View, Fatfs.Valid, Fatfs.Fat, State.Data,
      State.Ok, ZerosBelow, Fil.AtEnd;
    AbsFacts(h);
    NeedOne(h.fs.g);
  }

  lemma EmptyFile(h: Fil)
    requires h.Core() && h.chain == []
    ensures h.objsize == 0 == h.fptr && h.Contents() == []
  {
    hide PowerOfTwo, EntryLimit, FatBytes, Sectors, Geometry.End, State.Apart, State.Isolated, State.Buffered, Forest,
      Fatfs.View, Fatfs.Valid, Fatfs.Fat;
    ChainEnd(h.St());
  }

  lemma NeedOne(g: Geometry)
    requires g.csize == 1
    ensures Need(g, SS) == 1
  {
  }
}
