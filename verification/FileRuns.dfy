/**
  Every run of file operations against a plain byte sequence. The abstract file is its bytes, a position, and the
  clusters it has and can get; each concrete operation is a step of it, and its answer is the step's answer.
 */
module FileRuns {
  import opened Bytes
  import opened Volume
  import opened Arith
  import opened Chains
  import opened FileBytes
  import opened FileSystem
  import opened FileState
  import opened FileIO

  datatype Op = OpRead(count: dword) | OpWrite(data: seq<byte>) | OpSeek(target: dword) | OpTruncate

  datatype Reply = Data(data: seq<byte>) | Stored(count: nat) | Done

  /**
    A file, the number of clusters of its chain, and the number of free clusters of the volume. The free clusters
    can all be had if free_clst is unknown or right (counted); else the volume may seem full before it is.
   */
  datatype AbstractFile = AbstractFile(bytes: seq<byte>, pos: nat, clusters: nat, free: nat, counted: bool)

  predicate Wellformed(op: Op) {
    op.OpWrite? ==> |op.data| < DWORD_MOD
  }

  function Min(a: int, b: int): int { if a < b then a else b }

  function Max(a: nat, b: nat): nat { if a < b then b else a }

  /** The number of clusters of cs bytes that p bytes take. */
  function Taken(cs: nat, p: nat): nat
    requires cs > 0
  {
    if p == 0 then 0 else (p - 1) / cs + 1
  }

  predicate Fits(cs: nat, a: AbstractFile)
  {
    a.pos <= |a.bytes| <= cs * a.clusters
  }

  /** The largest size the file can reach on the volume. */
  function Space(cs: nat, a: AbstractFile): nat
  {
    cs * (a.clusters + a.free)
  }

  /**
    One step of the abstract file. Clusters are neither lost nor made, and no more are taken than the position needs.
    A write stores what keeps the file below 4 GiB and has room; it ends early only at the end of the chain, and on a
    counted volume exactly when the space is used up. So does a seek, which opens a gap of unspecified bytes.
   */
  ghost predicate Step(cs: nat, a: AbstractFile, op: Op, r: Reply, b: AbstractFile)
    requires cs > 0
  {
    && Fits(cs, a) && Fits(cs, b)
    && b.clusters + b.free == a.clusters + a.free && (a.counted ==> b.counted)
    && match op
       case OpRead(count) =>
         var n := Min(count, |a.bytes| - a.pos);
         r == Data(a.bytes[a.pos..a.pos + n]) && b == a.(pos := a.pos + n)
       case OpWrite(data) =>
         && r.Stored? && r.count <= |data| && b.pos == a.pos + r.count <= 0xFFFF_FFFF
         && b.bytes == Splice(a.bytes, a.pos, data[..r.count])
         && b.clusters == Max(a.clusters, Taken(cs, b.pos))
         && (r.count < |data| && b.pos != 0xFFFF_FFFF ==> b.pos == cs * b.clusters)
         && (a.counted ==> b.pos == Min(Min(a.pos + |data|, 0xFFFF_FFFF), Space(cs, a)))
       case OpSeek(target) =>
         && r == Done && b.pos <= target
         && |b.bytes| == Max(b.pos, |a.bytes|) && b.bytes[..|a.bytes|] == a.bytes
         && b.clusters == Max(a.clusters, Taken(cs, b.pos))
         && (b.pos < target ==> b.pos == cs * b.clusters)
         && (a.counted ==> b.pos == Min(target, Space(cs, a)))
       case OpTruncate =>
         && r == Done && b.pos == a.pos && b.bytes == a.bytes[..a.pos]
         && b.clusters == if a.pos == |a.bytes| then a.clusters else Taken(cs, a.pos)
  }

  /** Where an operation that can take clusters stops: at its goal, or with the space used up. */
  lemma StopsAt(cs: nat, a: AbstractFile, b: AbstractFile, goal: nat)
    requires cs > 0 && Fits(cs, b) && b.pos <= goal && b.clusters + b.free == a.clusters + a.free
    requires b.pos < goal ==> b.pos == cs * b.clusters && b.free == 0
    ensures b.pos == Min(goal, Space(cs, a))
  {
    if b.free > 0 { MulLess(b.clusters, b.clusters + b.free, cs); }
    assert cs * b.clusters <= cs * (b.clusters + b.free) == Space(cs, a);
  }

  /** On a counted volume the state and the operation determine the answer and everything but the bytes of a gap. */
  lemma StepDetermined(cs: nat, a: AbstractFile, op: Op, r: Reply, b: AbstractFile, r': Reply, b': AbstractFile)
    requires cs > 0 && a.counted && Step(cs, a, op, r, b) && Step(cs, a, op, r', b')
    ensures r == r' && b.pos == b'.pos && |b.bytes| == |b'.bytes| && b.clusters == b'.clusters && b.free == b'.free
    ensures !op.OpSeek? || b.pos <= |a.bytes| ==> b == b'
  {
    hide Fits, Splice, Taken;
    if op.OpSeek? {
      assert b.pos <= |a.bytes| ==> b.bytes == b.bytes[..|a.bytes|] == b'.bytes;
    }
  }

  /** A seek inside the file always arrives and changes nothing else. */
  lemma SeekInside(cs: nat, a: AbstractFile, target: dword, r: Reply, b: AbstractFile)
    requires cs > 0 && Step(cs, a, OpSeek(target), r, b) && target <= |a.bytes|
    ensures b.pos == target && b.bytes == a.bytes
  {
    hide Taken;
    if a.clusters < b.clusters { MulLess(a.clusters, b.clusters, cs); }
    assert b.bytes == b.bytes[..|a.bytes|];
  }

  /** What was written is what is read back from the same place. */
  lemma WriteThenRead(cs: nat, a: AbstractFile, data: seq<byte>, r: Reply, b: AbstractFile, c: AbstractFile,
                      count: dword, r': Reply, d: AbstractFile)
    requires cs > 0 && Step(cs, a, OpWrite(data), r, b) && a.pos < DWORD_MOD
    requires Step(cs, b, OpSeek(a.pos), Done, c) && Step(cs, c, OpRead(count), r', d) && r.count <= count
    ensures r'.Data? && r.count <= |r'.data| && r'.data[..r.count] == data[..r.count]
  {
    hide Taken, Fits, Space;
    SeekInside(cs, b, a.pos, Done, c);
    assert forall i :: 0 <= i < r.count ==> b.bytes[a.pos + i] == data[i];
  }

  // ---- what the steps come to, byte by byte ----

  /** No more clusters than p bytes take, if it is more than there were. */
  lemma LeastClusters(cs: nat, was: nat, now: nat, p: nat)
    requires cs > 0 && now == Max(was, Taken(cs, p))
    ensures was <= now && p <= cs * now && (was < now ==> cs * (now - 1) < p)
  {
    if p > 0 {
      var q := (p - 1) / cs;
      assert p - 1 == cs * q + (p - 1) % cs;
      if was <= q { assert now == q + 1 && cs * (q + 1) == cs * q + cs; } else { MulLess(q, was, cs); }
    }
  }

  /**
    A write on a counted volume. Where there is room it stores everything, and what would reach 4 GiB up to the last
    byte below; where there is none it uses up the volume. Every byte of the file is the new one there and the old one
    elsewhere, and no cluster is taken that is not needed.
   */
  lemma WriteStores(cs: nat, a: AbstractFile, data: seq<byte>, r: Reply, b: AbstractFile)
    requires cs > 0 && Step(cs, a, OpWrite(data), r, b)
    ensures r.Stored? && b.pos == a.pos + r.count && r.count <= |data|
    ensures a.counted ==>
              var goal, room := a.pos + |data|, cs * (a.clusters + a.free);
              && (goal <= room && goal < 0x1_0000_0000 ==> r.count == |data|)
              && (goal >= 0x1_0000_0000 && room >= 0xFFFF_FFFF ==> b.pos == 0xFFFF_FFFF)
              && (room < goal && room < 0xFFFF_FFFF ==> b.pos == room && b.free == 0)
    ensures |b.bytes| == if b.pos > |a.bytes| then b.pos else |a.bytes|
    ensures forall i :: 0 <= i < |b.bytes| ==>
              b.bytes[i] == if a.pos <= i < b.pos then data[i - a.pos] else a.bytes[i]
    ensures a.clusters <= b.clusters && (a.clusters < b.clusters ==> cs * (b.clusters - 1) < b.pos <= cs * b.clusters)
  {
    hide Taken, Splice;
    LeastClusters(cs, a.clusters, b.clusters, b.pos);
    if a.counted && b.pos == cs * (a.clusters + a.free) && b.free > 0 {
      MulLess(b.clusters, a.clusters + a.free, cs);
    }
  }

  /** A seek on a counted volume arrives where there is room, and else uses up the volume; old bytes stay. */
  lemma SeekArrives(cs: nat, a: AbstractFile, target: dword, r: Reply, b: AbstractFile)
    requires cs > 0 && Step(cs, a, OpSeek(target), r, b)
    ensures a.counted ==>
              var room := cs * (a.clusters + a.free);
              if target <= room then b.pos == target else b.pos == room && b.free == 0
    ensures |b.bytes| == if b.pos > |a.bytes| then b.pos else |a.bytes|
    ensures forall i :: 0 <= i < |a.bytes| ==> b.bytes[i] == a.bytes[i]
    ensures a.clusters <= b.clusters && (a.clusters < b.clusters ==> cs * (b.clusters - 1) < b.pos <= cs * b.clusters)
  {
    hide Taken;
    LeastClusters(cs, a.clusters, b.clusters, b.pos);
    if a.counted && b.pos == cs * (a.clusters + a.free) && b.free > 0 {
      MulLess(b.clusters, a.clusters + a.free, cs);
    }
    assert forall i :: 0 <= i < |a.bytes| ==> b.bytes[i] == b.bytes[..|a.bytes|][i];
  }

  /** A read gives the bytes from the position on, as many as were asked for or are left. */
  lemma ReadGives(cs: nat, a: AbstractFile, count: dword, r: Reply, b: AbstractFile)
    requires cs > 0 && Step(cs, a, OpRead(count), r, b)
    ensures r.Data? && |r.data| <= count && a.pos + |r.data| <= |a.bytes|
    ensures |r.data| < count ==> a.pos + |r.data| == |a.bytes|
    ensures forall i :: 0 <= i < |r.data| ==> r.data[i] == a.bytes[a.pos + i]
    ensures b == a.(pos := a.pos + |r.data|)
  {
  }

  /** A truncation leaves the bytes before the position, and no cluster that holds none of them; the others are free
      again. */
  lemma TruncateLeaves(cs: nat, a: AbstractFile, r: Reply, b: AbstractFile)
    requires cs > 0 && Step(cs, a, OpTruncate, r, b)
    ensures |b.bytes| == b.pos == a.pos && forall i :: 0 <= i < a.pos ==> b.bytes[i] == a.bytes[i]
    ensures a.pos < |a.bytes| ==> a.pos <= cs * b.clusters && (b.clusters > 0 ==> cs * (b.clusters - 1) < a.pos)
    ensures b.free - a.free == a.clusters - b.clusters
  {
    if a.pos < |a.bytes| { LeastClusters(cs, 0, b.clusters, a.pos); }
  }

  /** A truncation at a sector boundary inside the file, after which the buffer may stand over a freed cluster. */
  predicate Cuts(op: Op, a: AbstractFile)
  {
    op.OpTruncate? && a.pos % SS == 0 && a.pos < |a.bytes|
  }

  /** The bytes of a cluster. */
  function ClusterBytes(f: Fil): nat { f.fs.g.csize * SS }

  ghost function Abs(f: Fil): AbstractFile
    requires f.Core()
    reads f, f.buf, f.fs`winsect, f.fs`wflag, f.fs`mirrorLost, f.fs`freeClst, f.fs.win, f.fs.disk
  {
    AbstractFile(f.Contents(), f.fptr, |f.chain|, Zeros(f.fs.Fat()), f.fs.Counted())
  }

  /** A file open for reading and writing. */
  ghost predicate Ready(f: Fil)
    reads f, f.buf, f.fs`winsect, f.fs`wflag, f.fs`mirrorLost, f.fs.win, f.fs.disk
  {
    f.Valid() && f.canRead && f.canWrite && f.err == Ok
  }

  /** The chain holds the contents, and with the free clusters makes up a constant. */
  lemma AbsFacts(f: Fil)
    requires f.Core()
    ensures ClusterBytes(f) > 0 && Fits(ClusterBytes(f), Abs(f)) && Abs(f).clusters + Abs(f).free == f.total
    ensures f.AtEnd() <==> f.fptr == ClusterBytes(f) * |f.chain|
    ensures (forall c :: 2 <= c < f.fs.g.nFatent ==> f.fs.Fat()[c] != 0) ==> Abs(f).free == 0
  {
    hide PowerOfTwo, EntryLimit, FatBytes, Sectors, Fatfs.View, State.Data, Geometry.End, CountAccurate, State.Apart,
      State.Buffered, State.Isolated, Forest, ZerosBelow;
    ChainEnd(f.St());
    var n, cs := |f.chain|, f.fs.g.csize;
    assert SS * (n * cs) == cs * SS * n;
    ZerosBelowExtremes(f.fs.Fat(), |f.fs.Fat()|);
  }

  lemma NeedTaken(g: Geometry, p: nat)
    requires g.csize > 0
    ensures g.csize * SS > 0 && Need(g, p) == Taken(g.csize * SS, p)
  {
    if p > 0 {
      DivDiv(p - 1, SS, g.csize);
      assert SS * g.csize == g.csize * SS;
    }
  }

  method ApplyRead(f: Fil, count: dword) returns (res: FResult, r: Reply)
    requires Ready(f)
    modifies f, f.buf, f.fs`winsect, f.fs`wflag, f.fs`mirrorLost, f.fs.win, f.fs.disk
    ensures f.fs.disk.reliable ==> res == Ok
    ensures res == Ok ==> Ready(f) && ClusterBytes(f) > 0 && f.others == old(f.others) && f.base == old(f.base)
    ensures res == Ok ==> f.window == old(f.window)
    ensures res == Ok ==> f.steady == old(f.steady)
    ensures res == Ok ==> Step(ClusterBytes(f), old(Abs(f)), OpRead(count), r, Abs(f))
  {
    hide Fil.Placed, Fatfs.Valid, State.Ok, State.Data, Fatfs.Fat, Fatfs.View, Zeros, CountAccurate, Fits;
    ghost var a := Abs(f);
    AbsFacts(f);
    var data;
    res, data := f.Read(count);
    r := Data(data);
    if res == Ok { AbsFacts(f); }
  }

  method ApplyWrite(f: Fil, data: seq<byte>) returns (res: FResult, r: Reply)
    requires Ready(f) && |data| < DWORD_MOD
    modifies f, f.buf, f.fs, f.fs.win, f.fs.disk
    ensures f.fs.disk.reliable ==> res == Ok
    ensures res == Ok ==> Ready(f) && ClusterBytes(f) > 0 && f.others == old(f.others) && f.base == old(f.base)
    ensures res == Ok ==> f.window == old(f.window)
    ensures res == Ok ==> f.steady == old(f.steady)
    ensures res == Ok ==> Step(ClusterBytes(f), old(Abs(f)), OpWrite(data), r, Abs(f))
  {
    hide Fil.Placed, Fatfs.Valid, State.Ok, State.Data, Fatfs.Fat, Fatfs.View, Zeros, CountAccurate, Fits, Need,
      Taken, Splice, Fil.AtEnd;
    ghost var a, cs := Abs(f), ClusterBytes(f);
    AbsFacts(f);
    var n;
    res, n := f.Write(data);
    r := Stored(n);
    if res == Ok {
      AbsFacts(f);
      NeedTaken(f.fs.g, f.fptr);
      if a.counted { StopsAt(cs, a, Abs(f), Min(a.pos + |data|, 0xFFFF_FFFF)); }
    }
  }

  method ApplySeek(f: Fil, target: dword) returns (res: FResult, r: Reply)
    requires Ready(f)
    modifies f, f.buf, f.fs, f.fs.win, f.fs.disk
    ensures f.fs.disk.reliable ==> res == Ok
    ensures res == Ok ==> Ready(f) && ClusterBytes(f) > 0 && f.others == old(f.others) && f.base == old(f.base)
    ensures res == Ok ==> f.window == old(f.window)
    ensures res == Ok ==> f.steady == old(f.steady)
    ensures res == Ok ==> Step(ClusterBytes(f), old(Abs(f)), OpSeek(target), r, Abs(f))
  {
    hide Fil.Placed, Fatfs.Valid, State.Ok, State.Data, Fatfs.Fat, Fatfs.View, Zeros, CountAccurate, Fits, Need,
      Taken, Fil.AtEnd;
    ghost var a, cs := Abs(f), ClusterBytes(f);
    AbsFacts(f);
    r := Done;
    res := f.Lseek(target);
    if res == Ok {
      AbsFacts(f);
      NeedTaken(f.fs.g, f.fptr);
      if a.counted { StopsAt(cs, a, Abs(f), target); }
    }
  }

  method ApplyTruncate(f: Fil) returns (res: FResult, r: Reply)
    requires Ready(f)
    modifies f, f.buf, f.fs, f.fs.win, f.fs.disk
    ensures f.fs.disk.reliable ==> res == Ok
    ensures res == Ok ==> Ready(f) && ClusterBytes(f) > 0 && f.others == old(f.others) && f.base == old(f.base)
    ensures res == Ok ==> f.window == old(f.window)
    ensures res == Ok && !Cuts(OpTruncate, old(Abs(f))) ==> f.steady == old(f.steady)
    ensures res == Ok ==> Step(ClusterBytes(f), old(Abs(f)), OpTruncate, r, Abs(f))
  {
    hide Fil.Placed, Fatfs.Valid, State.Ok, State.Data, Fatfs.Fat, Fatfs.View, Zeros, CountAccurate, Fits, Taken;
    ghost var a := Abs(f);
    AbsFacts(f);
    r := Done;
    res := f.Truncate();
    if res == Ok {
      AbsFacts(f);
      NeedTaken(f.fs.g, f.fptr);
    }
  }

  /** One operation is one step. */
  method Apply(f: Fil, op: Op) returns (res: FResult, r: Reply)
    requires Ready(f) && Wellformed(op)
    modifies f, f.buf, f.fs, f.fs.win, f.fs.disk
    ensures f.fs.disk.reliable ==> res == Ok
    ensures res == Ok ==> Ready(f) && ClusterBytes(f) > 0 && f.others == old(f.others) && f.base == old(f.base)
    ensures res == Ok ==> f.window == old(f.window)
    ensures res == Ok && !Cuts(op, old(Abs(f))) ==> f.steady == old(f.steady)
    ensures res == Ok ==> Step(ClusterBytes(f), old(Abs(f)), op, r, Abs(f))
  {
    hide Ready, Step;
    match op
    case OpRead(count) => res, r := ApplyRead(f, count);
    case OpWrite(data) => res, r := ApplyWrite(f, data);
    case OpSeek(target) => res, r := ApplySeek(f, target);
    case OpTruncate => res, r := ApplyTruncate(f);
  }

  /** A run of the abstract file. */
  ghost predicate IsRun(cs: nat, ops: seq<Op>, replies: seq<Reply>, trace: seq<AbstractFile>)
    requires cs > 0
  {
    && |replies| == |ops| && |trace| == |ops| + 1
    && forall i :: 0 <= i < |ops| ==> Step(cs, trace[i], ops[i], replies[i], trace[i + 1])
  }

  /** In every run clusters are conserved, and a counted volume stays counted. */
  lemma {:induction false} RunKeeps(cs: nat, ops: seq<Op>, replies: seq<Reply>, trace: seq<AbstractFile>, n: nat)
    requires cs > 0 && IsRun(cs, ops, replies, trace) && n <= |ops|
    ensures trace[n].clusters + trace[n].free == trace[0].clusters + trace[0].free
    ensures trace[0].counted ==> trace[n].counted
  {
    if n > 0 {
      RunKeeps(cs, ops, replies, trace, n - 1);
      assert Step(cs, trace[n - 1], ops[n - 1], replies[n - 1], trace[n - 1 + 1]);
    }
  }

  /**
    Every run: on an error-free disk the answers are those of a run of the abstract file from the file's
    initial state, and at the end all other objects have the chains and the bytes they had.
   */
  method Run(f: Fil, ops: seq<Op>) returns (res: FResult, replies: seq<Reply>, ghost trace: seq<AbstractFile>)
    requires Ready(f) && forall i :: 0 <= i < |ops| ==> Wellformed(ops[i])
    modifies f, f.buf, f.fs, f.fs.win, f.fs.disk
    ensures f.fs.disk.reliable ==> res == Ok
    ensures res == Ok ==>
              && Ready(f) && OthersSame(old(f.St()), f.St())
              && ClusterBytes(f) > 0 && IsRun(ClusterBytes(f), ops, replies, trace)
              && trace[0] == old(Abs(f)) && trace[|ops|] == Abs(f)
  {
    hide Fil.Placed, Fatfs.Valid, Step, Abs, State.Ok, State.Data, Fatfs.Fat, Fatfs.View;
    ghost var s := f.St();
    AbsFacts(f);
    res, replies, trace := Ok, [], [Abs(f)];
    for n := 0 to |ops|
      invariant Ready(f) && f.others == old(f.others) && f.base == old(f.base)
      invariant |replies| == n && |trace| == n + 1
      invariant trace[0] == old(Abs(f)) && trace[n] == Abs(f)
      invariant forall i :: 0 <= i < n ==> Step(ClusterBytes(f), trace[i], ops[i], replies[i], trace[i + 1])
    {
      var r;
      res, r := Apply(f, ops[n]);
      if res != Ok { return; }
      replies, trace := replies + [r], trace + [Abs(f)];
    }
    res := Ok;
    OthersKept(s, f.St());
  }
}
