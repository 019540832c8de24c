/**
  Cluster chains over a table of FAT entries. A table value at or past the table length ends a chain,
  0 marks a free cluster, and cluster numbers start at 2.
 */
module Chains {

  /** Number of free clusters below n. */
  ghost function ZerosBelow(t: seq<nat>, n: nat): (z: nat)
    requires n <= |t|
    ensures z <= if n < 2 then 0 else n - 2
  {
    if n <= 2 then 0 else ZerosBelow(t, n - 1) + if t[n - 1] == 0 then 1 else 0
  }

  ghost function Zeros(t: seq<nat>): nat
  {
    ZerosBelow(t, |t|)
  }

  lemma {:induction false} ZerosBelowUpdate(t: seq<nat>, c: nat, v: nat, n: nat)
    requires 2 <= c < |t| && n <= |t|
    ensures ZerosBelow(t[c := v], n) + (if c < n && t[c] == 0 then 1 else 0)
         == ZerosBelow(t, n) + (if c < n && v == 0 then 1 else 0)
  {
    if n > 2 {
      ZerosBelowUpdate(t, c, v, n - 1);
    }
  }

  lemma {:induction false} ZerosBelowExtremes(t: seq<nat>, n: nat)
    requires 2 <= n <= |t|
    ensures ZerosBelow(t, n) == 0 <==> forall c :: 2 <= c < n ==> t[c] != 0
    ensures ZerosBelow(t, n) == n - 2 <==> forall c :: 2 <= c < n ==> t[c] == 0
  {
    if n > 2 {
      ZerosBelowExtremes(t, n - 1);
    }
  }

  /** Number of zero entries below n, the two reserved entries included. */
  ghost function AllZerosBelow(t: seq<nat>, n: nat): (z: nat)
    requires n <= |t|
    ensures z <= n
  {
    if n == 0 then 0 else AllZerosBelow(t, n - 1) + if t[n - 1] == 0 then 1 else 0
  }

  /** Counting from entry 0 agrees with the number of free clusters exactly when the reserved entries are non-zero. */
  lemma {:induction false} ReservedEntriesCounted(t: seq<nat>, n: nat)
    requires 2 <= n <= |t|
    ensures AllZerosBelow(t, n) == ZerosBelow(t, n) + (if t[0] == 0 then 1 else 0) + (if t[1] == 0 then 1 else 0)
    ensures AllZerosBelow(t, n) == ZerosBelow(t, n) <==> t[0] != 0 && t[1] != 0
  {
    if n > 2 {
      ReservedEntriesCounted(t, n - 1);
    } else {
      assert AllZerosBelow(t, 1) == AllZerosBelow(t, 0) + if t[0] == 0 then 1 else 0;
    }
  }

  /** free_clst is out of range, meaning unknown, or exact. */
  ghost predicate CountAccurate(t: seq<nat>, free: nat)
    requires |t| >= 2
  {
    free > |t| - 2 || free == Zeros(t)
  }

  lemma {:induction false} ZerosBelowRest(t: seq<nat>, n: nat, m: nat)
    requires n <= m <= |t|
    ensures ZerosBelow(t, n) <= ZerosBelow(t, m)
    ensures ZerosBelow(t, n) == ZerosBelow(t, m) <==> forall c :: n <= c < m && 2 <= c ==> t[c] != 0
  {
    if n < m {
      ZerosBelowRest(t, n, m - 1);
    }
  }

  /** A count that was broken off before entry n is taken for the free count: it is right exactly when no cluster
      from there on is free, the reserved entries being in use where they are counted. */
  lemma BrokenOffCount(t: seq<nat>, n: nat, packed: bool)
    requires |t| >= 2 && n <= |t| && (packed ==> t[0] != 0 && t[1] != 0)
    ensures CountAccurate(t, if packed then AllZerosBelow(t, n) else ZerosBelow(t, n)) <==>
              forall c :: n <= c < |t| && 2 <= c ==> t[c] != 0
  {
    ZerosBelowRest(t, n, |t|);
    if packed {
      if n >= 2 {
        ReservedEntriesCounted(t, n);
      } else {
        assert AllZerosBelow(t, n) == 0;
      }
    }
  }

  /** A free cluster was taken into use. */
  lemma CountAfterTake(t: seq<nat>, free: nat, c: nat, v: nat)
    requires 2 <= c < |t| && CountAccurate(t, free) && t[c] == 0 && v != 0
    ensures free <= |t| - 2 ==> free >= 1
    ensures CountAccurate(t[c := v], if free <= |t| - 2 then free - 1 else free)
  {
    ZerosBelowUpdate(t, c, v, |t|);
  }

  /** A cluster in use was freed. */
  lemma CountAfterFree(t: seq<nat>, free: nat, c: nat)
    requires 2 <= c < |t| && CountAccurate(t, free) && t[c] != 0
    ensures Zeros(t) < |t|
    ensures CountAccurate(t[c := 0], if free < |t| - 2 then free + 1 else free)
    ensures Zeros(t[c := 0]) == Zeros(t) + 1
  {
    ZerosBelowUpdate(t, c, 0, |t|);
  }

  /** A link of a cluster in use was changed. */
  lemma CountAfterRelink(t: seq<nat>, free: nat, c: nat, v: nat)
    requires 2 <= c < |t| && CountAccurate(t, free) && t[c] != 0 && v != 0
    ensures CountAccurate(t[c := v], free)
  {
    ZerosBelowUpdate(t, c, v, |t|);
  }

  /** The clusters of one object in order, ended by an end mark. The empty chain owns nothing. */
  ghost predicate IsChain(t: seq<nat>, ch: seq<nat>)
  {
    && (forall i :: 0 <= i < |ch| ==> 2 <= ch[i] < |t|)
    && (forall i :: 0 <= i < |ch| - 1 ==> t[ch[i]] == ch[i + 1])
    && (ch != [] ==> t[ch[|ch| - 1]] >= |t|)
  }

  ghost predicate Distinct(s: seq<nat>)
  {
    forall i, j :: 0 <= i < j < |s| ==> s[i] != s[j]
  }

  /** A chain visits no cluster twice: it is acyclic because it ends. */
  lemma ChainDistinct(t: seq<nat>, ch: seq<nat>)
    requires IsChain(t, ch)
    ensures Distinct(ch)
  {
    forall i, j | 0 <= i < j < |ch|
      ensures ch[i] != ch[j]
    {
      ChainNoRepeat(t, ch, i, j);
    }
  }

  lemma {:induction false} ChainNoRepeat(t: seq<nat>, ch: seq<nat>, i: nat, j: nat)
    requires IsChain(t, ch) && i < j < |ch|
    ensures ch[i] != ch[j]
    decreases |ch| - j
  {
    if ch[i] == ch[j] {
      assert t[ch[i]] == ch[i + 1];
      if j + 1 < |ch| {
        ChainNoRepeat(t, ch, i + 1, j + 1);
      }
    }
  }

  /** A set of non-empty chains, pairwise disjoint, that owns exactly the clusters in use. */
  ghost predicate Forest(t: seq<nat>, chains: set<seq<nat>>)
  {
    && (forall ch :: ch in chains ==> ch != [] && IsChain(t, ch))
    && (forall a, b :: a in chains && b in chains && a != b ==> Disjoint(a, b))
    && (forall c :: 2 <= c < |t| ==> (t[c] != 0 <==> Owned(chains, c)))
  }

  ghost predicate Disjoint(a: seq<nat>, b: seq<nat>)
  {
    forall i, j :: 0 <= i < |a| && 0 <= j < |b| ==> a[i] != b[j]
  }

  ghost predicate Owned(chains: set<seq<nat>>, c: nat)
  {
    exists ch :: ch in chains && c in ch
  }

  /** A chain survives changes to clusters it does not own. */
  lemma ChainFrame(t: seq<nat>, t': seq<nat>, ch: seq<nat>)
    requires IsChain(t, ch) && |t'| == |t|
    requires forall c :: 2 <= c < |t| && c in ch ==> t'[c] == t[c]
    ensures IsChain(t', ch)
  {
  }

  lemma InUse(t: seq<nat>, ch: seq<nat>, i: nat)
    requires IsChain(t, ch) && i < |ch|
    ensures t[ch[i]] >= 2
  {
    assert i + 1 < |ch| ==> t[ch[i]] == ch[i + 1];
  }

  lemma Member(t: seq<nat>, ch: seq<nat>, i: nat)
    requires IsChain(t, ch) && i < |ch|
    ensures 2 <= ch[i] < |t|
  {
  }

  lemma ForestMember(t: seq<nat>, chains: set<seq<nat>>, ch: seq<nat>, i: nat)
    requires Forest(t, chains) && ch in chains && i < |ch|
    ensures 2 <= ch[i] < |t| && t[ch[i]] != 0
  {
    InUse(t, ch, i);
  }

  lemma ForestApart(t: seq<nat>, chains: set<seq<nat>>, a: seq<nat>, b: seq<nat>, i: nat, j: nat)
    requires Forest(t, chains) && a in chains && b in chains && a != b && i < |a| && j < |b|
    ensures a[i] != b[j]
  {
    hide IsChain, Owned;
    assert Disjoint(a, b);
  }

  lemma ForestChain(t: seq<nat>, chains: set<seq<nat>>, ch: seq<nat>)
    requires Forest(t, chains) && ch in chains
    ensures ch != [] && IsChain(t, ch) && t[ch[|ch| - 1]] >= |t|
  {
  }

  lemma FreeNowhere(t: seq<nat>, chains: set<seq<nat>>, c: nat)
    requires Forest(t, chains) && 2 <= c < |t| && t[c] == 0
    ensures forall ch :: ch in chains ==> c !in ch
  {
    hide IsChain, Disjoint;
    assert !Owned(chains, c);
  }

  /** A forest has no entry 1, so no operation on it meets the internal-error code. */
  lemma ForestNoOnes(t: seq<nat>, chains: set<seq<nat>>)
    requires Forest(t, chains)
    ensures forall c :: 2 <= c < |t| ==> t[c] != 1
  {
    forall c | 2 <= c < |t| && t[c] != 0
      ensures t[c] >= 2
    {
      var ch :| ch in chains && c in ch;
      var i :| 0 <= i < |ch| && ch[i] == c;
      InUse(t, ch, i);
    }
  }

  /** Starting a new chain on a free cluster. */
  lemma ForestNew(t: seq<nat>, chains: set<seq<nat>>, c: nat, eoc: nat)
    requires Forest(t, chains) && 2 <= c < |t| <= eoc && t[c] == 0
    ensures Forest(t[c := eoc], chains + {[c]})
  {
    var t' := t[c := eoc];
    forall ch | ch in chains
      ensures c !in ch && IsChain(t', ch)
    {
      assert c in ch ==> Owned(chains, c);
      ChainFrame(t, t', ch);
    }
    forall d | 2 <= d < |t|
      ensures t'[d] != 0 <==> Owned(chains + {[c]}, d)
    {
      OwnedUnion(chains, [c], d);
    }
  }

  lemma OwnedUnion(chains: set<seq<nat>>, ch: seq<nat>, c: nat)
    ensures Owned(chains + {ch}, c) <==> Owned(chains, c) || c in ch
  {
    if c in ch { assert ch in chains + {ch}; }
    if Owned(chains, c) {
      var a :| a in chains && c in a;
      assert a in chains + {ch};
    }
  }

  /** Removing one chain from a forest leaves the owners of everything it did not own. */
  lemma OwnedWithout(t: seq<nat>, chains: set<seq<nat>>, ch: seq<nat>, c: nat)
    requires Forest(t, chains) && ch in chains
    ensures Owned(chains - {ch}, c) <==> Owned(chains, c) && c !in ch
  {
    if Owned(chains, c) && c !in ch {
      var a :| a in chains && c in a;
      assert a in chains - {ch};
    }
    if Owned(chains - {ch}, c) {
      var a :| a in chains - {ch} && c in a;
      assert Disjoint(a, ch);
    }
  }

  /** Stretching: one previously free cluster is appended to exactly one chain. */
  lemma ForestStretch(t: seq<nat>, chains: set<seq<nat>>, ch: seq<nat>, c: nat, eoc: nat)
    requires Forest(t, chains) && ch in chains && 2 <= c < |t| <= eoc && t[c] == 0
    ensures Forest(t[c := eoc][ch[|ch| - 1] := c], chains - {ch} + {ch + [c]})
  {
    hide IsChain, Disjoint, Owned;
    Member(t, ch, |ch| - 1);
    var t' := t[c := eoc][ch[|ch| - 1] := c];
    var longer := ch + [c];
    StretchedChain(t, ch, c, eoc);
    forall a | a in chains - {ch}
      ensures IsChain(t', a) && Disjoint(a, longer) && Disjoint(longer, a)
    {
      StretchedElsewhere(t, chains, ch, c, eoc, a);
    }
    forall d | 2 <= d < |t|
      ensures t'[d] != 0 <==> Owned(chains - {ch} + {longer}, d)
    {
      StretchedOwner(t, chains, ch, c, eoc, d);
    }
  }

  /** The other chains, */
  lemma StretchedElsewhere(t: seq<nat>, chains: set<seq<nat>>, ch: seq<nat>, c: nat, eoc: nat, a: seq<nat>)
    requires Forest(t, chains) && ch in chains && 2 <= c < |t| <= eoc && t[c] == 0 && a in chains && a != ch
    ensures IsChain(t[c := eoc][ch[|ch| - 1] := c], a) && Disjoint(a, ch + [c]) && Disjoint(ch + [c], a)
  {
    assert Disjoint(a, ch) && Disjoint(ch, a);
    assert c in a ==> Owned(chains, c);
    ChainFrame(t, t[c := eoc][ch[|ch| - 1] := c], a);
  }

  /** and which clusters are in use. */
  lemma StretchedOwner(t: seq<nat>, chains: set<seq<nat>>, ch: seq<nat>, c: nat, eoc: nat, d: nat)
    requires Forest(t, chains) && ch in chains && 2 <= c < |t| <= eoc && t[c] == 0 && 2 <= d < |t|
    ensures t[c := eoc][ch[|ch| - 1] := c][d] != 0 <==> Owned(chains - {ch} + {ch + [c]}, d)
  {
    OwnedUnion(chains - {ch}, ch + [c], d);
    OwnedWithout(t, chains, ch, d);
    if d in ch { assert Owned(chains, d); }
  }

  lemma StretchedChain(t: seq<nat>, ch: seq<nat>, c: nat, eoc: nat)
    requires IsChain(t, ch) && ch != [] && 2 <= c < |t| <= eoc && t[c] == 0
    ensures c !in ch
    ensures IsChain(t[c := eoc][ch[|ch| - 1] := c], ch + [c])
  {
    if c in ch {
      var i :| 0 <= i < |ch| && ch[i] == c;
      InUse(t, ch, i);
    }
    ChainDistinct(t, ch);
  }

  /** The table after a free cluster became the end of a new chain, or of the chain ending at clst. */
  ghost function Linked(t: seq<nat>, clst: nat, c: nat, eoc: nat): (r: seq<nat>)
    requires c < |t| && clst < |t|
    ensures |r| == |t|
  {
    if clst == 0 then t[c := eoc] else t[c := eoc][clst := c]
  }

  /** create_chain when it succeeds: the cluster that already follows, or one free cluster linked in. */
  ghost predicate Created(t: seq<nat>, t': seq<nat>, clst: nat, c: nat, eoc: nat)
  {
    && clst < |t| && 2 <= c < |t| && (clst == 0 || 2 <= clst)
    && if clst != 0 && t[clst] < |t| then c == t[clst] && t' == t
       else t[c] == 0 && t' == Linked(t, clst, c, eoc)
  }

  /** The count after a free cluster was linked in. */
  lemma CountAfterLink(t: seq<nat>, free: nat, clst: nat, c: nat, eoc: nat)
    requires 2 <= c < |t| && CountAccurate(t, free) && free != 0 && t[c] == 0 && eoc != 0
    requires clst == 0 || (2 <= clst < |t| && t[clst] != 0)
    ensures CountAccurate(Linked(t, clst, c, eoc), if free <= |t| - 2 then free - 1 else free)
  {
    hide CountAccurate;
    CountAfterTake(t, free, c, eoc);
    if clst != 0 {
      CountAfterRelink(t[c := eoc], if free <= |t| - 2 then free - 1 else free, clst, c);
    }
  }

  /** create_chain(0) adds a one-cluster chain on a free cluster. */
  lemma CreatedNewChain(t: seq<nat>, t': seq<nat>, chains: set<seq<nat>>, c: nat, eoc: nat)
    requires Forest(t, chains) && |t| <= eoc && Created(t, t', 0, c, eoc)
    ensures Forest(t', chains + {[c]}) && !Owned(chains, c)
  {
    ForestNew(t, chains, c, eoc);
  }

  /** create_chain at the end of a chain appends one free cluster to that chain and to no other;
      inside a chain it changes nothing and follows the link. */
  lemma CreatedForest(t: seq<nat>, t': seq<nat>, chains: set<seq<nat>>, ch: seq<nat>, i: nat, c: nat, eoc: nat)
    requires Forest(t, chains) && ch in chains && i < |ch| && |t| <= eoc && Created(t, t', ch[i], c, eoc)
    ensures i + 1 < |ch| ==> c == ch[i + 1] && t' == t
    ensures i + 1 == |ch| ==> !Owned(chains, c) && Forest(t', chains - {ch} + {ch + [c]})
  {
    hide Disjoint;
    if i + 1 < |ch| {
      assert t[ch[i]] == ch[i + 1];
    } else {
      ForestStretch(t, chains, ch, c, eoc);
    }
  }

  /** The table after freeing every cluster on a path. */
  ghost function Freed(t: seq<nat>, path: seq<nat>): (r: seq<nat>)
    ensures |r| == |t|
    ensures forall c :: 0 <= c < |t| ==> r[c] == if c in path then 0 else t[c]
  {
    seq(|t|, c requires 0 <= c < |t| => if c in path then 0 else t[c])
  }

  /** Freeing a path broke off: its clusters are free, and every other entry but these is as it was. */
  ghost predicate FreedBut(t: seq<nat>, t': seq<nat>, path: seq<nat>, but: set<nat>)
  {
    |t'| == |t| && forall c :: 0 <= c < |t| && c !in but ==> t'[c] == Freed(t, path)[c]
  }

  /** The table with the previous cluster, if any, made the end of its chain. */
  ghost function Cut(t: seq<nat>, p: nat, eoc: nat): (r: seq<nat>)
    ensures |r| == |t|
  {
    if 0 < p < |t| then t[p := eoc] else t
  }

  /** Linking in a free cluster leaves one less. */
  lemma ZerosAfterLink(t: seq<nat>, clst: nat, c: nat, eoc: nat)
    requires 2 <= c < |t| && t[c] == 0 && eoc != 0 && (clst == 0 || (2 <= clst < |t| && t[clst] != 0))
    ensures Zeros(Linked(t, clst, c, eoc)) + 1 == Zeros(t)
  {
    ZerosBelowUpdate(t, c, eoc, |t|);
    if clst != 0 { ZerosBelowUpdate(t[c := eoc], clst, c, |t|); }
  }

  /** Freeing distinct clusters in use gives as many more. */
  lemma {:induction false} ZerosAfterFree(t: seq<nat>, path: seq<nat>)
    requires (forall i :: 0 <= i < |path| ==> 2 <= path[i] < |t| && t[path[i]] != 0) && Distinct(path)
    ensures Zeros(Freed(t, path)) == Zeros(t) + |path|
  {
    if path == [] {
      assert Freed(t, path) == t;
    } else {
      var front, c := path[..|path| - 1], path[|path| - 1];
      assert forall i :: 0 <= i < |front| ==> front[i] == path[i];
      ZerosAfterFree(t, front);
      assert path == front + [c] && c !in front;
      FreedAlso(t, front, c);
      ZerosBelowUpdate(Freed(t, front), c, 0, |t|);
    }
  }

  /** remove_chain gives back exactly the clusters it takes off the chain. */
  lemma RemovedCount(t: seq<nat>, ch: seq<nat>, k: nat, eoc: nat)
    requires IsChain(t, ch) && k < |ch| && |t| <= eoc && |t| > 0
    ensures var p := if k == 0 then 0 else ch[k - 1];
            Zeros(Freed(Cut(t, p, eoc), ch[k..])) + k == Zeros(t) + |ch|
  {
    hide Freed, ZerosBelow, IsChain, Distinct;
    var p := if k == 0 then 0 else ch[k - 1];
    TailInUse(t, ch, k, eoc);
    ZerosAfterFree(Cut(t, p, eoc), ch[k..]);
    if k > 0 {
      InUse(t, ch, k - 1);
      Member(t, ch, k - 1);
      ZerosBelowUpdate(t, p, eoc, |t|);
    }
  }

  lemma TailInUse(t: seq<nat>, ch: seq<nat>, k: nat, eoc: nat)
    requires IsChain(t, ch) && k < |ch| && |t| <= eoc && |t| > 0
    ensures forall i :: 0 <= i < |ch[k..]| ==>
              2 <= ch[k..][i] < |t| && Cut(t, if k == 0 then 0 else ch[k - 1], eoc)[ch[k..][i]] != 0
    ensures Distinct(ch[k..])
  {
    ChainDistinct(t, ch);
    forall i | 0 <= i < |ch[k..]|
      ensures 2 <= ch[k..][i] < |t| && Cut(t, if k == 0 then 0 else ch[k - 1], eoc)[ch[k..][i]] != 0
    {
      InUse(t, ch, k + i);
    }
  }

  /** Truncation: exactly the prefix of one chain remains. */
  lemma ForestCut(t: seq<nat>, chains: set<seq<nat>>, ch: seq<nat>, k: nat, eoc: nat)
    requires Forest(t, chains) && ch in chains && k < |ch| && |t| <= eoc
    ensures var p := if k == 0 then 0 else ch[k - 1];
            Forest(Freed(Cut(t, p, eoc), ch[k..]), chains - {ch} + if k == 0 then {} else {ch[..k]})
  {
    hide IsChain;
    var p := if k == 0 then 0 else ch[k - 1];
    var t' := Freed(Cut(t, p, eoc), ch[k..]);
    var rest := chains - {ch};
    var prefix := ch[..k];
    CutChain(t, ch, k, eoc);
    forall a | a in rest
      ensures IsChain(t', a) && Disjoint(a, prefix) && Disjoint(prefix, a)
    {
      assert Disjoint(a, ch) && Disjoint(ch, a);
      CutElsewhere(t, ch, k, eoc, a);
    }
    forall d | 2 <= d < |t|
      ensures t'[d] != 0 <==> Owned(rest, d) || d in prefix
      ensures Owned(rest + {prefix}, d) <==> Owned(rest, d) || d in prefix
    {
      OwnedWithout(t, chains, ch, d);
      OwnedUnion(rest, prefix, d);
      assert d in ch ==> Owned(chains, d);
      CutEntry(t, ch, k, eoc, d);
    }
    assert rest + {} == rest;
  }

  /** A chain disjoint from the one being cut is not affected. */
  lemma CutElsewhere(t: seq<nat>, ch: seq<nat>, k: nat, eoc: nat, a: seq<nat>)
    requires IsChain(t, ch) && k < |ch| && IsChain(t, a) && Disjoint(a, ch)
    ensures var p := if k == 0 then 0 else ch[k - 1];
            IsChain(Freed(Cut(t, p, eoc), ch[k..]), a)
  {
    var p := if k == 0 then 0 else ch[k - 1];
    ChainFrame(t, Freed(Cut(t, p, eoc), ch[k..]), a);
  }

  /** After a cut the entries of the prefix are in use, those of the suffix free, the rest as before. */
  lemma CutEntry(t: seq<nat>, ch: seq<nat>, k: nat, eoc: nat, d: nat)
    requires IsChain(t, ch) && k < |ch| && 2 <= d < |t| <= eoc
    ensures var p := if k == 0 then 0 else ch[k - 1];
            Freed(Cut(t, p, eoc), ch[k..])[d] != 0 <==> (d in ch[..k] || (d !in ch && t[d] != 0))
  {
    CutOwner(t, ch, k, d);
    if d in ch[..k] {
      var i :| 0 <= i < k && ch[..k][i] == d;
      InUse(t, ch, i);
    }
  }

  /** A member of a chain is in its prefix or its suffix, not both. */
  lemma CutOwner(t: seq<nat>, ch: seq<nat>, k: nat, d: nat)
    requires IsChain(t, ch) && k <= |ch|
    ensures d in ch <==> d in ch[..k] || d in ch[k..]
    ensures !(d in ch[..k] && d in ch[k..])
  {
    ChainDistinct(t, ch);
    if d in ch {
      var i :| 0 <= i < |ch| && ch[i] == d;
      if i < k { assert ch[..k][i] == d; } else { assert ch[k..][i - k] == d; }
    }
  }

  lemma CutChain(t: seq<nat>, ch: seq<nat>, k: nat, eoc: nat)
    requires IsChain(t, ch) && k < |ch| && |t| <= eoc
    ensures var p := if k == 0 then 0 else ch[k - 1];
            IsChain(Freed(Cut(t, p, eoc), ch[k..]), ch[..k])
  {
    var p := if k == 0 then 0 else ch[k - 1];
    var t' := Freed(Cut(t, p, eoc), ch[k..]);
    forall i | 0 <= i < k
      ensures t'[ch[i]] == if i == k - 1 then eoc else t[ch[i]]
    {
      assert ch[..k][i] == ch[i];
      CutOwner(t, ch, k, ch[i]);
      ChainDistinct(t, ch);
    }
  }

  /** The clusters remove_chain frees: it follows links from a start over distinct clusters in use. */
  ghost predicate IsPath(t: seq<nat>, start: nat, path: seq<nat>)
  {
    && (path != [] ==> path[0] == start)
    && (forall i :: 0 <= i < |path| ==> 2 <= path[i] < |t| && t[path[i]] >= 2)
    && (forall i :: 0 <= i < |path| - 1 ==> t[path[i]] == path[i + 1])
    && Distinct(path)
  }

  /** Where a path leads next. */
  ghost function Next(t: seq<nat>, start: nat, path: seq<nat>): nat
    requires IsPath(t, start, path)
  {
    if path == [] then start else t[path[|path| - 1]]
  }

  /** A path that cannot be followed further: an end mark, a free cluster, or one already freed. */
  ghost predicate Exhausted(t: seq<nat>, start: nat, path: seq<nat>)
    requires IsPath(t, start, path)
  {
    var n := Next(t, start, path);
    n >= |t| || t[n] == 0 || n in path
  }

  lemma PathStart(t: seq<nat>, start: nat)
    ensures IsPath(t, start, []) && Next(t, start, []) == start && Freed(t, []) == t
  {
  }

  /** Freeing one more cluster in use extends the path. */
  lemma FreedOneMore(t: seq<nat>, start: nat, path: seq<nat>)
    requires IsPath(t, start, path)
    requires var n := Next(t, start, path); 2 <= n < |t| && Freed(t, path)[n] >= 2
    ensures var n := Next(t, start, path);
            && n !in path && t[n] == Freed(t, path)[n]
            && IsPath(t, start, path + [n])
            && Freed(t, path + [n]) == Freed(t, path)[n := 0]
            && Next(t, start, path + [n]) == t[n]
  {
    hide IsPath;
    var n := Next(t, start, path);
    PathOneMore(t, start, path);
    FreedAlso(t, path, n);
  }

  lemma PathOneMore(t: seq<nat>, start: nat, path: seq<nat>)
    requires IsPath(t, start, path)
    requires var n := Next(t, start, path); 2 <= n < |t| && t[n] >= 2 && n !in path
    ensures IsPath(t, start, path + [Next(t, start, path)])
  {
  }

  lemma FreedAlso(t: seq<nat>, path: seq<nat>, n: nat)
    requires n < |t|
    ensures Freed(t, path + [n]) == Freed(t, path)[n := 0]
  {
  }

  /** On a well-formed chain the freed clusters are exactly the suffix from the start. */
  lemma PathIsSuffix(t: seq<nat>, ch: seq<nat>, k: nat, path: seq<nat>)
    requires IsChain(t, ch) && k < |ch|
    requires IsPath(t, ch[k], path) && Exhausted(t, ch[k], path)
    ensures path == ch[k..]
  {
    PathIsPrefix(t, ch, k, path);
    InUse(t, ch, k);
    if |path| < |ch| - k {
      assert Next(t, ch[k], path) == ch[k + |path|];
      InUse(t, ch, k + |path|);
      ChainDistinct(t, ch);
    }
  }

  /** Before it is exhausted, the path and its next cluster are part of the chain. */
  lemma PathInChain(t: seq<nat>, ch: seq<nat>, k: nat, eoc: nat, path: seq<nat>)
    requires IsChain(t, ch) && k < |ch| && |t| <= eoc
    requires IsPath(Cut(t, if k == 0 then 0 else ch[k - 1], eoc), ch[k], path)
    ensures forall c :: c in path ==> c in ch
    ensures var n := Next(Cut(t, if k == 0 then 0 else ch[k - 1], eoc), ch[k], path); n >= |t| || n in ch
  {
    hide IsPath, IsChain, Cut;
    var cut, tail := Cut(t, if k == 0 then 0 else ch[k - 1], eoc), ch[k..];
    SuffixIsChain(t, ch, k, eoc);
    PathIsPrefix(cut, tail, 0, path);
    assert forall i :: 0 <= i < |path| ==> path[i] == tail[i] == ch[k + i];
    if path != [] { ChainNext(cut, tail, |path| - 1); }
  }

  lemma ChainNext(t: seq<nat>, ch: seq<nat>, i: nat)
    requires IsChain(t, ch) && i < |ch|
    ensures 2 <= ch[i] < |t| && if i + 1 < |ch| then t[ch[i]] == ch[i + 1] else t[ch[i]] >= |t|
  {
  }

  /** remove_chain on a well-formed chain, given the previous cluster or 0 at the head: exactly the
      clusters from the start to the end are freed, and exactly the prefix remains of that one chain. */
  lemma RemovedForest(t: seq<nat>, chains: set<seq<nat>>, ch: seq<nat>, k: nat, eoc: nat, path: seq<nat>)
    requires Forest(t, chains) && ch in chains && k < |ch| && |t| <= eoc
    requires var p := if k == 0 then 0 else ch[k - 1];
             IsPath(Cut(t, p, eoc), ch[k], path) && Exhausted(Cut(t, p, eoc), ch[k], path)
    ensures path == ch[k..]
    ensures var p := if k == 0 then 0 else ch[k - 1];
            Forest(Freed(Cut(t, p, eoc), path), chains - {ch} + if k == 0 then {} else {ch[..k]})
  {
    var p := if k == 0 then 0 else ch[k - 1];
    SuffixIsChain(t, ch, k, eoc);
    PathIsSuffix(Cut(t, p, eoc), ch[k..], 0, path);
    ForestCut(t, chains, ch, k, eoc);
  }

  /** The part of a chain after a cut is a chain of its own. */
  lemma SuffixIsChain(t: seq<nat>, ch: seq<nat>, k: nat, eoc: nat)
    requires IsChain(t, ch) && k < |ch| && |t| <= eoc
    ensures IsChain(Cut(t, if k == 0 then 0 else ch[k - 1], eoc), ch[k..])
  {
    ChainDistinct(t, ch);
    var tail := ch[k..];
    forall i | 0 <= i < |tail| - 1
      ensures t[tail[i]] == tail[i + 1]
    {
      assert t[ch[k + i]] == ch[k + i + 1];
    }
  }

  lemma {:induction false} PathIsPrefix(t: seq<nat>, ch: seq<nat>, k: nat, path: seq<nat>)
    requires IsChain(t, ch) && k < |ch| && IsPath(t, ch[k], path)
    ensures |path| <= |ch| - k && path == ch[k..k + |path|]
  {
    if path != [] {
      var n := |path| - 1;
      var front := path[..n];
      assert IsPath(t, ch[k], front);
      PathIsPrefix(t, ch, k, front);
      if n > 0 {
        assert front[n - 1] == path[n - 1] == ch[k + n - 1];
        assert path[n] == t[path[n - 1]];
        assert k + n < |ch| ==> t[ch[k + n - 1]] == ch[k + n];
      }
      assert k + n < |ch| && path[n] == ch[k + n];
      assert ch[k..k + n + 1] == ch[k..k + n] + [ch[k + n]];
    }
  }
}
