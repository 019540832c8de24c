/**
  A directory as a table of entries: the scans of dir_find and dir_read over it, and what registering an
  object does to what they find.
 */
module DirTable {
  import opened Bytes
  import opened LongNames

  function Attr(e: Entry): byte { e[LDIR_ATTR] % 0x40 }

  /** A blank entry: deleted, or the end mark. */
  predicate Free(e: Entry) { e[0] == DDEM || e[0] == 0 }

  predicate IsLfn(e: Entry) { Attr(e) == AM_LFN }

  /** The volume bit is set, in labels and in long-name entries. */
  predicate VolumeBit(e: Entry) { Attr(e) / 8 % 2 == 1 }

  /** The short-name entry of an object. */
  predicate IsObject(e: Entry) { !Free(e) && !VolumeBit(e) }

  ghost predicate Unique(t: seq<Entry>)
  {
    forall i, j :: 0 <= i < j < |t| && IsObject(t[i]) && IsObject(t[j]) ==> t[i][..11] != t[j][..11]
  }

  /** Nothing live follows the end mark. */
  ghost predicate Ended(t: seq<Entry>)
  {
    forall i, j :: 0 <= i < j < |t| && t[i][0] == 0 ==> Free(t[j])
  }

  /** Every live entry is still where it was. */
  ghost predicate LiveKept(t: seq<Entry>, t': seq<Entry>)
  {
    forall k :: 0 <= k < |t| && !Free(t[k]) ==> k < |t'| && t'[k] == t[k]
  }

  // ---- dir_find ----

  /** What is looked for: a long name in the working buffer, and a short name with its status. */
  datatype Key = Key(buf: Buffer, fn: seq<byte>, loss: bool, noLfn: bool)

  /** Progress through a long-name sequence: the order expected next, its checksum, and where it began. */
  datatype Seen = Seen(ord: byte, sum: byte, start: Option<nat>)

  const NOTHING := Seen(0xFF, 0xFF, None)

  function Lower(ord: byte): byte { if ord == 0 then 0xFF else ord - 1 }

  ghost predicate Hit(key: Key, e: Entry, s: Seen)
  {
    && IsObject(e)
    && ((s.ord == 0 && s.sum == SumOf(e[..11])) || (!key.loss && e[..11] == key.fn))
  }

  ghost function Pass(up: word -> word, key: Key, e: Entry, i: nat, s: Seen): Seen
  {
    if e[0] == DDEM || (VolumeBit(e) && !IsLfn(e)) || !IsLfn(e) then s.(ord := 0xFF, start := None)
    else if key.noLfn then s
    else
      var n := if Last(e) then Seen(Order(e), e[LDIR_CHKSUM], Some(i)) else s;
      n.(ord := if Order(e) == n.ord && n.sum == e[LDIR_CHKSUM] && Cmp(up, key.buf, e) then Lower(n.ord) else 0xFF)
  }

  /** The scan from entry i on: where it stops and what it has seen, none at the end mark or the end of the table. */
  ghost function Find(up: word -> word, key: Key, t: seq<Entry>, i: nat, s: Seen): Option<(nat, Seen)>
    decreases |t| - i
  {
    if i >= |t| || t[i][0] == 0 then None
    else if Hit(key, t[i], s) then Some((i, s))
    else Find(up, key, t, i + 1, Pass(up, key, t[i], i, s))
  }

  lemma FindEnd(up: word -> word, key: Key, t: seq<Entry>, i: nat, s: Seen)
    requires i >= |t|
    ensures Find(up, key, t, i, s) == None
  {
  }

  /** A failed search for a short name: no object before the end mark has it. */
  lemma {:induction false} NotFound(up: word -> word, key: Key, t: seq<Entry>, i: nat, s: Seen, j: nat)
    requires Find(up, key, t, i, s) == None && !key.loss && i <= j < |t|
    requires forall k :: i <= k < j ==> t[k][0] != 0
    ensures IsObject(t[j]) ==> t[j][..11] != key.fn
    decreases |t| - i
  {
    hide Pass;
    if i < j {
      NotFound(up, key, t, i + 1, Pass(up, key, t[i], i, s), j);
    }
  }

  /** A scan that stops neither before entry b nor at an end mark goes on from b, and depends on what is before b
      alone. */
  lemma {:induction false} Through(up: word -> word, key: Key, t: seq<Entry>, t': seq<Entry>, i: nat, s: Seen,
                                   b: nat) returns (r: Seen)
    requires i <= b <= |t| && b <= |t'| && t[..b] == t'[..b]
    requires Find(up, key, t, i, s) == None
    requires forall k :: i <= k < b ==> t[k][0] != 0
    ensures Find(up, key, t', i, s) == Find(up, key, t', b, r)
    decreases b - i
  {
    hide Pass;
    r := s;
    if i < b {
      assert t[i] == t[..b][i] == t'[i];
      r := Through(up, key, t, t', i + 1, Pass(up, key, t[i], i, s), b);
    }
  }

  // ---- the entries of a registered object ----

  /** A new short-name entry: the name and its case flags, all else zero. */
  function SfnEntry(fn: seq<byte>, ntCase: byte): Entry
    requires |fn| == 11
  {
    seq(SZDIRE, k requires 0 <= k < SZDIRE => if k < 11 then fn[k] else if k == 12 then ntCase else 0)
  }

  lemma SfnEntryFacts(fn: seq<byte>, ntCase: byte)
    requires |fn| == 11 && fn[0] != 0 && fn[0] != DDEM
    ensures var e := SfnEntry(fn, ntCase); IsObject(e) && !Free(e) && e[..11] == fn && (fn[0] != 0x2E ==> Stops(e))
  {
  }

  method PutSfn(dir: array<byte>, ofs: nat, fn: seq<byte>, ntCase: byte)
    requires ofs + SZDIRE <= dir.Length && |fn| == 11
    modifies dir
    ensures dir[..] == old(dir[..ofs]) + SfnEntry(fn, ntCase) + old(dir[ofs + SZDIRE..])
  {
    for k := 0 to SZDIRE
      invariant forall j :: ofs <= j < ofs + k ==> dir[j] == 0
      invariant forall j :: 0 <= j < dir.Length && !(ofs <= j < ofs + SZDIRE) ==> dir[j] == old(dir[j])
    {
      dir[ofs + k] := 0;
    }
    for k := 0 to 11
      invariant forall j :: ofs <= j < ofs + SZDIRE ==> dir[j] == if j - ofs < k then fn[j - ofs] else 0
      invariant forall j :: 0 <= j < dir.Length && !(ofs <= j < ofs + SZDIRE) ==> dir[j] == old(dir[j])
    {
      dir[ofs + k] := fn[k];
    }
    dir[ofs + 12] := ntCase;
  }

  /** The long-name entries, last part first, and the short-name entry. */
  function Block(w: seq<word>, parts: nat, sum: byte, sfn: Entry): seq<Entry>
    requires parts < LLEF
  {
    seq(parts + 1, k requires 0 <= k <= parts => if k < parts then LfnEntry(w, parts - k, sum) else sfn)
  }

  ghost predicate HasBlock(t: seq<Entry>, b: nat, w: seq<word>, parts: nat, sfn: Entry)
    requires parts < LLEF
  {
    b + parts < |t| && t[b..b + parts + 1] == Block(w, parts, SumOf(sfn[..11]), sfn)
  }

  lemma BlockEntry(t: seq<Entry>, b: nat, w: seq<word>, parts: nat, sfn: Entry, k: nat)
    requires parts < LLEF && HasBlock(t, b, w, parts, sfn) && k <= parts
    ensures t[b + k] == if k < parts then LfnEntry(w, parts - k, SumOf(sfn[..11])) else sfn
  {
    hide LfnEntry;
    assert t[b + k] == t[b..b + parts + 1][k];
  }

  lemma LfnEntryKind(w: seq<word>, ord: nat, sum: byte)
    requires 1 <= ord <= 20
    ensures var e := LfnEntry(w, ord, sum); IsLfn(e) && VolumeBit(e) && !Free(e) && !IsObject(e) && e[0] != 0x2E
  {
    hide LfnEntry;
    EntryFacts(w, ord, sum);
  }

  /** The scan matches the parts of a name that is the same up to case one after another and stops at the short name. */
  lemma {:induction false} FindBlock(up: word -> word, key: Key, t: seq<Entry>, b: nat, w: seq<word>, v: seq<word>,
                                     sfn: Entry, k: nat, s: Seen)
    requires Holding(key.buf, w) && |w| <= 254 && !key.noLfn && IsObject(sfn)
    requires IsName(v) && SameName(up, w, v) && HasBlock(t, b, v, Parts(|v|), sfn) && k <= Parts(|v|)
    requires k > 0 ==> s == Seen(Parts(|v|) - k, SumOf(sfn[..11]), Some(b))
    ensures Find(up, key, t, b + k, s) == Some((b + Parts(|v|), Seen(0, SumOf(sfn[..11]), Some(b))))
    decreases Parts(|v|) - k
  {
    hide LfnEntry, HasBlock, Cmp, SumOf;
    var parts, sum := Parts(|v|), SumOf(sfn[..11]);
    BlockEntry(t, b, v, parts, sfn, k);
    InTable(t, b, v, parts, sfn);
    if k < parts {
      var e := t[b + k];
      EntryFacts(v, parts - k, sum);
      LfnEntryKind(v, parts - k, sum);
      CmpSame(up, key.buf, w, v, parts - k, sum);
      FindBlock(up, key, t, b, w, v, sfn, k + 1, Seen(parts - k - 1, sum, Some(b)));
    }
  }

  lemma InTable(t: seq<Entry>, b: nat, w: seq<word>, parts: nat, sfn: Entry)
    requires parts < LLEF && HasBlock(t, b, w, parts, sfn)
    ensures b + parts < |t|
  {
  }

  /** After a failed search, the object registered under the name is where the next search stops. */
  lemma FindRegistered(up: word -> word, key: Key, t: seq<Entry>, t': seq<Entry>, b: nat, w: seq<word>, sfn: Entry)
    requires Find(up, key, t, 0, NOTHING) == None && b <= |t| && b <= |t'| && t[..b] == t'[..b]
    requires forall k :: 0 <= k < b ==> t[k][0] != 0
    requires Holding(key.buf, w) && |w| <= 254 && !key.noLfn && IsObject(sfn) && HasBlock(t', b, w, Parts(|w|), sfn)
    ensures Find(up, key, t', 0, NOTHING) == Some((b + Parts(|w|), Seen(0, SumOf(sfn[..11]), Some(b))))
  {
    hide LfnEntry, HasBlock, Find;
    var s := Through(up, key, t, t', 0, NOTHING, b);
    FindBlock(up, key, t', b, w, w, sfn, 0, s);
  }

  /** The same for an object without a long name, which the search finds by its short name. */
  lemma FindRegisteredShort(up: word -> word, key: Key, t: seq<Entry>, t': seq<Entry>, b: nat)
    requires Find(up, key, t, 0, NOTHING) == None && b <= |t| && b < |t'| && t[..b] == t'[..b]
    requires forall k :: 0 <= k < b ==> t[k][0] != 0
    requires !key.loss && IsObject(t'[b]) && t'[b][..11] == key.fn
    ensures Find(up, key, t', 0, NOTHING).Some? && Find(up, key, t', 0, NOTHING).value.0 == b
  {
    var s := Through(up, key, t, t', 0, NOTHING, b);
  }

  // ---- what a search means ----

  /** The entries from b up to at are one sequence of parts, last first, each matching the buffer. */
  ghost predicate MatchedRun(up: word -> word, buf: Buffer, t: seq<Entry>, b: nat, at: nat, sum: byte, ord: byte)
  {
    && b < at <= |t|
    && forall k :: b <= k < at ==>
         && IsLfn(t[k]) && !Free(t[k]) && t[k][LDIR_CHKSUM] == sum && Order(t[k]) == ord + at - k
         && Cmp(up, buf, t[k]) && (Last(t[k]) <==> k == b)
  }

  /** What is known at entry i: no sequence is under way, or the one that began at its start. */
  ghost predicate Progress(up: word -> word, key: Key, t: seq<Entry>, i: nat, s: Seen)
  {
    s.ord == 0xFF || (!key.noLfn && s.start.Some? && MatchedRun(up, key.buf, t, s.start.value, i, s.sum, s.ord))
  }

  lemma ProgressNext(up: word -> word, key: Key, t: seq<Entry>, i: nat, s: Seen)
    requires Progress(up, key, t, i, s) && i < |t| && t[i][0] != 0
    ensures Progress(up, key, t, i + 1, Pass(up, key, t[i], i, s))
  {
    hide CmpFrom, LdWord;
  }

  /**
    Soundness: a search stops at an object that has the short name, or that comes right after a complete
    sequence of parts which carry its checksum and match the long name.
   */
  lemma {:induction false} FindSound(up: word -> word, key: Key, t: seq<Entry>, i: nat, s: Seen)
    requires Progress(up, key, t, i, s)
    ensures match Find(up, key, t, i, s)
            case None => true
            case Some((at, q)) =>
              && i <= at < |t| && IsObject(t[at]) && (forall k :: i <= k < at ==> t[k][0] != 0)
              && (|| (!key.loss && t[at][..11] == key.fn)
                  || (q.start.Some? && MatchedRun(up, key.buf, t, q.start.value, at, SumOf(t[at][..11]), 0)))
    decreases |t| - i
  {
    hide Pass, MatchedRun, LongNames.SumOf;
    if i < |t| && t[i][0] != 0 && !Hit(key, t[i], s) {
      ProgressNext(up, key, t, i, s);
      FindSound(up, key, t, i + 1, Pass(up, key, t[i], i, s));
    }
  }

  lemma BlockPart(t: seq<Entry>, b: nat, v: seq<word>, sfn: Entry, ord: nat)
    requires IsName(v) && HasBlock(t, b, v, Parts(|v|), sfn) && 1 <= ord <= Parts(|v|)
    ensures b + Parts(|v|) < |t| && t[b + Parts(|v|)] == sfn
    ensures var e := t[b + Parts(|v|) - ord];
            && e == LfnEntry(v, ord, SumOf(sfn[..11])) && (Last(e) <==> ord == Parts(|v|)) && Order(e) == ord
            && IsLfn(e) && !Free(e) && !IsObject(e)
  {
    hide LfnEntry, HasBlock, LongNames.SumOf;
    InTable(t, b, v, Parts(|v|), sfn);
    BlockEntry(t, b, v, Parts(|v|), sfn, Parts(|v|));
    BlockEntry(t, b, v, Parts(|v|), sfn, Parts(|v|) - ord);
    EntryFacts(v, ord, SumOf(sfn[..11]));
    LfnEntryKind(v, ord, SumOf(sfn[..11]));
  }

  /** Where that sequence is the one of a registered name, the name is the one looked for, up to case. */
  lemma HitMeans(up: word -> word, buf: Buffer, w: seq<word>, t: seq<Entry>, b: nat, at: nat, v: seq<word>)
    requires Holding(buf, w) && KeepsZero(up) && IsName(v) && at < |t|
    requires MatchedRun(up, buf, t, b, at, SumOf(t[at][..11]), 0)
    requires at >= Parts(|v|) && HasBlock(t, at - Parts(|v|), v, Parts(|v|), t[at])
    ensures b == at - Parts(|v|) && SameName(up, w, v)
  {
    hide LfnEntry, HasBlock, Cmp, LongNames.SumOf;
    var p, sum := Parts(|v|), SumOf(t[at][..11]);
    BlockPart(t, at - p, v, t[at], p);
    if at - b <= p { BlockPart(t, at - p, v, t[at], at - b); }
    forall ord | 1 <= ord <= p
      ensures Cmp(up, buf, LfnEntry(v, ord, sum))
    {
      BlockPart(t, at - p, v, t[at], ord);
    }
    MatchMeans(up, buf, w, v, sum);
  }

  /** Completeness: after a failed search no name before the end mark is the same up to case, one of 255 units apart. */
  lemma FindComplete(up: word -> word, key: Key, t: seq<Entry>, w: seq<word>, b: nat, v: seq<word>, sfn: Entry)
    requires Find(up, key, t, 0, NOTHING) == None && Holding(key.buf, w) && !key.noLfn
    requires IsName(v) && IsObject(sfn) && HasBlock(t, b, v, Parts(|v|), sfn)
    requires b <= |t| && forall k :: 0 <= k < b ==> t[k][0] != 0
    ensures SameName(up, w, v) ==> |w| == 255
  {
    hide Find, HasBlock, LfnEntry, LongNames.SumOf;
    InTable(t, b, v, Parts(|v|), sfn);
    if SameName(up, w, v) && |w| <= 254 {
      var s := Through(up, key, t, t, 0, NOTHING, b);
      FindBlock(up, key, t, b, w, v, sfn, 0, s);
    }
  }

  // ---- the longest name ----

  /** The parts of a name of 255 units do not match it: the scan comes to its short name without a sequence. */
  lemma {:induction false} PastLongest(up: word -> word, key: Key, t: seq<Entry>, b: nat, w: seq<word>, sfn: Entry,
                                       k: nat, s: Seen) returns (q: Seen)
    requires Holding(key.buf, w) && |w| == 255 && !key.noLfn && HasBlock(t, b, w, 20, sfn) && k <= 20
    requires k > 0 ==> s.ord == 0xFF
    ensures q.ord == 0xFF && Find(up, key, t, b + k, s) == Find(up, key, t, b + 20, q)
    decreases 20 - k
  {
    hide LfnEntry, HasBlock, Cmp, SumOf;
    InTable(t, b, w, 20, sfn);
    q := s;
    if k < 20 {
      var sum := SumOf(sfn[..11]);
      BlockEntry(t, b, w, 20, sfn, k);
      EntryFacts(w, 20 - k, sum);
      LfnEntryKind(w, 20 - k, sum);
      CmpPart(up, key.buf, w, 20 - k, sum);
      q := PastLongest(up, key, t, b, w, sfn, k + 1, Pass(up, key, t[b + k], b + k, s));
    }
  }

  /** Without a sequence under way, the checksum of an earlier one does not matter to whether anything is found. */
  lemma {:induction false} SumIgnored(up: word -> word, key: Key, t: seq<Entry>, i: nat, s: Seen, q: Seen)
    requires s.ord == q.ord && (s.ord == 0xFF || s.sum == q.sum)
    ensures Find(up, key, t, i, s) == None <==> Find(up, key, t, i, q) == None
    decreases |t| - i
  {
    hide Cmp, LongNames.SumOf;
    if i < |t| && t[i][0] != 0 && !Hit(key, t[i], s) {
      SumIgnored(up, key, t, i + 1, Pass(up, key, t[i], i, s), Pass(up, key, t[i], i, q));
    }
  }

  /** Nothing is found among blank entries. */
  lemma {:induction false} FindBlank(up: word -> word, key: Key, t: seq<Entry>, i: nat, s: Seen)
    requires forall k :: i <= k < |t| ==> Free(t[k])
    ensures Find(up, key, t, i, s) == None
    decreases |t| - i
  {
    hide Pass;
    if i < |t| && t[i][0] != 0 {
      FindBlank(up, key, t, i + 1, Pass(up, key, t[i], i, s));
    }
  }

  /** Deleted entries are passed over and end any sequence. */
  lemma {:induction false} PastDeleted(up: word -> word, key: Key, t: seq<Entry>, i: nat, j: nat,
                                       s: Seen) returns (q: Seen)
    requires i < j <= |t| && forall k :: i <= k < j ==> t[k][0] == DDEM
    ensures q.ord == 0xFF && Find(up, key, t, i, s) == Find(up, key, t, j, q)
    decreases j - i
  {
    q := Pass(up, key, t[i], i, s);
    if i + 1 < j {
      q := PastDeleted(up, key, t, i + 1, j, q);
    }
  }

  // ---- dir_read ----

  /** Progress of a read: the order expected next, the checksum, where the long name began, and the buffer it is
      rebuilt in. */
  datatype Reading = Reading(ord: byte, sum: byte, start: Option<nat>, buf: Buffer)

  /** A file or directory entry ends the read. */
  predicate Stops(e: Entry) { !Free(e) && e[0] != 0x2E && Attr(e) % 0x20 != 8 && !IsLfn(e) }

  function ReadPass(e: Entry, i: nat, r: Reading): Reading
  {
    if e[0] == DDEM || e[0] == 0x2E || Attr(e) % 0x20 == 8 || !IsLfn(e) then r.(ord := 0xFF)
    else
      var n := if Last(e) then Reading(Order(e), e[LDIR_CHKSUM], Some(i), r.buf) else r;
      if Order(e) != n.ord || n.sum != e[LDIR_CHKSUM] then n.(ord := 0xFF)
      else n.(ord := if Pick(n.buf, e).ok then Lower(n.ord) else 0xFF, buf := Pick(n.buf, e).buf)
  }

  /** The entry the read stops at, with the long name if its sequence is complete. */
  ghost function Read(t: seq<Entry>, i: nat, r: Reading): Option<(nat, Reading)>
    decreases |t| - i
  {
    if i >= |t| || t[i][0] == 0 then None
    else if Stops(t[i]) then
      Some((i, if r.ord != 0 || r.sum != SumOf(t[i][..11]) then r.(start := None) else r))
    else Read(t, i + 1, ReadPass(t[i], i, r))
  }

  lemma ReadEnd(t: seq<Entry>, i: nat, r: Reading)
    requires i >= |t|
    ensures Read(t, i, r) == None
  {
  }

  lemma {:induction false} ReadBlock(t: seq<Entry>, b: nat, w: seq<word>, sfn: Entry, k: nat, r: Reading)
    requires IsName(w) && |w| <= 253 && Stops(sfn)
    requires HasBlock(t, b, w, Parts(|w|), sfn) && k <= Parts(|w|)
    requires k > 0 ==> r.ord == Parts(|w|) - k && r.sum == SumOf(sfn[..11]) && r.start == Some(b)
    requires k > 0 ==> HoldsFrom(r.buf, w, (Parts(|w|) - k) * 13)
    ensures var x := Read(t, b + k, r);
            && x.Some? && x.value.0 == b + Parts(|w|)
            && x.value.1.start == Some(b) && Holding(x.value.1.buf, w)
    decreases Parts(|w|) - k
  {
    hide LfnEntry, HasBlock, Pick, SumOf;
    var parts, sum := Parts(|w|), SumOf(sfn[..11]);
    BlockEntry(t, b, w, parts, sfn, k);
    InTable(t, b, w, parts, sfn);
    if k < parts {
      var e := t[b + k];
      EntryFacts(w, parts - k, sum);
      LfnEntryKind(w, parts - k, sum);
      PickPart(r.buf, w, parts - k, sum);
      ReadBlock(t, b, w, sfn, k + 1, ReadPass(e, b + k, r));
    } else {
      assert r.buf[..|w|] == w;
    }
  }

  /** The last part of a name of 254 or 255 units is refused, and with it the sequence. */
  lemma {:induction false} ReadTooLong(t: seq<Entry>, b: nat, w: seq<word>, sfn: Entry, k: nat, r: Reading)
    requires IsName(w) && |w| >= 254 && Stops(sfn) && HasBlock(t, b, w, Parts(|w|), sfn) && k <= Parts(|w|)
    requires k > 0 ==> r.ord == 0xFF
    ensures var x := Read(t, b + k, r); x.Some? && x.value.0 == b + Parts(|w|) && x.value.1.start == None
    decreases Parts(|w|) - k
  {
    hide LfnEntry, HasBlock, Pick, SumOf;
    var parts, sum := Parts(|w|), SumOf(sfn[..11]);
    BlockEntry(t, b, w, parts, sfn, k);
    InTable(t, b, w, parts, sfn);
    if k < parts {
      EntryFacts(w, parts - k, sum);
      LfnEntryKind(w, parts - k, sum);
      TooLongToPick(r.buf, w, sum);
      ReadTooLong(t, b, w, sfn, k + 1, ReadPass(t[b + k], b + k, r));
    }
  }

  /**
    The read that comes to the entries of a name returns its object, whatever was read before; with the long
    name, and then exactly that name, if and only if it has at most 253 units.
   */
  lemma ReadRegistered(t: seq<Entry>, b: nat, w: seq<word>, sfn: Entry, r: Reading)
    requires IsName(w) && Stops(sfn) && HasBlock(t, b, w, Parts(|w|), sfn)
    ensures var x := Read(t, b, r);
            && x.Some? && x.value.0 == b + Parts(|w|)
            && (x.value.1.start == Some(b) <==> |w| <= 253)
            && (|w| <= 253 ==> Holding(x.value.1.buf, w))
  {
    hide HasBlock;
    if |w| <= 253 {
      ReadBlock(t, b, w, sfn, 0, r);
    } else {
      ReadTooLong(t, b, w, sfn, 0, r);
    }
  }

  // ---- listing a directory ----

  /** A read stops before entry b, or comes to b. */
  lemma {:induction false} ReadTo(t: seq<Entry>, i: nat, r: Reading, b: nat) returns (q: Reading)
    requires i <= b <= |t| && forall k :: i <= k < b ==> t[k][0] != 0
    ensures var x := Read(t, i, r);
            || x == Read(t, b, q)
            || (x.Some? && i <= x.value.0 < b && Stops(t[x.value.0]))
    ensures (forall k :: i <= k < b ==> !Stops(t[k])) ==> Read(t, i, r) == Read(t, b, q)
    decreases b - i
  {
    hide ReadPass, Stops;
    q := r;
    if i < b && !Stops(t[i]) {
      q := ReadTo(t, i + 1, ReadPass(t[i], i, r), b);
    }
  }

  /** A read goes forward and stops at an object. */
  lemma {:induction false} ReadForward(t: seq<Entry>, i: nat, r: Reading)
    ensures var x := Read(t, i, r); x.Some? ==> i <= x.value.0 < |t| && Stops(t[x.value.0])
    decreases |t| - i
  {
    hide ReadPass, Stops;
    if i < |t| && t[i][0] != 0 && !Stops(t[i]) {
      ReadForward(t, i + 1, ReadPass(t[i], i, r));
    }
  }

  /** What reading on and on from entry i returns; every read begins without a sequence, in the buffer the last one
      left. */
  ghost function Listing(t: seq<Entry>, i: nat, buf: Buffer): seq<(nat, Reading)>
    decreases |t| - i
  {
    var r := Reading(0xFF, 0xFF, None, buf);
    ReadForward(t, i, r);
    match Read(t, i, r)
    case None => []
    case Some((at, q)) => [(at, q)] + Listing(t, at + 1, q.buf)
  }

  lemma ListingNext(t: seq<Entry>, i: nat, buf: Buffer, l: seq<(nat, Reading)>)
    ensures match Read(t, i, Reading(0xFF, 0xFF, None, buf))
            case None => l + Listing(t, i, buf) == l
            case Some((at, r)) => i <= at < |t| && l + Listing(t, i, buf) == l + [(at, r)] + Listing(t, at + 1, r.buf)
  {
    hide Read;
    ReadForward(t, i, Reading(0xFF, 0xFF, None, buf));
  }

  /** A listing has the object that ends at entry at, with its long name if that can be read back. */
  ghost predicate Lists(l: seq<(nat, Reading)>, at: nat, w: seq<word>)
  {
    exists n :: 0 <= n < |l| && l[n].0 == at && (l[n].1.start == Some(at - Parts(|w|)) <==>
      |w| <= 253) && (|w| <= 253 ==> Holding(l[n].1.buf, w))
  }

  /** Every object before the end mark is listed. */
  lemma {:induction false} ListingComplete(t: seq<Entry>, i: nat, buf: Buffer, at: nat) returns (n: nat)
    requires i <= at < |t| && Stops(t[at]) && forall k :: i <= k <= at ==> t[k][0] != 0
    ensures n < |Listing(t, i, buf)| && Listing(t, i, buf)[n].0 == at
    decreases at - i
  {
    hide Stops, ReadPass;
    var r := Reading(0xFF, 0xFF, None, buf);
    ReadForward(t, i, r);
    var q := ReadTo(t, i, r, at);
    var x := Read(t, i, r);
    n := 0;
    if x.value.0 < at {
      n := ListingComplete(t, x.value.0 + 1, x.value.1.buf, at);
      n := n + 1;
    }
  }

  /**
    Listing the directory from an entry before the block returns the object of the block, with exactly its long
    name if that has at most 253 units, whatever objects, deleted entries and broken sequences come before it.
   */
  lemma {:induction false} ListingHas(t: seq<Entry>, i: nat, buf: Buffer, b: nat, w: seq<word>,
                                      sfn: Entry) returns (n: nat)
    requires IsName(w) && Stops(sfn) && HasBlock(t, b, w, Parts(|w|), sfn)
    requires i <= b <= |t| && forall k :: i <= k < b ==> t[k][0] != 0
    ensures n < |Listing(t, i, buf)|
    ensures var (at, r) := Listing(t, i, buf)[n];
            && at == b + Parts(|w|) && (r.start == Some(b) <==> |w| <= 253)
            && (|w| <= 253 ==> Holding(r.buf, w))
    decreases b - i
  {
    hide Stops, ReadPass, HasBlock, Read;
    InTable(t, b, w, Parts(|w|), sfn);
    var r := Reading(0xFF, 0xFF, None, buf);
    ReadForward(t, i, r);
    var q := ReadTo(t, i, r, b);
    ReadRegistered(t, b, w, sfn, q);
    var x := Read(t, i, r);
    n := 0;
    if x != Read(t, b, q) {
      n := ListingHas(t, x.value.0 + 1, x.value.1.buf, b, w, sfn);
      n := n + 1;
    }
  }

  // ---- the same on the bytes of the entries ----

  /** A live entry of a file or directory: neither deleted nor the end mark, and bit 3 of byte 11 clear. */
  lemma ObjectBytes(e: Entry)
    ensures IsObject(e) <==> e[0] != 0 && e[0] != 0xE5 && e[11] / 8 % 2 == 0
  {
    BitThree(e[11]);
  }

  lemma BitThree(x: byte)
    ensures x % 0x40 / 8 % 2 == x / 8 % 2
  {
    var q, r := x / 0x40, x % 0x40;
    assert x as int == 8 * (8 * q as int + r as int / 8) + r as int % 8;
  }

  /** A search for a short name stops at an entry that has it, or before. */
  lemma {:induction false} ShortNameFound(up: word -> word, key: Key, t: seq<Entry>, i: nat, s: Seen, j: nat)
    requires !key.loss && i <= j < |t| && forall k :: i <= k <= j ==> t[k][0] != 0
    requires t[j][0] != 0xE5 && t[j][11] / 8 % 2 == 0 && t[j][..11] == key.fn
    ensures Find(up, key, t, i, s).Some? && i <= Find(up, key, t, i, s).value.0 <= j
    decreases j - i
  {
    hide Pass, IsObject;
    ObjectBytes(t[j]);
    if i < j && !Hit(key, t[i], s) {
      ShortNameFound(up, key, t, i + 1, Pass(up, key, t[i], i, s), j);
    }
  }

  /** An entry of a file or directory before the end mark has the short name. */
  ghost predicate Bears(t: seq<Entry>, j: nat, fn: seq<byte>)
  {
    && j < |t| && (forall k :: 0 <= k <= j ==> t[k][0] != 0)
    && t[j][0] != 0xE5 && t[j][11] / 8 % 2 == 0 && t[j][..11] == fn
  }

  lemma NobodyBears(up: word -> word, key: Key, t: seq<Entry>)
    requires !key.loss && Find(up, key, t, 0, NOTHING) == None
    ensures forall j: nat :: !Bears(t, j, key.fn)
  {
    hide Find;
    forall j: nat
      ensures !Bears(t, j, key.fn)
    {
      if Bears(t, j, key.fn) { ShortNameFound(up, key, t, 0, NOTHING, j); }
    }
  }

  /** A search by short name alone stops exactly at the first entry of a file or directory that has the name. */
  lemma {:induction false} ShortSearchExact(up: word -> word, key: Key, t: seq<Entry>, i: nat, s: Seen)
    requires key.noLfn && !key.loss && s.ord == 0xFF
    ensures match Find(up, key, t, i, s)
            case None => forall j :: i <= j < |t| && (forall k :: i <= k <= j ==> t[k][0] != 0) ==>
              !(t[j][0] != 0xE5 && t[j][11] / 8 % 2 == 0 && t[j][..11] == key.fn)
            case Some((at, _)) =>
              && i <= at < |t| && t[at][0] != 0xE5 && t[at][11] / 8 % 2 == 0 && t[at][..11] == key.fn
              && (forall k :: i <= k <= at ==> t[k][0] != 0)
              && forall j :: i <= j < at ==> !(t[j][0] != 0xE5 && t[j][11] / 8 % 2 == 0 && t[j][..11] == key.fn)
    decreases |t| - i
  {
    hide IsObject;
    if i < |t| && t[i][0] != 0 {
      ObjectBytes(t[i]);
      if !Hit(key, t[i], s) {
        ShortSearchExact(up, key, t, i + 1, Pass(up, key, t[i], i, s));
      }
    }
  }

  /** The entries of an object with a long name, by their bytes: the parts, last one first, each with the checksum of
      the short name, and then the entry of a file or directory. */
  ghost predicate LongOnDisk(t: seq<Entry>, b: nat, v: seq<word>, parts: nat)
  {
    && IsName(v) && 13 * (parts - 1) < |v| <= 13 * parts && b + parts < |t|
    && (forall j :: b <= j < b + parts ==> OnDisk(t[j], v, b + parts - j, SumOf(t[b + parts][..11])))
    && t[b + parts][0] != 0 && t[b + parts][0] != 0xE5 && t[b + parts][11] / 8 % 2 == 0
  }

  /** These are the blocks that registering writes. */
  lemma BlockOnDisk(t: seq<Entry>, b: nat, v: seq<word>, parts: nat)
    ensures LongOnDisk(t, b, v, parts) <==>
              && IsName(v) && parts == Parts(|v|) && b + parts < |t| && IsObject(t[b + parts])
              && HasBlock(t, b, v, parts, t[b + parts])
  {
    hide IsObject, LongNames.SumOf, LfnEntry, OnDisk;
    if IsName(v) && parts == Parts(|v|) && b + parts < |t| {
      var sum := SumOf(t[b + parts][..11]);
      ObjectBytes(t[b + parts]);
      forall j | b <= j < b + parts
        ensures OnDisk(t[j], v, b + parts - j, sum) <==> t[j] == LfnEntry(v, b + parts - j, sum)
      {
        LfnOnDisk(t[j], v, b + parts - j, sum);
      }
      SameBlock(t, b, v, parts, t[b + parts]);
    }
  }

  /** A block entry by entry. */
  lemma SameBlock(t: seq<Entry>, b: nat, v: seq<word>, parts: nat, sfn: Entry)
    requires parts < LLEF && b + parts < |t|
    ensures HasBlock(t, b, v, parts, sfn) <==>
              && t[b + parts] == sfn
              && forall j :: b <= j < b + parts ==> t[j] == LfnEntry(v, b + parts - j, SumOf(sfn[..11]))
  {
    hide LfnEntry, LongNames.SumOf;
    var sum, r := SumOf(sfn[..11]), t[b..b + parts + 1];
    assert forall j :: b <= j <= b + parts ==> t[j] == r[j - b];
    if HasBlock(t, b, v, parts, sfn) {
      forall j | b <= j < b + parts
        ensures t[j] == LfnEntry(v, b + parts - j, sum)
      {
        BlockEntry(t, b, v, parts, sfn, j - b);
      }
      BlockEntry(t, b, v, parts, sfn, parts);
    }
    if t[b + parts] == sfn && forall j :: b <= j < b + parts ==> t[j] == LfnEntry(v, b + parts - j, sum) {
      forall k | 0 <= k < |r|
        ensures r[k] == Block(v, parts, sum, sfn)[k]
      {
        assert r[k] == t[b + k];
      }
    }
  }

  /** A search for a long name of up to 254 units stops at an object whose long name is the same up to case, or
      before. */
  lemma {:induction false} LongNameFound(up: word -> word, key: Key, t: seq<Entry>, i: nat, s: Seen, w: seq<word>,
                                         b: nat, v: seq<word>, parts: nat)
    requires Holding(key.buf, w) && |w| <= 254 && !key.noLfn && SameName(up, w, v)
    requires i <= b && LongOnDisk(t, b, v, parts) && forall k :: i <= k < b ==> t[k][0] != 0
    ensures Find(up, key, t, i, s).Some? && i <= Find(up, key, t, i, s).value.0 <= b + parts
    decreases b - i
  {
    hide Pass, IsObject, HasBlock, Holding, SameName, LongNames.SumOf, LfnEntry, OnDisk, Hit;
    if i == b {
      BlockOnDisk(t, b, v, parts);
      FindBlock(up, key, t, b, w, v, t[b + parts], 0, s);
    } else if !Hit(key, t[i], s) {
      LongNameFound(up, key, t, i + 1, Pass(up, key, t[i], i, s), w, b, v, parts);
    }
  }

  /** What a listing is made of, by its bytes: live entries that are no dot entry, no volume label and no part of a long
      name. */
  predicate Shown(e: Entry)
  {
    e[0] != 0 && e[0] != 0xE5 && e[0] != 0x2E && e[11] % 0x20 != 8 && e[11] % 0x40 != 0x0F
  }

  lemma StopsShown(e: Entry)
    ensures Stops(e) <==> Shown(e)
    ensures e[0] != 0 && e[0] != 0xE5 && e[0] != 0x2E && e[11] / 8 % 2 == 0 ==> Shown(e)
  {
    var a := e[11] as int;
    assert a % 0x40 % 0x20 == a % 0x20;
    assert a % 0x20 == 8 ==> a / 8 % 2 == 1;
    assert a % 0x40 == 0x0F ==> a / 8 % 2 == 1;
  }

  /** An entry is listed exactly if it is one of these and no end mark is before it. */
  lemma {:induction false} ListedExactly(t: seq<Entry>, i: nat, buf: Buffer, at: nat)
    requires i <= at < |t|
    ensures (exists n :: 0 <= n < |Listing(t, i, buf)| && Listing(t, i, buf)[n].0 == at) <==>
              Shown(t[at]) && forall k :: i <= k < at ==> t[k][0] != 0
    decreases at - i
  {
    hide Stops, Shown, Listing;
    StopsShown(t[at]);
    if Shown(t[at]) && forall k :: i <= k < at ==> t[k][0] != 0 {
      assert t[at][0] != 0 by { ShownLive(t[at]); }
      var n := ListingComplete(t, i, buf, at);
    }
    if exists n :: 0 <= n < |Listing(t, i, buf)| && Listing(t, i, buf)[n].0 == at {
      var n :| 0 <= n < |Listing(t, i, buf)| && Listing(t, i, buf)[n].0 == at;
      ListedStops(t, i, buf, n);
    }
  }

  lemma ShownLive(e: Entry)
    requires Shown(e)
    ensures e[0] != 0
  {
  }

  /** A read passes no end mark. */
  lemma {:induction false} ReadLive(t: seq<Entry>, i: nat, r: Reading)
    ensures var x := Read(t, i, r); x.Some? ==> forall k :: i <= k <= x.value.0 < |t| ==> t[k][0] != 0
    decreases |t| - i
  {
    hide ReadPass, Stops;
    if i < |t| && t[i][0] != 0 && !Stops(t[i]) {
      ReadLive(t, i + 1, ReadPass(t[i], i, r));
    }
  }

  /** Everything listed is an entry that ends a read, with no end mark before it. */
  lemma {:induction false} ListedStops(t: seq<Entry>, i: nat, buf: Buffer, n: nat)
    requires n < |Listing(t, i, buf)|
    ensures var at := Listing(t, i, buf)[n].0;
            i <= at < |t| && Stops(t[at]) && forall k :: i <= k < at ==> t[k][0] != 0
    decreases n
  {
    hide Stops, ReadPass, Read;
    var r := Reading(0xFF, 0xFF, None, buf);
    ReadForward(t, i, r);
    ReadLive(t, i, r);
    if n > 0 {
      var x := Read(t, i, r).value;
      ListedStops(t, x.0 + 1, x.1.buf, n - 1);
    }
  }

  // ---- what a long name that was read means ----

  /** The entries from b up to at are one sequence of parts, last first, with one checksum, and the buffer is what they
      say. */
  ghost predicate PickedRun(t: seq<Entry>, b: nat, at: nat, sum: byte, ord: byte, buf: Buffer)
  {
    && b < at <= |t|
    && forall k :: b <= k < at ==>
         && t[k][0] != 0xE5 && t[k][11] % 0x40 == 0x0F && t[k][13] == sum && Order(t[k]) == ord + at - k
         && (Last(t[k]) <==> k == b) && PutInto(t[k], buf)
  }

  ghost predicate ReadProgress(t: seq<Entry>, i: nat, r: Reading)
  {
    r.ord == 0xFF || (r.start.Some? && PickedRun(t, r.start.value, i, r.sum, r.ord, r.buf))
  }

  /** A lower part does not disturb the higher ones. */
  lemma StillPut(e: Entry, f: Entry, buf: Buffer)
    requires Pick(buf, e).ok && !Last(e) && PutInto(f, buf) && Order(f) > Order(e)
    ensures PutInto(f, Pick(buf, e).buf)
  {
    hide Pick, CharAt, NoZeroBefore, Last, Order;
    PickPuts(buf, e);
  }

  lemma ReadProgressNext(t: seq<Entry>, i: nat, r: Reading)
    requires ReadProgress(t, i, r) && i < |t| && t[i][0] != 0
    ensures ReadProgress(t, i + 1, ReadPass(t[i], i, r))
  {
    hide Pick, PutInto, LdWord;
    var e, q := t[i], ReadPass(t[i], i, r);
    if q.ord != 0xFF {
      OrderOfLive(e);
      PickPuts(r.buf, e);
      if !Last(e) {
        forall k | r.start.value <= k < i
          ensures PutInto(t[k], q.buf)
        {
          StillPut(e, t[k], r.buf);
        }
      }
    }
  }

  lemma OrderOfLive(e: Entry)
    requires e[0] != 0
    ensures !Last(e) ==> 0 < Order(e) < 0xFF
  {
  }

  /**
    Soundness: a read that returns a long name has come to it through a complete sequence of parts right before the
    object, all with its checksum, and returns exactly what they say.
   */
  lemma {:induction false} ReadSound(t: seq<Entry>, i: nat, r: Reading)
    requires ReadProgress(t, i, r)
    ensures match Read(t, i, r)
            case None => true
            case Some((at, q)) =>
              i <= at < |t| && (q.start.Some? ==> PickedRun(t, q.start.value, at, SumOf(t[at][..11]), 0, q.buf))
    decreases |t| - i
  {
    hide ReadPass, PickedRun, LongNames.SumOf, Stops;
    if i < |t| && t[i][0] != 0 && !Stops(t[i]) {
      ReadProgressNext(t, i, r);
      ReadSound(t, i + 1, ReadPass(t[i], i, r));
    }
  }

  /** So every long name of a listing is one that the table has. */
  lemma {:induction false} ListedNames(t: seq<Entry>, i: nat, buf: Buffer, n: nat)
    requires n < |Listing(t, i, buf)|
    ensures var (at, q) := Listing(t, i, buf)[n];
            at < |t| && (q.start.Some? ==> PickedRun(t, q.start.value, at, SumOf(t[at][..11]), 0, q.buf))
    decreases n
  {
    hide Stops, ReadPass, Read, PickedRun, LongNames.SumOf;
    var r := Reading(0xFF, 0xFF, None, buf);
    ReadForward(t, i, r);
    ReadSound(t, i, r);
    if n > 0 {
      var x := Read(t, i, r).value;
      ListedNames(t, x.0 + 1, x.1.buf, n - 1);
    }
  }

  // ---- registering ----

  /** The table with an object registered in a block of free entries that starts before any end mark. */
  ghost predicate Registered(t: seq<Entry>, t': seq<Entry>, b: nat, w: seq<word>, parts: nat, sfn: Entry)
    requires parts < LLEF
  {
    && |t'| == |t| && HasBlock(t', b, w, parts, sfn)
    && t'[..b] == t[..b] && t'[b + parts + 1..] == t[b + parts + 1..]
    && (forall k :: 0 <= k < b ==> t[k][0] != 0)
    && (forall k :: b <= k <= b + parts ==> Free(t[k]))
  }

  lemma OtherEntry(t: seq<Entry>, t': seq<Entry>, b: nat, w: seq<word>, parts: nat, sfn: Entry, i: nat)
    requires parts <= 20 && Registered(t, t', b, w, parts, sfn) && i < |t|
    ensures i < b || i > b + parts ==> t'[i] == t[i]
    ensures b <= i < b + parts ==> !IsObject(t'[i]) && !Free(t'[i])
    ensures i == b + parts ==> t'[i] == sfn
  {
    hide LfnEntry, LongNames.SumOf;
    if i < b {
      assert t'[i] == t'[..b][i] == t[..b][i];
    } else if i > b + parts {
      assert t'[i] == t'[b + parts + 1..][i - (b + parts + 1)] == t[b + parts + 1..][i - (b + parts + 1)];
    } else {
      BlockEntry(t', b, w, parts, sfn, i - b);
      if i < b + parts { LfnEntryKind(w, parts - (i - b), SumOf(sfn[..11])); }
    }
  }

  /** Registering keeps the end mark last: nothing live follows it. */
  lemma RegisterEnded(t: seq<Entry>, t': seq<Entry>, b: nat, w: seq<word>, parts: nat, sfn: Entry)
    requires parts <= 20 && Registered(t, t', b, w, parts, sfn) && Ended(t) && !Free(sfn)
    ensures Ended(t')
  {
    forall i, j | 0 <= i < j < |t'| && t'[i][0] == 0
      ensures Free(t'[j])
    {
      OtherEntry(t, t', b, w, parts, sfn, i);
      OtherEntry(t, t', b, w, parts, sfn, j);
      assert i > b + parts;
    }
  }

  /** After a failed search for its short name, registering an object leaves all short names different. */
  lemma RegisterUnique(up: word -> word, key: Key, t: seq<Entry>, t': seq<Entry>, b: nat, w: seq<word>, parts: nat,
                       sfn: Entry)
    requires parts <= 20 && Registered(t, t', b, w, parts, sfn) && Unique(t) && Ended(t)
    requires Find(up, key, t, 0, NOTHING) == None && !key.loss && sfn[..11] == key.fn
    ensures Unique(t')
  {
    hide Find, HasBlock;
    forall i, j | 0 <= i < j < |t'| && IsObject(t'[i]) && IsObject(t'[j])
      ensures t'[i][..11] != t'[j][..11]
    {
      OtherEntry(t, t', b, w, parts, sfn, i);
      OtherEntry(t, t', b, w, parts, sfn, j);
      if i == b + parts { NameIsNew(up, key, t, j); }
      if j == b + parts { NameIsNew(up, key, t, i); }
    }
  }

  lemma NameIsNew(up: word -> word, key: Key, t: seq<Entry>, j: nat)
    requires Find(up, key, t, 0, NOTHING) == None && !key.loss && Ended(t) && j < |t| && IsObject(t[j])
    ensures t[j][..11] != key.fn
  {
    hide Find;
    assert forall k :: 0 <= k < j ==> t[k][0] != 0;
    NotFound(up, key, t, 0, NOTHING, j);
  }

  // ---- numbered short names ----

  /** Some object has the short name. */
  ghost predicate HasName(t: seq<Entry>, fn: seq<byte>)
  {
    exists i :: 0 <= i < |t| && IsObject(t[i]) && t[i][..11] == fn
  }

  /** The numbered form of a short name is taken. */
  ghost predicate Collides(t: seq<Entry>, src: seq<byte>, k: nat)
  {
    exists dst :: Numbered(dst, src, k) && HasName(t, dst)
  }

  /** Every form that dir_register tries is taken. */
  ghost predicate AllTaken(t: seq<Entry>, src: seq<byte>, lfn: seq<word>)
  {
    forall n :: 1 <= n < 100 ==> Collides(t, src, Number(lfn, n))
  }

  ghost function Objects(t: seq<Entry>): set<nat>
  {
    set i: nat | i < |t| && IsObject(t[i])
  }

  ghost function Owner(t: seq<Entry>, src: seq<byte>, k: nat): (i: nat)
    requires Collides(t, src, k)
    ensures i in Objects(t) && Numbered(t[i][..11], src, k)
  {
    var dst :| Numbered(dst, src, k) && HasName(t, dst);
    var i :| 0 <= i < |t| && IsObject(t[i]) && t[i][..11] == dst;
    i
  }

  /** A refusal takes at least five objects that are in the way. */
  lemma TakenByFive(t: seq<Entry>, src: seq<byte>, lfn: seq<word>)
    requires AllTaken(t, src, lfn)
    ensures |Objects(t)| >= 5
  {
    hide Numbered, IsObject, Objects;
    forall n: nat | 1 <= n <= 5
      ensures Collides(t, src, n)
    {
      assert Collides(t, src, Number(lfn, n));
    }
    forall n, m | 1 <= n < m <= 5
      ensures Owner(t, src, n) != Owner(t, src, m)
    {
      NumberedApart(t[Owner(t, src, n)][..11], t[Owner(t, src, m)][..11], src, n, m);
    }
    var five := {Owner(t, src, 1), Owner(t, src, 2), Owner(t, src, 3), Owner(t, src, 4), Owner(t, src, 5)};
    Subset(five, Objects(t));
  }

  lemma {:induction false} Subset(a: set<nat>, b: set<nat>)
    requires a <= b
    ensures |a| <= |b|
  {
    if a != {} {
      var x :| x in a;
      Subset(a - {x}, b - {x});
    }
  }

  /** A search by short name alone that stops has come to an object of that name. */
  lemma {:induction false} ShortHit(up: word -> word, key: Key, t: seq<Entry>, i: nat, s: Seen)
    requires key.noLfn && s.ord == 0xFF && Find(up, key, t, i, s).Some?
    ensures HasName(t, key.fn)
    decreases |t| - i
  {
    if !Hit(key, t[i], s) {
      ShortHit(up, key, t, i + 1, Pass(up, key, t[i], i, s));
    }
  }

  /** A numbered name that the search does not find is not among those taken. */
  lemma FreeName(up: word -> word, key: Key, t: seq<Entry>, src: seq<byte>, k: nat)
    requires Find(up, key, t, 0, NOTHING) == None && !key.loss && Ended(t) && Numbered(key.fn, src, k)
    ensures !HasName(t, key.fn) && !Collides(t, src, k)
  {
    hide Find, Numbered, Ended, IsObject;
    forall j: nat | j < |t| && IsObject(t[j])
      ensures t[j][..11] != key.fn
    {
      NameIsNew(up, key, t, j);
    }
    forall dst | Numbered(dst, src, k)
      ensures dst == key.fn
    {
      NumberedUnique(dst, key.fn, src, k);
    }
  }

  // ---- allocating ----

  /** The n entries before i are blank, and they are all the blank ones there in a row. */
  ghost predicate BlankRun(t: seq<Entry>, i: nat, n: nat)
  {
    && n <= i <= |t|
    && (forall k :: i - n <= k < i ==> Free(t[k]))
    && (i - n == 0 || !Free(t[i - n - 1]))
  }

  lemma BlankRunNext(t: seq<Entry>, i: nat, n: nat)
    requires BlankRun(t, i, n) && i < |t|
    ensures BlankRun(t, i + 1, if Free(t[i]) then n + 1 else 0)
  {
  }

  lemma BlankRunPrefix(t: seq<Entry>, u: seq<Entry>, i: nat, n: nat)
    requires BlankRun(t, i, n) && t <= u
    ensures BlankRun(u, i, n)
  {
    assert forall k :: 0 <= k < |t| ==> u[k] == t[k];
  }

  /** There are n blank entries in a row. */
  ghost predicate HasRoom(t: seq<Entry>, n: nat)
  {
    exists j :: 0 <= j && j + n <= |t| && AllFree(t, j, n)
  }

  ghost predicate AllFree(t: seq<Entry>, j: nat, n: nat)
    requires j + n <= |t|
  {
    forall k :: j <= k < j + n ==> Free(t[k])
  }

  /** No n blank entries in a row end before entry i. */
  ghost predicate NoRoomBefore(t: seq<Entry>, i: nat, n: nat)
    requires i <= |t|
  {
    forall j: nat :: j + n <= i ==> !AllFree(t, j, n)
  }

  /** The scan does not pass over room. */
  lemma NoRoomNext(t: seq<Entry>, u: seq<Entry>, i: nat, n: nat, nent: nat)
    requires i < |t| && t <= u && NoRoomBefore(t, i, nent) && BlankRun(u, i + 1, n) && n < nent
    ensures NoRoomBefore(u, i + 1, nent)
  {
    hide Free;
    forall j: nat | j + nent <= i + 1
      ensures !AllFree(u, j, nent)
    {
      if j + nent <= i {
        assert !AllFree(t, j, nent);
        assert forall k :: 0 <= k < |t| ==> u[k] == t[k];
      } else {
        assert j <= i - n < j + nent && !Free(u[i - n]);
      }
    }
  }

  lemma NoRoomAtAll(t: seq<Entry>, u: seq<Entry>, n: nat)
    requires t <= u && NoRoomBefore(u, |u|, n)
    ensures !HasRoom(u, n) && !HasRoom(t, n)
  {
    hide Free;
    assert forall k :: 0 <= k < |t| ==> u[k] == t[k];
    forall j: nat | j + n <= |t|
      ensures !AllFree(t, j, n)
    {
      assert !AllFree(u, j, n);
    }
  }

  /** Where nothing live follows the end mark, a run found from the start begins before it. */
  lemma BeforeEnd(t: seq<Entry>, i: nat, n: nat)
    requires Ended(t) && BlankRun(t, i, n)
    ensures forall k :: 0 <= k < i - n ==> t[k][0] != 0
  {
  }

  /** Blank entries at the end add no object and no name. */
  lemma BlankTail(t: seq<Entry>, u: seq<Entry>)
    requires t <= u && forall k :: |t| <= k < |u| ==> u[k][0] == 0
    ensures Ended(t) ==> Ended(u)
    ensures Unique(t) ==> Unique(u)
  {
    assert forall k :: 0 <= k < |t| ==> u[k] == t[k];
  }

  /** A search sees no difference between the end of the table and blank entries. */
  lemma {:induction false} FindBlankTail(up: word -> word, key: Key, t: seq<Entry>, u: seq<Entry>, i: nat, s: Seen)
    requires t <= u && forall k :: |t| <= k < |u| ==> u[k][0] == 0
    ensures Find(up, key, u, i, s) == Find(up, key, t, i, s)
    decreases |t| - i
  {
    hide Pass, Hit;
    if i < |t| {
      assert u[i] == t[i];
      FindBlankTail(up, key, t, u, i + 1, Pass(up, key, t[i], i, s));
    }
  }

  // ---- writing a block ----

  /** No entry outside [lo, hi) changed. */
  ghost predicate OnlyWithin(t: seq<Entry>, t': seq<Entry>, lo: nat, hi: nat)
  {
    |t'| == |t| && forall k :: 0 <= k < |t| && !(lo <= k < hi) ==> t'[k] == t[k]
  }

  lemma NothingWithin(t: seq<Entry>, lo: nat, hi: nat)
    ensures OnlyWithin(t, t, lo, hi)
  {
  }

  lemma OneMoreWithin(t: seq<Entry>, t': seq<Entry>, lo: nat, hi: nat, i: nat, e: Entry)
    requires OnlyWithin(t, t', lo, hi) && lo <= i < hi && i < |t'|
    ensures OnlyWithin(t, t'[i := e], lo, hi)
  {
  }

  lemma WithinMore(t: seq<Entry>, t': seq<Entry>, lo: nat, hi: nat, hi': nat)
    requires OnlyWithin(t, t', lo, hi) && hi <= hi'
    ensures OnlyWithin(t, t', lo, hi')
  {
  }

  /** The first i - b entries of a block are in place, and the rest of the table is as it was. */
  ghost predicate Begun(t: seq<Entry>, t': seq<Entry>, b: nat, w: seq<word>, parts: nat, sum: byte, i: nat)
  {
    && parts <= 20 && b <= i <= b + parts < |t| == |t'|
    && (forall k :: 0 <= k < |t| && !(b <= k < i) ==> t'[k] == t[k])
    && (forall k :: b <= k < i ==> t'[k] == LfnEntry(w, parts - (k - b), sum))
  }

  lemma BegunNext(t: seq<Entry>, t': seq<Entry>, b: nat, w: seq<word>, parts: nat, sum: byte, i: nat)
    requires Begun(t, t', b, w, parts, sum, i) && i < b + parts
    ensures Begun(t, t'[i := LfnEntry(w, parts - (i - b), sum)], b, w, parts, sum, i + 1)
  {
    hide LfnEntry;
  }

  lemma BegunStart(t: seq<Entry>, b: nat, w: seq<word>, parts: nat, sum: byte)
    requires parts <= 20 && b + parts < |t|
    ensures Begun(t, t, b, w, parts, sum, b)
  {
  }

  /** The block is complete with its short-name entry. */
  lemma BegunDone(t: seq<Entry>, t': seq<Entry>, b: nat, w: seq<word>, parts: nat, sfn: Entry)
    requires Begun(t, t', b, w, parts, SumOf(sfn[..11]), b + parts)
    ensures var u := t'[b + parts := sfn];
            |u| == |t| && HasBlock(u, b, w, parts, sfn) && u[..b] == t[..b] && u[b + parts + 1..] == t[b + parts + 1..]
  {
    hide LfnEntry, LongNames.SumOf;
    var u := t'[b + parts := sfn];
    assert u[b..b + parts + 1] == Block(w, parts, SumOf(sfn[..11]), sfn);
  }

  // ---- the outcome of a registration ----

  /** The object ends at entry at, in a block that was blank; room is the table with the blank entries it may have
      grown by. */
  ghost predicate Placed(t: seq<Entry>, room: seq<Entry>, t': seq<Entry>, at: nat, w: seq<word>, parts: nat, sfn: Entry)
  {
    && t <= room && (forall k :: |t| <= k < |room| ==> room[k][0] == 0)
    && BlankRun(room, at + 1, parts + 1) && BlockWritten(room, t', at, w, parts, sfn)
  }

  /** The object's entries are in their block, and the others as they were. */
  ghost predicate BlockWritten(room: seq<Entry>, t': seq<Entry>, at: nat, w: seq<word>, parts: nat, sfn: Entry)
  {
    && parts <= 20 && parts <= at
    && |t'| == |room| && HasBlock(t', at - parts, w, parts, sfn)
    && t'[..at - parts] == room[..at - parts] && t'[at + 1..] == room[at + 1..]
  }

  lemma PlacedRegistered(t: seq<Entry>, room: seq<Entry>, t': seq<Entry>, at: nat, w: seq<word>, parts: nat, sfn: Entry)
    requires Placed(t, room, t', at, w, parts, sfn) && Ended(t)
    ensures Ended(room) && Registered(room, t', at - parts, w, parts, sfn)
  {
    hide HasBlock;
    BlankTail(t, room);
    BeforeEnd(room, at + 1, parts + 1);
  }

  /**
    A registration by the bytes: the block takes entries that were deleted or behind the end mark, and no others
    change; its parts carry the long name, and its last entry the short name, the case flags and zeros.
   */
  lemma PlacedBytes(t: seq<Entry>, room: seq<Entry>, t': seq<Entry>, at: nat, w: seq<word>, parts: nat, fn: seq<byte>,
                    ntCase: byte)
    requires |fn| == 11 && fn[0] != 0 && fn[0] != 0xE5 && Placed(t, room, t', at, w, parts, SfnEntry(fn, ntCase))
    ensures parts <= at < |t'| && |t| <= |t'|
    ensures forall k :: 0 <= k < |t| && !(at - parts <= k <= at) ==> t'[k] == t[k]
    ensures forall k :: |t| <= k < |t'| && !(at - parts <= k <= at) ==> t'[k][0] == 0
    ensures forall k :: at - parts <= k <= at && k < |t| ==> t[k][0] == 0 || t[k][0] == 0xE5
    ensures t'[at][..11] == fn && t'[at][12] == ntCase
    ensures forall i :: 11 <= i < 32 && i != 12 ==> t'[at][i] == 0
    ensures IsName(w) && parts == Parts(|w|) ==> LongOnDisk(t', at - parts, w, parts)
  {
    hide HasBlock, LongNames.SumOf, SfnEntry, OnDisk;
    var sfn := SfnEntry(fn, ntCase);
    SfnEntryFacts(fn, ntCase);
    SfnEntryBytes(fn, ntCase);
    assert at < |room|;
    forall k | 0 <= k < |t'| && !(at - parts <= k <= at)
      ensures t'[k] == room[k]
    {
      Beside(room, t', at, w, parts, sfn, k);
    }
    assert forall k :: 0 <= k < |t| ==> room[k] == t[k];
    BlockEntry(t', at - parts, w, parts, sfn, parts);
    BlockOnDisk(t', at - parts, w, parts);
  }

  lemma SfnEntryBytes(fn: seq<byte>, ntCase: byte)
    requires |fn| == 11
    ensures var e := SfnEntry(fn, ntCase);
            e[..11] == fn && e[12] == ntCase && forall i :: 11 <= i < 32 && i != 12 ==> e[i] == 0
  {
  }

  /** Nothing live follows the end mark, and every live entry of the old table is still there. */
  lemma PlacedEnded(t: seq<Entry>, room: seq<Entry>, t': seq<Entry>, at: nat, w: seq<word>, parts: nat, sfn: Entry)
    requires Placed(t, room, t', at, w, parts, sfn) && Ended(t) && !Free(sfn)
    ensures Ended(t') && LiveKept(t, t')
  {
    hide HasBlock, Ended;
    PlacedRegistered(t, room, t', at, w, parts, sfn);
    RegisterEnded(room, t', at - parts, w, parts, sfn);
    forall k | 0 <= k < |t| && !Free(t[k])
      ensures k < |t'| && t'[k] == t[k]
    {
      PlacedLive(t, room, t', at, w, parts, sfn, k);
    }
  }

  lemma PlacedLive(t: seq<Entry>, room: seq<Entry>, t': seq<Entry>, at: nat, w: seq<word>, parts: nat, sfn: Entry,
                   k: nat)
    requires Placed(t, room, t', at, w, parts, sfn) && k < |t| && !Free(t[k])
    ensures k < |t'| && t'[k] == t[k]
  {
    hide HasBlock;
    assert room[k] == t[k];
    Beside(room, t', at, w, parts, sfn, k);
  }

  /** After a failed search for the short name, short names stay different. */
  lemma PlacedUnique(up: word -> word, key: Key, t: seq<Entry>, room: seq<Entry>, t': seq<Entry>,
                     at: nat, w: seq<word>, parts: nat, sfn: Entry)
    requires Placed(t, room, t', at, w, parts, sfn) && Ended(t) && Unique(t)
    requires Find(up, key, t, 0, NOTHING) == None && !key.loss && sfn[..11] == key.fn
    ensures Unique(t')
  {
    hide HasBlock, Find, Unique, Registered;
    PlacedRegistered(t, room, t', at, w, parts, sfn);
    BlankTail(t, room);
    FindBlankTail(up, key, t, room, 0, NOTHING);
    RegisterUnique(up, key, room, t', at - parts, w, parts, sfn);
  }

  /** After a failed search for the name, the next search for it stops at the object. */
  lemma PlacedFound(up: word -> word, key: Key, t: seq<Entry>, room: seq<Entry>, t': seq<Entry>,
                     at: nat, w: seq<word>, parts: nat, sfn: Entry)
    requires Placed(t, room, t', at, w, parts, sfn) && Ended(t) && IsObject(sfn) && Find(up, key, t, 0, NOTHING) == None
    requires if parts == 0 then !key.loss && sfn[..11] == key.fn
             else !key.noLfn && Holding(key.buf, w) && |w| <= 254 && parts == Parts(|w|)
    ensures Find(up, key, t', 0, NOTHING).Some? && Find(up, key, t', 0, NOTHING).value.0 == at
  {
    hide Find, Unique, HasBlock;
    PlacedRegistered(t, room, t', at, w, parts, sfn);
    FindBlankTail(up, key, t, room, 0, NOTHING);
    if parts == 0 {
      BlockEntry(t', at, w, 0, sfn, 0);
      FindRegisteredShort(up, key, room, t', at);
    } else {
      FindRegistered(up, key, room, t', at - parts, w, sfn);
    }
  }

  /** Listing the directory from its start returns what was registered, with exactly its long name up to 253 units. */
  lemma PlacedRead(t: seq<Entry>, room: seq<Entry>, t': seq<Entry>, at: nat, w: seq<word>, sfn: Entry, buf: Buffer)
    requires IsName(w) && Stops(sfn) && Ended(t) && Placed(t, room, t', at, w, Parts(|w|), sfn)
    ensures Lists(Listing(t', 0, buf), at, w)
  {
    hide HasBlock, Listing, Stops;
    var b := at - Parts(|w|);
    PlacedRegistered(t, room, t', at, w, Parts(|w|), sfn);
    assert forall k :: 0 <= k < b ==> t'[k] == t'[..b][k] == room[..b][k] == room[k];
    InTable(t', b, w, Parts(|w|), sfn);
    var n := ListingHas(t', 0, buf, b, w, sfn);
  }

  /** Where the entries of a block were blank, a search that failed before finds nothing behind it either. */
  lemma NothingBehind(up: word -> word, key: Key, room: seq<Entry>, t': seq<Entry>, b: nat, at: nat, q: Seen)
    requires b <= at < |room| == |t'| && Ended(room) && t'[at + 1..] == room[at + 1..] && q.ord == 0xFF
    requires Find(up, key, room, 0, NOTHING) == None
    requires (forall k :: 0 <= k < b ==> room[k][0] != 0) && (forall k :: b <= k <= at ==> Free(room[k]))
    ensures Find(up, key, t', at + 1, q) == None
  {
    hide Find;
    assert forall k :: at < k < |t'| ==> t'[k] == t'[at + 1..][k - at - 1] == room[k];
    if exists k :: b <= k <= at && room[k][0] == 0 {
      FindBlank(up, key, t', at + 1, q);
    } else {
      var s := Through(up, key, room, room, 0, NOTHING, b);
      var p := PastDeleted(up, key, room, b, at + 1, s);
      SameTail(up, key, room, t', at + 1, p);
      SumIgnored(up, key, t', at + 1, p, q);
    }
  }

  lemma {:induction false} SameTail(up: word -> word, key: Key, t: seq<Entry>, u: seq<Entry>, i: nat, s: Seen)
    requires |t| == |u| && forall k :: i <= k < |t| ==> u[k] == t[k]
    ensures Find(up, key, u, i, s) == Find(up, key, t, i, s)
    decreases |t| - i
  {
    hide Pass, Hit;
    if i < |t| {
      SameTail(up, key, t, u, i + 1, Pass(up, key, t[i], i, s));
    }
  }

  /**
    A name of 255 units is never found again: once it is registered under a numbered short name, the next
    search for it fails like the one before, so that it can be registered once more.
   */
  lemma PlacedLost(up: word -> word, key: Key, t: seq<Entry>, room: seq<Entry>, t': seq<Entry>,
                   at: nat, w: seq<word>, sfn: Entry)
    requires Placed(t, room, t', at, w, 20, sfn) && Ended(t) && IsObject(sfn) && Find(up, key, t, 0, NOTHING) == None
    requires !key.noLfn && key.loss && Holding(key.buf, w) && |w| == 255
    ensures Find(up, key, t', 0, NOTHING) == None
  {
    hide HasBlock, Find;
    var b := at - 20;
    PlacedRegistered(t, room, t', at, w, 20, sfn);
    FindBlankTail(up, key, t, room, 0, NOTHING);
    var s := Through(up, key, room, t', 0, NOTHING, b);
    var q := PastLongest(up, key, t', b, w, sfn, 0, s);
    BlockEntry(t', b, w, 20, sfn, 20);
    PastObject(up, key, t', at, q);
    NothingBehind(up, key, room, t', b, at, q.(start := None));
  }

  lemma PastObject(up: word -> word, key: Key, t: seq<Entry>, i: nat, s: Seen)
    requires i < |t| && IsObject(t[i]) && key.loss && s.ord == 0xFF
    ensures Find(up, key, t, i, s) == Find(up, key, t, i + 1, s.(start := None))
  {
  }

  /** The same name with a short name of its own is found by that. */
  lemma PlacedFoundShort(up: word -> word, key: Key, t: seq<Entry>, room: seq<Entry>, t': seq<Entry>,
                         at: nat, w: seq<word>, sfn: Entry)
    requires Placed(t, room, t', at, w, 20, sfn) && Ended(t) && IsObject(sfn) && Find(up, key, t, 0, NOTHING) == None
    requires !key.noLfn && !key.loss && sfn[..11] == key.fn && Holding(key.buf, w) && |w| == 255
    ensures Find(up, key, t', 0, NOTHING).Some? && Find(up, key, t', 0, NOTHING).value.0 == at
  {
    hide HasBlock;
    var b := at - 20;
    PlacedRegistered(t, room, t', at, w, 20, sfn);
    FindBlankTail(up, key, t, room, 0, NOTHING);
    var s := Through(up, key, room, t', 0, NOTHING, b);
    var q := PastLongest(up, key, t', b, w, sfn, 0, s);
    BlockEntry(t', b, w, 20, sfn, 20);
  }

  /** The name is found, and then at its entry, exactly if it has at most 254 units or a short name that fits it. */
  ghost predicate FoundAgain(up: word -> word, key: Key, t: seq<Entry>, at: nat, w: seq<word>)
  {
    var r := Find(up, key, t, 0, NOTHING);
    (r.Some? <==> |w| <= 254 || !key.loss) && (r.Some? ==> r.value.0 == at)
  }

  /** What a search for the name comes to after a failed search and the registration. */
  lemma FoundExactly(up: word -> word, key: Key, t: seq<Entry>, room: seq<Entry>, t': seq<Entry>,
                     at: nat, w: seq<word>, parts: nat, sfn: Entry)
    requires Placed(t, room, t', at, w, parts, sfn) && Ended(t) && IsObject(sfn) && Find(up, key, t, 0, NOTHING) == None
    requires !key.noLfn && Holding(key.buf, w) && (key.loss ==> parts > 0) && (parts == 0 || parts == Parts(|w|))
    requires !key.loss ==> sfn[..11] == key.fn
    ensures FoundAgain(up, key, t', at, w)
  {
    hide Find, Placed, Ended;
    if |w| <= 254 || parts == 0 {
      PlacedFound(up, key, t, room, t', at, w, parts, sfn);
    } else if key.loss {
      PlacedLost(up, key, t, room, t', at, w, sfn);
    } else {
      PlacedFoundShort(up, key, t, room, t', at, w, sfn);
    }
  }

  // ---- long names stay different ----

  /** The entries from b on are those of an object with a long name. */
  ghost predicate Named(t: seq<Entry>, b: nat, v: seq<word>, sfn: Entry)
  {
    IsName(v) && IsObject(sfn) && HasBlock(t, b, v, Parts(|v|), sfn)
  }

  /** No two long names are the same up to case, names of 255 units aside. */
  ghost predicate LongUnique(up: word -> word, t: seq<Entry>)
  {
    forall b, v, sfn, b', v', sfn' :: Named(t, b, v, sfn) && Named(t, b', v', sfn') && b != b' && |v| <= 254 ==>
      !SameName(up, v, v')
  }

  /** Every live long-name entry is followed by a live entry. */
  ghost predicate NoOrphans(t: seq<Entry>)
  {
    forall k :: 0 <= k < |t| && !Free(t[k]) && IsLfn(t[k]) ==> k + 1 < |t| && !Free(t[k + 1])
  }

  /** The entries of two objects are the same or apart. */
  lemma BlocksApart(t: seq<Entry>, b: nat, w: seq<word>, parts: nat, sfn: Entry, b': nat, v: seq<word>, sfn': Entry)
    requires IsObject(sfn) && (parts == 0 || (IsName(w) && parts == Parts(|w|))) && HasBlock(t, b, w, parts, sfn)
    requires Named(t, b', v, sfn')
    requires parts == 0 && b > 0 ==> b < |t| && !IsLfn(t[b - 1])
    ensures b' + Parts(|v|) < b || b' > b + parts || (parts > 0 && b' == b && v == w)
  {
    hide LfnEntry, HasBlock, LongNames.SumOf, Free;
    var p, e := Parts(|v|), b' + Parts(|v|);
    BlockPart(t, b', v, sfn', p);
    BlockPart(t, b', v, sfn', 1);
    InTable(t, b, w, parts, sfn);
    BlockEntry(t, b, w, parts, sfn, parts);
    if b <= e < b + parts {
      BlockPart(t, b, w, sfn, b + parts - e);
    } else if b' <= b + parts < e {
      BlockPart(t, b', v, sfn', e - b - parts);
    } else if e == b + parts && parts > 0 {
      BlockPart(t, b, w, sfn, parts);
      if b' < b { BlockPart(t, b', v, sfn', e - b); }
      if b < b' { BlockPart(t, b, w, sfn, e - b'); }
      assert b == b';
      forall ord | 1 <= ord <= p
        ensures LfnEntry(v, ord, SumOf(sfn[..11])) == LfnEntry(w, ord, SumOf(sfn[..11]))
      {
        BlockPart(t, b', v, sfn', ord);
        BlockPart(t, b, w, sfn, ord);
      }
      SameParts(v, w, SumOf(sfn[..11]));
    }
  }

  lemma Beside(room: seq<Entry>, t': seq<Entry>, at: nat, w: seq<word>, parts: nat, sfn: Entry, k: nat)
    requires BlockWritten(room, t', at, w, parts, sfn) && (k < at - parts || at < k) && k < |t'| && at < |room|
    ensures t'[k] == room[k]
  {
    hide HasBlock;
    if k < at - parts {
      assert t'[k] == t'[..at - parts][k] == room[..at - parts][k];
    } else {
      assert t'[k] == t'[at + 1..][k - at - 1] == room[at + 1..][k - at - 1];
    }
  }

  /** An object apart from a new one was there before. */
  lemma WasThere(t: seq<Entry>, room: seq<Entry>, t': seq<Entry>, at: nat, w: seq<word>, parts: nat, sfn: Entry,
                 b: nat, v: seq<word>, sfn': Entry)
    requires Placed(t, room, t', at, w, parts, sfn) && Named(t', b, v, sfn') && (b + Parts(|v|) < at - parts || b > at)
    ensures Named(t, b, v, sfn')
  {
    hide LfnEntry, Block, LongNames.SumOf;
    var p := Parts(|v|);
    BlockPart(t', b, v, sfn', p);
    forall k | b <= k <= b + p
      ensures k < |t| && t[k] == t'[k]
    {
      Beside(room, t', at, w, parts, sfn, k);
      Beside(room, t', at, w, parts, sfn, b + p);
    }
    assert t[b..b + p + 1] == t'[b..b + p + 1];
  }

  /** Registering leaves no long-name entry without what follows it. */
  lemma PlacedNoOrphans(t: seq<Entry>, room: seq<Entry>, t': seq<Entry>, at: nat, w: seq<word>, parts: nat, sfn: Entry)
    requires Placed(t, room, t', at, w, parts, sfn) && Ended(t) && NoOrphans(t) && IsObject(sfn)
    ensures NoOrphans(room) && NoOrphans(t')
  {
    hide HasBlock, LongNames.SumOf, IsLfn, Ended;
    PlacedRegistered(t, room, t', at, w, parts, sfn);
    assert forall k :: 0 <= k < |t| ==> room[k] == t[k];
    forall k | 0 <= k < |t'| && !Free(t'[k]) && IsLfn(t'[k])
      ensures k + 1 < |t'| && !Free(t'[k + 1])
    {
      OtherEntry(room, t', at - parts, w, parts, sfn, k);
      if k == at { ObjectIsNoLfn(sfn); }
      if k + 1 < |t'| { OtherEntry(room, t', at - parts, w, parts, sfn, k + 1); }
    }
  }

  lemma ObjectIsNoLfn(e: Entry)
    requires IsObject(e)
    ensures !IsLfn(e)
  {
  }

  /**
    After a failed search for the long name, registering it leaves all long names different up to case, whatever
    the case conversion is.
   */
  lemma PlacedLongUnique(up: word -> word, key: Key, t: seq<Entry>, room: seq<Entry>, t': seq<Entry>,
                         at: nat, w: seq<word>, parts: nat, sfn: Entry)
    requires Placed(t, room, t', at, w, parts, sfn) && Ended(t) && NoOrphans(t) && LongUnique(up, t) && IsObject(sfn)
    requires Find(up, key, t, 0, NOTHING) == None && !key.noLfn && Holding(key.buf, w)
    requires parts == 0 || parts == Parts(|w|)
    ensures LongUnique(up, t') && NoOrphans(t')
  {
    hide HasBlock, LongNames.SumOf, Find, NoOrphans;
    PlacedNoOrphans(t, room, t', at, w, parts, sfn);
    forall b, v, s, b', v', s' | Named(t', b, v, s) && Named(t', b', v', s') && b != b' && |v| <= 254
      ensures !SameName(up, v, v')
    {
      OldOrNew(up, key, t, room, t', at, w, parts, sfn, b, v, s);
      OldOrNew(up, key, t, room, t', at, w, parts, sfn, b', v', s');
    }
  }

  /** A name of the new table is the registered one, or an old one that differs from it. */
  lemma OldOrNew(up: word -> word, key: Key, t: seq<Entry>, room: seq<Entry>, t': seq<Entry>,
                 at: nat, w: seq<word>, parts: nat, sfn: Entry, b: nat, v: seq<word>, s: Entry)
    requires Placed(t, room, t', at, w, parts, sfn) && Ended(t) && NoOrphans(room) && IsObject(sfn)
    requires Named(t', b, v, s)
    requires Find(up, key, t, 0, NOTHING) == None && !key.noLfn && Holding(key.buf, w)
    requires parts == 0 || parts == Parts(|w|)
    ensures (b == at - parts && v == w) || (Named(t, b, v, s) && (SameName(up, w, v) ==> |w| == 255))
  {
    hide HasBlock, LongNames.SumOf, Find, IsLfn, Free;
    NoLfnBefore(room, t', at, w, parts, sfn);
    BlocksApart(t', at - parts, w, parts, sfn, b, v, s);
    if !(b == at - parts && v == w) {
      WasThere(t, room, t', at, w, parts, sfn, b, v, s);
      LiveBefore(t, b, v, s);
      FindComplete(up, key, t, w, b, v, s);
    }
  }

  lemma NoLfnBefore(room: seq<Entry>, t': seq<Entry>, at: nat, w: seq<word>, parts: nat, sfn: Entry)
    requires BlankRun(room, at + 1, parts + 1) && BlockWritten(room, t', at, w, parts, sfn) && NoOrphans(room)
    requires at < |t'|
    ensures parts == 0 && at > 0 ==> !IsLfn(t'[at - 1])
  {
    hide HasBlock, IsLfn;
    if parts == 0 && at > 0 {
      Beside(room, t', at, w, parts, sfn, at - 1);
      assert Free(room[at]) && !Free(room[at - 1]);
    }
  }

  lemma LiveBefore(t: seq<Entry>, b: nat, v: seq<word>, sfn: Entry)
    requires Ended(t) && Named(t, b, v, sfn)
    ensures b <= |t| && forall k :: 0 <= k < b ==> t[k][0] != 0
  {
    hide HasBlock, LfnEntry, LongNames.SumOf;
    BlockPart(t, b, v, sfn, Parts(|v|));
  }
}
