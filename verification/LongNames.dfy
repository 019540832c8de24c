/** Directory entries that carry a long name: thirteen UTF-16 units each, tied to a short name by its checksum. */
module LongNames {
  import opened Bytes
  import opened Crc

  const MAX_LFN := 255
  const AM_LFN := 0x0F
  const LLEF := 0x40
  const DDEM := 0xE5
  const LDIR_ATTR := 11
  const LDIR_CHKSUM := 13
  const LDIR_FSTCLUSLO := 26

  type Entry = e: seq<byte> | |e| == SZDIRE witness seq(SZDIRE, i => 0)

  /** The working buffer: one unit more than the longest name. */
  type Buffer = b: seq<word> | |b| == MAX_LFN + 1 witness seq(MAX_LFN + 1, i => 0)

  /** Where in an entry the s-th unit lies. */
  function LfnOfs(s: nat): nat
    requires s < 13
  {
    if s < 5 then 1 + 2 * s else if s < 11 then 4 + 2 * s else 6 + 2 * s
  }

  function CharAt(e: Entry, s: nat): word
    requires s < 13
  {
    LdWord(e, LfnOfs(s))
  }

  predicate Last(e: Entry) { e[0] / LLEF % 2 == 1 }

  /** The order number without the flag of the last part. */
  function Order(e: Entry): byte
  {
    if Last(e) then e[0] - LLEF else e[0]
  }

  // ---- writing ----

  /** A long name: units other than the terminator and the filler. */
  predicate IsName(w: seq<word>)
  {
    1 <= |w| <= MAX_LFN && forall k :: 0 <= k < |w| ==> w[k] != 0 && w[k] != 0xFFFF
  }

  /** The buffer holds a name and its terminator. */
  ghost predicate Holding(buf: Buffer, w: seq<word>)
  {
    IsName(w) && buf[..|w|] == w && buf[|w|] == 0
  }

  /** Number of entries a name takes. */
  function Parts(n: nat): nat { (n + 12) / 13 }

  /** The s-th unit of a part: of the name, the terminator, or filler. */
  function PartChar(w: seq<word>, ord: nat, s: nat): word
    requires ord >= 1
  {
    var i := (ord - 1) * 13 + s;
    if i < |w| then w[i] else if i == |w| then 0 else 0xFFFF
  }

  /** Which unit byte k of an entry belongs to. */
  function Slot(k: nat): (s: nat)
    requires 1 <= k < 11 || 14 <= k < 26 || 28 <= k < 32
    ensures s < 13 && (k == LfnOfs(s) || k == LfnOfs(s) + 1)
  {
    if k < 11 then (k - 1) / 2 else if k < 26 then (k - 4) / 2 else (k - 6) / 2
  }

  function LfnByte(w: seq<word>, ord: nat, sum: byte, k: nat): byte
    requires 1 <= ord < LLEF && k < SZDIRE
  {
    if k == 0 then if |w| <= 13 * ord then ord + LLEF else ord
    else if k == LDIR_ATTR then AM_LFN
    else if k == LDIR_CHKSUM then sum
    else if k == 12 || k == 26 || k == 27 then 0
    else
      var wc := PartChar(w, ord, Slot(k));
      if k == LfnOfs(Slot(k)) then wc % 0x100 else wc / 0x100
  }

  /** The entry of part ord of a name. */
  function LfnEntry(w: seq<word>, ord: nat, sum: byte): Entry
    requires 1 <= ord < LLEF
  {
    seq(SZDIRE, k requires 0 <= k < SZDIRE => LfnByte(w, ord, sum, k))
  }

  /** Byte k of an entry is in place once the first s units are stored. */
  predicate Covered(k: nat, s: nat)
    requires 0 < k < SZDIRE
  {
    1 <= k < 11 || 14 <= k < 26 || 28 <= k < 32 ==> Slot(k) < s
  }

  /** Outside the entry nothing changed, and inside it the covered bytes are in place. */
  ghost predicate Partly(was: seq<byte>, d: seq<byte>, ofs: nat, w: seq<word>, ord: nat, sum: byte, s: nat)
    requires ofs + SZDIRE <= |was| && 1 <= ord < LLEF
  {
    && |d| == |was| && d[..ofs] == was[..ofs] && d[ofs + SZDIRE..] == was[ofs + SZDIRE..]
    && forall k :: 0 < k < SZDIRE && Covered(k, s) ==> d[ofs + k] == LfnByte(w, ord, sum, k)
  }

  lemma PartlyNext(was: seq<byte>, d: seq<byte>, ofs: nat, w: seq<word>, ord: nat, sum: byte, s: nat)
    requires ofs + SZDIRE <= |was| && 1 <= ord < LLEF && s < 13 && Partly(was, d, ofs, w, ord, sum, s)
    ensures var wc := PartChar(w, ord, s);
            Partly(was, d[ofs + LfnOfs(s) := wc % 0x100][ofs + LfnOfs(s) + 1 := wc / 0x100], ofs, w, ord, sum, s + 1)
  {
    hide PartChar;
    var wc := PartChar(w, ord, s);
    var o := ofs + LfnOfs(s);
    var d' := d[o := wc % 0x100][o + 1 := wc / 0x100];
    assert d'[..ofs] == d[..ofs] && d'[ofs + SZDIRE..] == d[ofs + SZDIRE..];
    forall k | 0 < k < SZDIRE && Covered(k, s + 1)
      ensures d'[ofs + k] == LfnByte(w, ord, sum, k)
    {
      if k == LfnOfs(s) || k == LfnOfs(s) + 1 {
        assert Slot(k) == s;
      } else {
        assert Covered(k, s);
      }
    }
  }

  lemma PartlyDone(was: seq<byte>, d: seq<byte>, ofs: nat, w: seq<word>, ord: nat, sum: byte)
    requires ofs + SZDIRE <= |was| && 1 <= ord < LLEF && Partly(was, d, ofs, w, ord, sum, 13)
    ensures d[ofs := LfnByte(w, ord, sum, 0)] == was[..ofs] + LfnEntry(w, ord, sum) + was[ofs + SZDIRE..]
  {
    hide LfnByte;
    var e := d[ofs := LfnByte(w, ord, sum, 0)];
    assert forall k :: 0 < k < SZDIRE ==> Covered(k, 13);
    assert e[ofs..ofs + SZDIRE] == LfnEntry(w, ord, sum);
    assert e == e[..ofs] + e[ofs..ofs + SZDIRE] + e[ofs + SZDIRE..];
    assert e[..ofs] == d[..ofs] && e[ofs + SZDIRE..] == d[ofs + SZDIRE..];
  }

  lemma PartlyStart(was: seq<byte>, d: seq<byte>, ofs: nat, w: seq<word>, ord: nat, sum: byte)
    requires ofs + SZDIRE <= |was| && 1 <= ord < LLEF
    requires d == was[ofs + 13 := sum][ofs + 11 := AM_LFN][ofs + 12 := 0][ofs + 26 := 0][ofs + 27 := 0]
    ensures Partly(was, d, ofs, w, ord, sum, 0)
  {
  }

  lemma LastFlag(w: seq<word>, ord: nat, sum: byte)
    requires 1 <= ord < LLEF
    ensures LfnByte(w, ord, sum, 0) == if |w| <= 13 * ord then ord + LLEF else ord
  {
  }

  /** put_lfn: fills the entry at ofs with part ord of the name in the buffer. */
  method PutLfn(lfn: Buffer, ghost w: seq<word>, dir: array<byte>, ofs: nat, ord: byte, sum: byte)
    requires ofs + SZDIRE <= dir.Length
    requires Holding(lfn, w) && 1 <= ord <= Parts(|w|)
    modifies dir
    ensures dir[..] == old(dir[..ofs]) + LfnEntry(w, ord, sum) + old(dir[ofs + SZDIRE..])
  {
    hide LfnEntry, LfnByte, Slot, Covered, Partly, LfnOfs;
    ghost var was := dir[..];
    dir[ofs + LDIR_CHKSUM] := sum;
    dir[ofs + LDIR_ATTR] := AM_LFN;
    dir[ofs + 12] := 0;
    dir[ofs + LDIR_FSTCLUSLO] := 0;
    dir[ofs + LDIR_FSTCLUSLO + 1] := 0;
    PartlyStart(was, dir[..], ofs, w, ord, sum);
    var i, s: nat, wc: word := (ord - 1) * 13, 0, 0;
    ghost var base := i;
    while s < 13
      invariant s <= 13
      invariant if base + s <= |w| then wc != 0xFFFF && i == base + s else wc == 0xFFFF && i == |w| + 1
      invariant Partly(was, dir[..], ofs, w, ord, sum, s)
    {
      if wc != 0xFFFF {
        wc := lfn[i];
        i := i + 1;
      }
      PartlyNext(was, dir[..], ofs, w, ord, sum, s);
      SlotInside(s);
      dir[ofs + LfnOfs(s)] := wc % 0x100;
      dir[ofs + LfnOfs(s) + 1] := wc / 0x100;
      if wc == 0 {
        wc := 0xFFFF;
      }
      s := s + 1;
    }
    PartlyDone(was, dir[..], ofs, w, ord, sum);
    LastFlag(w, ord, sum);
    dir[ofs] := if wc == 0xFFFF || lfn[i] == 0 then ord + LLEF else ord;
  }

  lemma SlotInside(s: nat)
    requires s < 13
    ensures 0 < LfnOfs(s) < SZDIRE - 1
  {
  }

  /** What the entry of a part says when it is read. */
  lemma EntryFacts(w: seq<word>, ord: nat, sum: byte)
    requires 1 <= ord < LLEF
    ensures var e := LfnEntry(w, ord, sum);
            && Order(e) == ord && (Last(e) <==> |w| <= 13 * ord)
            && e[LDIR_ATTR] == AM_LFN && e[LDIR_CHKSUM] == sum && LdWord(e, LDIR_FSTCLUSLO) == 0
            && (e[0] == ord || e[0] == ord + LLEF)
  {
    assert (ord + LLEF) / LLEF == 1;
  }

  lemma EntryChar(w: seq<word>, ord: nat, sum: byte, s: nat)
    requires 1 <= ord < LLEF && s < 13
    ensures CharAt(LfnEntry(w, ord, sum), s) == PartChar(w, ord, s)
  {
    hide PartChar;
    assert Slot(LfnOfs(s)) == s && Slot(LfnOfs(s) + 1) == s;
  }

  /** Where the thirteen units of an entry begin: five from byte 1 on, six from byte 14 on, two from byte 28 on. */
  const UNIT_BYTES: seq<nat> := [1, 3, 5, 7, 9, 14, 16, 18, 20, 22, 24, 28, 30]

  /** The bytes of part ord of a long name, as the long-name format lays them down. */
  ghost predicate OnDisk(e: Entry, w: seq<word>, ord: nat, sum: byte)
    requires ord >= 1
  {
    && e[0] == (if |w| <= 13 * ord then 0x40 + ord else ord)
    && e[11] == 0x0F && e[12] == 0 && e[13] == sum && e[26] == 0 && e[27] == 0
    && forall s :: 0 <= s < 13 ==>
         var k := 13 * (ord - 1) + s;
         e[UNIT_BYTES[s]] as int + 0x100 * e[UNIT_BYTES[s] + 1] as int
           == if k < |w| then w[k] as int else if k == |w| then 0 else 0xFFFF
  }

  /** What put_lfn writes has exactly those bytes. */
  lemma LfnOnDisk(e: Entry, w: seq<word>, ord: nat, sum: byte)
    requires 1 <= ord < 0x40
    ensures OnDisk(e, w, ord, sum) <==> e == LfnEntry(w, ord, sum)
  {
    hide LfnEntry;
    var f := LfnEntry(w, ord, sum);
    EntryOnDisk(w, ord, sum);
    if OnDisk(e, w, ord, sum) {
      forall k | 0 <= k < SZDIRE
        ensures e[k] == f[k]
      {
        SameByteOnDisk(e, f, w, ord, sum, k);
      }
    }
  }

  lemma EntryOnDisk(w: seq<word>, ord: nat, sum: byte)
    requires 1 <= ord < 0x40
    ensures OnDisk(LfnEntry(w, ord, sum), w, ord, sum)
  {
    hide LfnEntry;
    var e := LfnEntry(w, ord, sum);
    EntryFixed(w, ord, sum);
    forall s | 0 <= s < 13
      ensures e[UNIT_BYTES[s]] as int + 0x100 * e[UNIT_BYTES[s] + 1] as int == PartChar(w, ord, s) as int
    {
      EntryChar(w, ord, sum, s);
      assert UNIT_BYTES[s] == LfnOfs(s);
    }
  }

  lemma EntryFixed(w: seq<word>, ord: nat, sum: byte)
    requires 1 <= ord < 0x40
    ensures var e := LfnEntry(w, ord, sum);
            && e[0] == (if |w| <= 13 * ord then 0x40 + ord else ord)
            && e[11] == 0x0F && e[12] == 0 && e[13] == sum && e[26] == 0 && e[27] == 0
  {
  }

  lemma SameByteOnDisk(e: Entry, f: Entry, w: seq<word>, ord: nat, sum: byte, k: nat)
    requires ord >= 1 && OnDisk(e, w, ord, sum) && OnDisk(f, w, ord, sum) && k < SZDIRE
    ensures e[k] == f[k]
  {
    if 1 <= k < 11 || 14 <= k < 26 || 28 <= k < 32 {
      var s := Slot(k);
      assert UNIT_BYTES[s] == LfnOfs(s);
      var x, y := e[LfnOfs(s)] as int + 0x100 * e[LfnOfs(s) + 1] as int, f[LfnOfs(s)] as int
        + 0x100 * f[LfnOfs(s) + 1] as int;
      assert x == y;
    }
  }

  // ---- reading ----

  datatype Picked = Picked(ok: bool, buf: Buffer, next: nat)

  /** The units of an entry from the s-th on go into the buffer from index i on; filler follows the terminator. */
  function PickFrom(buf: Buffer, e: Entry, i: nat, s: nat, ended: bool): Picked
    requires s <= 13
    decreases 13 - s
  {
    if s == 13 then Picked(true, buf, i)
    else if ended then
      if CharAt(e, s) != 0xFFFF then Picked(false, buf, i) else PickFrom(buf, e, i, s + 1, true)
    else if i >= MAX_LFN then Picked(false, buf, i)
    else PickFrom(buf[i := CharAt(e, s)], e, i + 1, s + 1, CharAt(e, s) == 0)
  }

  /** pick_lfn: whether the entry is valid, and the buffer with its part stored. Order 0 gives an index out of range. */
  function Pick(buf: Buffer, e: Entry): Picked
  {
    if LdWord(e, LDIR_FSTCLUSLO) != 0 || Order(e) == 0 then Picked(false, buf, 0)
    else
      var r := PickFrom(buf, e, (Order(e) - 1) * 13, 0, false);
      if !r.ok || !Last(e) then r
      else if r.next >= MAX_LFN then r.(ok := false)
      else r.(buf := r.buf[r.next := 0])
  }

  method PickLfn(lfnbuf: array<word>, e: Entry) returns (ok: bool)
    requires lfnbuf.Length == MAX_LFN + 1
    modifies lfnbuf
    ensures ok == Pick(old(lfnbuf[..]), e).ok
    ensures lfnbuf[..] == Pick(old(lfnbuf[..]), e).buf
  {
    if LdWord(e, LDIR_FSTCLUSLO) != 0 || Order(e) == 0 {
      return false;
    }
    var i, wc: word, s: nat := (Order(e) - 1) * 13, 1, 0;
    ghost var all := PickFrom(lfnbuf[..], e, i, 0, false);
    while s < 13
      invariant s <= 13 && 0 <= i
      invariant PickFrom(lfnbuf[..], e, i, s, wc == 0) == all
    {
      var uc := CharAt(e, s);
      if wc != 0 {
        if i >= MAX_LFN {
          return false;
        }
        ghost var was := lfnbuf[..];
        lfnbuf[i] := uc;
        assert lfnbuf[..] == was[i := uc];
        wc := uc;
        i := i + 1;
      } else if uc != 0xFFFF {
        return false;
      }
      s := s + 1;
    }
    if Last(e) {
      if i >= MAX_LFN {
        return false;
      }
      lfnbuf[i] := 0;
    }
    return true;
  }

  /** What the first s units of a part leave in the buffer. */
  ghost predicate PickedTo(buf: Buffer, b: Buffer, w: seq<word>, base: nat, s: nat)
  {
    && (forall k :: 0 <= k < |b| && (k < base || k >= base + s) ==> b[k] == buf[k])
    && (forall k :: base <= k < base + s && k < |w| && k < |b| ==> b[k] == w[k])
    && (base <= |w| < base + s && |w| < |b| ==> b[|w|] == 0)
    && (forall k :: |w| < k < |b| && base <= |w| ==> b[k] == buf[k])
  }

  /** The result of picking a whole part, as far as PickFrom goes. */
  ghost predicate PickedPart(buf: Buffer, r: Picked, w: seq<word>, base: nat)
  {
    r.ok && PickedTo(buf, r.buf, w, base, 13) && r.next == if base + 13 <= |w| then base + 13 else |w| + 1
  }

  lemma {:induction false} PickSteps(buf: Buffer, b: Buffer, w: seq<word>, ord: nat, e: Entry, s: nat, i: nat)
    requires IsName(w) && |w| <= 253 && ord >= 1 && (ord - 1) * 13 < |w| && s <= 13
    requires forall k :: 0 <= k < 13 ==> CharAt(e, k) == PartChar(w, ord, k)
    requires PickedTo(buf, b, w, (ord - 1) * 13, s)
    requires i == if (ord - 1) * 13 + s <= |w| then (ord - 1) * 13 + s else |w| + 1
    ensures PickedPart(buf, PickFrom(b, e, i, s, (ord - 1) * 13 + s > |w|), w, (ord - 1) * 13)
    decreases 13 - s
  {
    hide CharAt;
    if s < 13 {
      assert CharAt(e, s) == PartChar(w, ord, s);
      if (ord - 1) * 13 + s <= |w| {
        PickSteps(buf, b[i := PartChar(w, ord, s)], w, ord, e, s + 1, i + 1);
      } else {
        PickSteps(buf, b, w, ord, e, s + 1, i);
      }
    }
  }

  /** The buffer holds the name from a unit on, with its terminator. */
  ghost predicate HoldsFrom(b: Buffer, w: seq<word>, from: nat)
  {
    |w| < |b| && b[|w|] == 0 && forall k :: from <= k < |w| ==> b[k] == w[k]
  }

  /** Picking a part adds its units; picking the last part also ends the name. */
  lemma PickPart(buf: Buffer, w: seq<word>, ord: nat, sum: byte)
    requires IsName(w) && |w| <= 253 && 1 <= ord <= Parts(|w|)
    requires ord < Parts(|w|) ==> HoldsFrom(buf, w, ord * 13)
    ensures var r := Pick(buf, LfnEntry(w, ord, sum)); r.ok && HoldsFrom(r.buf, w, (ord - 1) * 13)
  {
    hide LfnEntry, PickFrom, LdWord, Last, Order, CharAt, PartChar;
    EntryFacts(w, ord, sum);
    EntryChars(w, ord, sum);
    PickSteps(buf, buf, w, ord, LfnEntry(w, ord, sum), 0, (ord - 1) * 13);
  }

  lemma {:induction false} PickOverflow(b: Buffer, w: seq<word>, ord: nat, e: Entry, s: nat, i: nat)
    requires IsName(w) && |w| >= 254 && ord == Parts(|w|) && s <= 13
    requires forall k :: 0 <= k < 13 ==> CharAt(e, k) == PartChar(w, ord, k)
    requires i == if (ord - 1) * 13 + s <= |w| then (ord - 1) * 13 + s else |w| + 1
    ensures var r := PickFrom(b, e, i, s, (ord - 1) * 13 + s > |w|); r.ok ==> r.next >= MAX_LFN
    decreases 13 - s
  {
    hide CharAt;
    if s < 13 {
      assert CharAt(e, s) == PartChar(w, ord, s);
      if (ord - 1) * 13 + s > |w| {
        PickOverflow(b, w, ord, e, s + 1, i);
      } else if i < MAX_LFN {
        PickOverflow(b[i := PartChar(w, ord, s)], w, ord, e, s + 1, i + 1);
      }
    }
  }

  /** Names of 254 and 255 units can be written but are refused when read back. */
  lemma TooLongToPick(buf: Buffer, w: seq<word>, sum: byte)
    requires IsName(w) && |w| >= 254
    ensures !Pick(buf, LfnEntry(w, Parts(|w|), sum)).ok
  {
    hide LfnEntry, PickFrom, LdWord, Last, Order, CharAt, PartChar;
    var ord := Parts(|w|);
    EntryFacts(w, ord, sum);
    EntryChars(w, ord, sum);
    PickOverflow(buf, w, ord, LfnEntry(w, ord, sum), 0, (ord - 1) * 13);
  }

  /**
    What an entry that was picked has put into the buffer: its units up to the terminator, each at its place; behind
    the terminator the entry has filler only, and a last part without one ends the name.
   */
  ghost predicate PutInto(e: Entry, buf: Buffer)
  {
    && Order(e) >= 1
    && (forall s :: 0 <= s < 13 && NoZeroBefore(e, s) ==>
          13 * (Order(e) - 1) + s < MAX_LFN && buf[13 * (Order(e) - 1) + s] == CharAt(e, s))
    && (forall s :: 0 <= s < 13 && !NoZeroBefore(e, s) ==> CharAt(e, s) == 0xFFFF)
    && (Last(e) && NoZeroBefore(e, 13) ==> 13 * Order(e) < MAX_LFN && buf[13 * Order(e)] == 0)
  }

  /** None of the first s units of an entry is the terminator. */
  ghost predicate NoZeroBefore(e: Entry, s: nat)
    requires s <= 13
  {
    forall r :: 0 <= r < s ==> CharAt(e, r) != 0
  }

  /** The units from the s-th on go to their places, and no other place of the buffer changes. */
  lemma {:induction false} PickedUnits(b: Buffer, e: Entry, base: nat, s: nat, ended: bool, i: nat, j: nat)
    requires s <= 13 && (ended <==> !NoZeroBefore(e, s)) && (!ended ==> i == base + s) && PickFrom(b, e, i, s, ended).ok
    ensures var r := PickFrom(b, e, i, s, ended);
            && (j < |b| && !(base + s <= j < base + 13) ==> r.buf[j] == b[j])
            && (s <= j < 13 && NoZeroBefore(e, j) ==> base + j < MAX_LFN && r.buf[base + j] == CharAt(e, j))
            && (s <= j < 13 && !NoZeroBefore(e, j) ==> CharAt(e, j) == 0xFFFF)
            && (NoZeroBefore(e, 13) ==> r.next == base + 13)
            && (!ended ==> base + s <= r.next <= base + 13)
            && (ended ==> r.next == i)
    decreases 13 - s
  {
    hide CharAt;
    if s < 13 {
      assert NoZeroBefore(e, s + 1) <==> NoZeroBefore(e, s) && CharAt(e, s) != 0;
      if ended {
        PickedUnits(b, e, base, s + 1, true, i, j);
      } else {
        var c := b[i := CharAt(e, s)];
        PickedUnits(c, e, base, s + 1, CharAt(e, s) == 0, i + 1, j);
        PickedUnits(c, e, base, s + 1, CharAt(e, s) == 0, i + 1, i);
      }
    }
  }

  /** An entry that is picked is put into the buffer, and its place, with what ends the name, is all that changes. */
  lemma PickPuts(b: Buffer, e: Entry)
    requires Pick(b, e).ok
    ensures PutInto(e, Pick(b, e).buf) && LdWord(e, LDIR_FSTCLUSLO) == 0
    ensures forall j :: 0 <= j < |b| && (j < 13 * (Order(e) - 1) || j > 13 * Order(e)) ==> Pick(b, e).buf[j] == b[j]
    ensures !Last(e) ==> forall j :: 13 * Order(e) <= j < |b| ==> Pick(b, e).buf[j] == b[j]
  {
    hide CharAt, PickFrom, LdWord, NoZeroBefore;
    var base := (Order(e) - 1) * 13;
    var r, q := PickFrom(b, e, base, 0, false), Pick(b, e).buf;
    assert q == if Last(e) then r.buf[r.next := 0] else r.buf;
    PickedNext(b, e, base);
    PickedPlaces(b, e, base, 0);
    forall s | 0 <= s < 13
      ensures NoZeroBefore(e, s) ==> 13 * (Order(e) - 1) + s < MAX_LFN && q[13 * (Order(e) - 1) + s] == CharAt(e, s)
      ensures !NoZeroBefore(e, s) ==> CharAt(e, s) == 0xFFFF
    {
      PickedPlaces(b, e, base, s);
    }
    forall j | 0 <= j < |b| && !(base <= j < base + 13)
      ensures r.buf[j] == b[j]
    {
      PickedPlaces(b, e, base, j);
    }
  }

  lemma PickedPlaces(b: Buffer, e: Entry, base: nat, j: nat)
    requires PickFrom(b, e, base, 0, false).ok
    ensures var r := PickFrom(b, e, base, 0, false);
            && (j < |b| && !(base <= j < base + 13) ==> r.buf[j] == b[j])
            && (j < 13 && NoZeroBefore(e, j) ==> base + j < MAX_LFN && r.buf[base + j] == CharAt(e, j))
            && (j < 13 && !NoZeroBefore(e, j) ==> CharAt(e, j) == 0xFFFF)
            && (NoZeroBefore(e, 13) ==> r.next == base + 13) && base <= r.next <= base + 13
  {
    hide CharAt, PickFrom;
    assert NoZeroBefore(e, 0);
    PickedUnits(b, e, base, 0, false, base, j);
  }

  /** What ends the name is behind its last unit. */
  lemma {:induction false} PickedNext(b: Buffer, e: Entry, base: nat)
    requires PickFrom(b, e, base, 0, false).ok
    ensures var r := PickFrom(b, e, base, 0, false);
            forall s :: 0 <= s < 13 && NoZeroBefore(e, s) ==> base + s < r.next
  {
    hide CharAt, PickFrom;
    forall s | 0 <= s < 13 && NoZeroBefore(e, s)
      ensures base + s < PickFrom(b, e, base, 0, false).next
    {
      PickedPast(b, e, base, 0, base, s);
    }
  }

  lemma {:induction false} PickedPast(b: Buffer, e: Entry, base: nat, s: nat, i: nat, j: nat)
    requires s <= j < 13 && i == base + s && NoZeroBefore(e, j) && PickFrom(b, e, i, s, false).ok
    ensures base + j < PickFrom(b, e, i, s, false).next
    decreases 13 - s
  {
    hide CharAt;
    if s < j {
      PickedPast(b[i := CharAt(e, s)], e, base, s + 1, i + 1, j);
    } else {
      NextGrows(b[i := CharAt(e, s)], e, i + 1, s + 1, CharAt(e, s) == 0);
    }
  }

  lemma {:induction false} NextGrows(b: Buffer, e: Entry, i: nat, s: nat, ended: bool)
    requires s <= 13
    ensures PickFrom(b, e, i, s, ended).next >= i
    decreases 13 - s
  {
    hide CharAt;
    if s < 13 {
      if ended {
        if CharAt(e, s) == 0xFFFF { NextGrows(b, e, i, s + 1, true); }
      } else if i < MAX_LFN {
        NextGrows(b[i := CharAt(e, s)], e, i + 1, s + 1, CharAt(e, s) == 0);
      }
    }
  }

  // ---- comparing ----

  /** The units of an entry from the s-th on match the buffer from index i on, up to case; the result is the index
      after them. */
  function CmpFrom(up: word -> word, buf: Buffer, e: Entry, i: nat, s: nat, ended: bool): Option<(nat, bool)>
    requires s <= 13
    decreases 13 - s
  {
    if s == 13 then Some((i, ended))
    else if ended then
      if CharAt(e, s) != 0xFFFF then None else CmpFrom(up, buf, e, i, s + 1, true)
    else if i >= MAX_LFN || up(CharAt(e, s)) != up(buf[i]) then None
    else CmpFrom(up, buf, e, i + 1, s + 1, CharAt(e, s) == 0)
  }

  /** cmp_lfn, with the upper-case conversion of the code page as a parameter. */
  predicate Cmp(up: word -> word, buf: Buffer, e: Entry)
  {
    && LdWord(e, LDIR_FSTCLUSLO) == 0
    && e[0] % LLEF != 0
    && match CmpFrom(up, buf, e, (e[0] % LLEF - 1) * 13, 0, false)
       case None => false
       case Some((i, ended)) => !(Last(e) && !ended && (i <= MAX_LFN ==> buf[i] != 0))
  }

  method CmpLfn(up: word -> word, lfnbuf: array<word>, e: Entry) returns (r: bool)
    requires lfnbuf.Length == MAX_LFN + 1
    ensures r <==> Cmp(up, lfnbuf[..], e)
  {
    if LdWord(e, LDIR_FSTCLUSLO) != 0 || e[0] % LLEF == 0 {
      return false;
    }
    var i, wc: word, s: nat := (e[0] % LLEF - 1) * 13, 1, 0;
    ghost var all := CmpFrom(up, lfnbuf[..], e, i, 0, false);
    while s < 13
      invariant s <= 13 && 0 <= i && (if s == 0 then wc != 0 else i <= MAX_LFN)
      invariant CmpFrom(up, lfnbuf[..], e, i, s, wc == 0) == all
    {
      var uc := CharAt(e, s);
      if wc != 0 {
        if i >= MAX_LFN || up(uc) != up(lfnbuf[i]) {
          return false;
        }
        wc := uc;
        i := i + 1;
      } else if uc != 0xFFFF {
        return false;
      }
      s := s + 1;
    }
    return !(Last(e) && wc != 0 && lfnbuf[i] != 0);
  }

  /** Two names are the same up to case. */
  ghost predicate SameName(up: word -> word, w: seq<word>, v: seq<word>)
  {
    |v| == |w| && forall k :: 0 <= k < |w| ==> up(v[k]) == up(w[k])
  }

  lemma {:induction false} CmpSteps(up: word -> word, buf: Buffer, w: seq<word>, v: seq<word>, ord: nat, e: Entry,
                                    s: nat, i: nat)
    requires Holding(buf, w) && IsName(v) && SameName(up, w, v) && ord >= 1 && (ord - 1) * 13 < |w| && s <= 13
    requires |w| <= 254 || ord * 13 <= |w|
    requires forall k :: 0 <= k < 13 ==> CharAt(e, k) == PartChar(v, ord, k)
    requires i == if (ord - 1) * 13 + s <= |w| then (ord - 1) * 13 + s else |w| + 1
    ensures var r := CmpFrom(up, buf, e, i, s, (ord - 1) * 13 + s > |w|);
            r == Some((if (ord - 1) * 13 + 13 <= |w| then (ord - 1) * 13 + 13 else |w| + 1, (ord - 1) * 13 + 13 > |w|))
    decreases 13 - s
  {
    hide CharAt;
    if s < 13 {
      assert CharAt(e, s) == PartChar(v, ord, s);
      assert i < |w| ==> buf[i] == w[i];
      CmpSteps(up, buf, w, v, ord, e, s + 1, if (ord - 1) * 13 + s <= |w| then i + 1 else i);
    }
  }

  /** The twentieth part of a name of 255 units asks for a unit past the buffer limit, the terminator. */
  lemma {:induction false} CmpOverflow(up: word -> word, buf: Buffer, w: seq<word>, e: Entry, s: nat)
    requires Holding(buf, w) && |w| == 255 && s <= 8
    requires forall k :: 0 <= k < 13 ==> CharAt(e, k) == PartChar(w, 20, k)
    ensures CmpFrom(up, buf, e, 247 + s, s, false) == None
    decreases 8 - s
  {
    hide CharAt;
    assert CharAt(e, s) == PartChar(w, 20, s);
    if s < 8 {
      CmpOverflow(up, buf, w, e, s + 1);
    }
  }

  lemma EntryChars(w: seq<word>, ord: nat, sum: byte)
    requires 1 <= ord < LLEF
    ensures forall k :: 0 <= k < 13 ==> CharAt(LfnEntry(w, ord, sum), k) == PartChar(w, ord, k)
  {
    hide CharAt, LfnEntry, PartChar;
    forall k | 0 <= k < 13
      ensures CharAt(LfnEntry(w, ord, sum), k) == PartChar(w, ord, k)
    {
      EntryChar(w, ord, sum, k);
    }
  }

  lemma SameUnit(v: seq<word>, w: seq<word>, sum: byte, k: nat)
    requires IsName(v) && IsName(w) && k / 13 < Parts(|v|)
    requires LfnEntry(v, k / 13 + 1, sum) == LfnEntry(w, k / 13 + 1, sum)
    ensures k < |v| && k < |w| ==> v[k] == w[k]
    ensures k == |v| ==> k >= |w|
    ensures k == |w| ==> k >= |v|
  {
    hide LfnEntry, CharAt;
    EntryChar(v, k / 13 + 1, sum, k % 13);
    EntryChar(w, k / 13 + 1, sum, k % 13);
  }

  /** Names with the same entries are the same. */
  lemma SameParts(v: seq<word>, w: seq<word>, sum: byte)
    requires IsName(v) && IsName(w) && Parts(|v|) == Parts(|w|)
    requires forall ord :: 1 <= ord <= Parts(|v|) ==> LfnEntry(v, ord, sum) == LfnEntry(w, ord, sum)
    ensures v == w
  {
    hide LfnEntry;
    var n := if |v| < |w| then |v| else |w|;
    if |v| != |w| { SameUnit(v, w, sum, n); }
    forall k | 0 <= k < n
      ensures v[k] == w[k]
    {
      SameUnit(v, w, sum, k);
    }
  }

  /** A name matches each entry of a name that is the same up to case, whatever the case conversion is. */
  lemma CmpSame(up: word -> word, buf: Buffer, w: seq<word>, v: seq<word>, ord: nat, sum: byte)
    requires Holding(buf, w) && IsName(v) && SameName(up, w, v) && 1 <= ord <= Parts(|w|)
    requires |w| <= 254 || ord < Parts(|w|)
    ensures Cmp(up, buf, LfnEntry(v, ord, sum))
  {
    hide LfnEntry, CmpFrom, LdWord, CharAt, PartChar;
    EntryFacts(v, ord, sum);
    EntryChars(v, ord, sum);
    assert (ord + LLEF) % LLEF == ord;
    CmpSteps(up, buf, w, v, ord, LfnEntry(v, ord, sum), 0, (ord - 1) * 13);
  }

  /** A name matches each of its own entries, except the last part of a name of 255 units. */
  lemma CmpPart(up: word -> word, buf: Buffer, w: seq<word>, ord: nat, sum: byte)
    requires Holding(buf, w) && 1 <= ord <= Parts(|w|)
    ensures Cmp(up, buf, LfnEntry(w, ord, sum)) <==> |w| <= 254 || ord < Parts(|w|)
  {
    hide LfnEntry, CmpFrom, LdWord, CharAt, PartChar;
    if |w| <= 254 || ord < Parts(|w|) {
      CmpSame(up, buf, w, w, ord, sum);
    } else {
      EntryFacts(w, ord, sum);
      EntryChars(w, ord, sum);
      CmpOverflow(up, buf, w, LfnEntry(w, ord, sum), 0);
    }
  }

  /** What a match says of the j-th unit of a part, its terminator included. */
  lemma {:induction false} CmpUnit(up: word -> word, buf: Buffer, v: seq<word>, ord: nat, e: Entry, s: nat, j: nat)
    requires IsName(v) && ord >= 1 && s <= j < 13 && (ord - 1) * 13 + j <= |v|
    requires forall k :: 0 <= k < 13 ==> CharAt(e, k) == PartChar(v, ord, k)
    requires CmpFrom(up, buf, e, (ord - 1) * 13 + s, s, false).Some?
    ensures (ord - 1) * 13 + j < MAX_LFN && up(PartChar(v, ord, j)) == up(buf[(ord - 1) * 13 + j])
    decreases j - s
  {
    hide CharAt;
    assert CharAt(e, s) == PartChar(v, ord, s);
    if s < j {
      CmpUnit(up, buf, v, ord, e, s + 1, j);
    }
  }

  /** A full last part ends where the name in the buffer ends. */
  lemma {:induction false} CmpFull(up: word -> word, buf: Buffer, v: seq<word>, ord: nat, e: Entry, s: nat)
    requires IsName(v) && ord >= 1 && s <= 13 && ord * 13 <= |v|
    requires forall k :: 0 <= k < 13 ==> CharAt(e, k) == PartChar(v, ord, k)
    requires CmpFrom(up, buf, e, (ord - 1) * 13 + s, s, false).Some?
    ensures CmpFrom(up, buf, e, (ord - 1) * 13 + s, s, false) == Some((ord * 13, false))
    decreases 13 - s
  {
    hide CharAt;
    if s < 13 {
      assert CharAt(e, s) == PartChar(v, ord, s);
      CmpFull(up, buf, v, ord, e, s + 1);
    }
  }

  /** The case conversion maps no other unit to what it maps the terminator to. */
  ghost predicate KeepsZero(up: word -> word)
  {
    forall c: word :: up(c) == up(0) ==> c == 0
  }

  /** What a match with the entry of a part says: its units, and where the name ends. */
  lemma CmpMeans(up: word -> word, buf: Buffer, v: seq<word>, ord: nat, sum: byte, k: nat)
    requires IsName(v) && 1 <= ord <= Parts(|v|) && Cmp(up, buf, LfnEntry(v, ord, sum)) && KeepsZero(up)
    ensures (ord - 1) * 13 <= k < ord * 13 && k < |v| ==> k < MAX_LFN && up(v[k]) == up(buf[k])
    ensures ord == Parts(|v|) ==> |v| <= MAX_LFN && buf[|v|] == 0
  {
    hide LfnEntry, CmpFrom, LdWord, CharAt;
    EntryFacts(v, ord, sum);
    EntryChars(v, ord, sum);
    assert (ord + LLEF) % LLEF == ord;
    var e, base := LfnEntry(v, ord, sum), (ord - 1) * 13;
    if base <= k < ord * 13 && k < |v| {
      CmpUnit(up, buf, v, ord, e, 0, k - base);
    }
    if ord == Parts(|v|) {
      if |v| < ord * 13 {
        CmpUnit(up, buf, v, ord, e, 0, |v| - base);
      } else {
        CmpFull(up, buf, v, ord, e, 0);
      }
    }
  }

  /** A name all of whose entries match is the name in the buffer, up to case. */
  lemma MatchMeans(up: word -> word, buf: Buffer, w: seq<word>, v: seq<word>, sum: byte)
    requires Holding(buf, w) && IsName(v) && KeepsZero(up)
    requires forall ord :: 1 <= ord <= Parts(|v|) ==> Cmp(up, buf, LfnEntry(v, ord, sum))
    ensures SameName(up, w, v)
  {
    hide LfnEntry, Cmp;
    CmpMeans(up, buf, v, Parts(|v|), sum, 0);
    forall k | 0 <= k < |v|
      ensures up(v[k]) == up(buf[k])
    {
      CmpMeans(up, buf, v, k / 13 + 1, sum, k);
    }
    assert forall k :: 0 <= k < |w| ==> buf[k] == buf[..|w|][k] == w[k];
    assert |w| <= |v|;
  }

  // ---- checksum ----

  /** One round of the checksum: rotate right, add, keep eight bits. */
  function SumStep(sum: byte, b: byte): byte
  {
    (sum / 2 + sum % 2 * 128 + b as int) % 0x100
  }

  ghost function SumOf(name: seq<byte>): byte
  {
    if name == [] then 0 else SumStep(SumOf(name[..|name| - 1]), name[|name| - 1])
  }

  function Bit(x: nat, i: nat): nat
    decreases i
  {
    if i == 0 then x % 2 else Bit(x / 2, i - 1)
  }

  /** A bit put on top of n lower ones. */
  lemma {:induction false} BitOnTop(h: nat, top: nat, n: nat, m: nat, i: nat)
    requires top < 2 && h < m && m == Power(n) && i <= n
    ensures Bit(h + m * top, i) == if i < n then Bit(h, i) else top
    decreases n
  {
    if n > 0 {
      assert m == 2 * Power(n - 1);
      if top == 0 { assert m * top == 0; } else { assert m * top == m; }
      assert Power(n - 1) * top == (if top == 0 then 0 else Power(n - 1));
      assert (h + m * top) / 2 == h / 2 + Power(n - 1) * top && (h + m * top) % 2 == h % 2;
      if i > 0 { BitOnTop(h / 2, top, n - 1, Power(n - 1), i - 1); }
    } else {
      assert Power(0) == 1 && h == 0;
      assert m * top == top;
    }
  }

  function Power(n: nat): nat
  {
    if n == 0 then 1 else 2 * Power(n - 1)
  }

  /** The checksum of no bytes is zero; each byte more is added, in eight bits, to the checksum rotated right by one. */
  lemma SumAppend(name: seq<byte>, b: byte) returns (r: byte)
    ensures SumOf([]) == 0 && SumOf(name + [b]) == (r as int + b as int) % 0x100
    ensures forall i :: 0 <= i < 8 ==> Bit(r, i) == Bit(SumOf(name), (i + 1) % 8)
  {
    hide Bit;
    assert (name + [b])[..|name|] == name;
    r := Rotated(SumOf(name));
  }

  lemma Rotated(s: byte) returns (r: byte)
    ensures r == s / 2 + s % 2 * 128
    ensures forall i :: 0 <= i < 8 ==> Bit(r, i) == Bit(s, (i + 1) % 8)
  {
    hide Bit;
    r := s / 2 + s % 2 * 128;
    forall i | 0 <= i < 8
      ensures Bit(r, i) == Bit(s, (i + 1) % 8)
    {
      SevenBits();
      BitOnTop(s / 2, s % 2, 7, 128, i);
      NextBit(s, i);
    }
  }

  lemma SevenBits()
    ensures Power(7) == 128
  {
    assert Power(4) == 16;
  }

  lemma NextBit(s: nat, i: nat)
    ensures Bit(s, 0) == s % 2 && Bit(s / 2, i) == Bit(s, i + 1)
  {
  }

  /** sum_sfn: the checksum depends on the eleven bytes of the name alone. */
  method SumSfn(e: seq<byte>) returns (sum: byte)
    requires |e| >= 11
    ensures sum == SumOf(e[..11])
  {
    sum := 0;
    for n := 0 to 11
      invariant sum == SumOf(e[..n])
    {
      sum := SumStep(sum, e[n]);
      assert e[..n + 1][..n] == e[..n];
    }
  }

  // ---- numbered names ----

  /** First byte of a double-byte character in code page 932. */
  predicate Dbc1st(c: byte) { 0x81 <= c <= 0x9F || 0xE0 <= c <= 0xFC }

  function HexDigit(d: nat): byte
    requires d < 16
  {
    if d < 10 then 0x30 + d else 0x37 + d
  }

  /** A number in hexadecimal without leading zeros. */
  function Hex(n: nat): seq<byte>
  {
    if n < 16 then [HexDigit(n)] else Hex(n / 16) + [HexDigit(n % 16)]
  }

  lemma HexLength(n: nat)
    requires n < 0x1_0000
    ensures 1 <= |Hex(n)| <= 4
  {
    assert n / 16 < 0x1000 && n / 16 / 16 < 0x100 && n / 16 / 16 / 16 < 0x10;
    assert n / 16 / 16 / 16 < 16 ==> |Hex(n / 16 / 16 / 16)| == 1;
    assert |Hex(n / 16 / 16)| <= 2;
    assert |Hex(n / 16)| <= 3;
  }

  /** What digits in hexadecimal stand for, the first one highest. */
  function FromHex(s: seq<byte>): nat
  {
    if s == [] then 0
    else
      var c := s[|s| - 1];
      16 * FromHex(s[..|s| - 1]) + if 0x41 <= c then c - 0x41 + 10 else if 0x30 <= c then c - 0x30 else 0
  }

  /** The digits are those of the number, 0 to 9 and A to F, without a leading zero. */
  lemma {:induction false} HexStandsFor(n: nat)
    ensures FromHex(Hex(n)) == n && (n > 0 ==> Hex(n)[0] != 0x30)
    ensures forall i :: 0 <= i < |Hex(n)| ==> 0x30 <= Hex(n)[i] <= 0x39 || 0x41 <= Hex(n)[i] <= 0x46
  {
    if n >= 16 {
      HexStandsFor(n / 16);
      assert Hex(n)[..|Hex(n)| - 1] == Hex(n / 16);
    } else {
      assert Hex(n)[..0] == [] && FromHex([]) == 0;
    }
  }

  /** The body of a numbered name: as much of the short name as has room, a tilde, the number, and spaces. */
  ghost predicate Numbered(dst: seq<byte>, src: seq<byte>, k: nat)
  {
    && |dst| == |src| == 11 && dst[8..] == src[8..]
    && exists j :: 0 <= j && j + 1 + |Hex(k)| <= 8 && dst[..8] == Body(src, j, k) && Longest(src, j, 7 - |Hex(k)|)
  }

  /** The bytes from i up to j are whole characters of the body, none of them a space. */
  predicate Whole(src: seq<byte>, i: nat, j: nat)
    decreases j - i
  {
    i == j || (i < j <= |src| && src[i] != 0x20 && Whole(src, if Dbc1st(src[i]) then i + 2 else i + 1, j))
  }

  lemma {:induction false} WholeNext(src: seq<byte>, i: nat, j: nat)
    requires Whole(src, i, j) && j < |src| && src[j] != 0x20
    requires Dbc1st(src[j]) ==> j + 2 <= |src|
    ensures Whole(src, i, if Dbc1st(src[j]) then j + 2 else j + 1)
    decreases j - i
  {
    if i < j {
      WholeNext(src, if Dbc1st(src[i]) then i + 2 else i + 1, j);
    }
  }

  /** The body is the whole characters before j: there is no more room, or a space, or a double-byte character that
      would be cut. */
  predicate Longest(src: seq<byte>, j: nat, room: nat)
    requires j <= room < |src|
  {
    Whole(src, 0, j) && (j == room || src[j] == 0x20 || (j == room - 1 && Dbc1st(src[j])))
  }

  function Body(src: seq<byte>, j: nat, k: nat): seq<byte>
    requires j <= |src| && j + 1 + |Hex(k)| <= 8
  {
    src[..j] + [0x7E] + Hex(k) + seq(7 - j - |Hex(k)|, i => 0x20)
  }

  function HashBits(k: nat, wc: nat, bits: nat): (r: nat)
    requires k < 0x1_0000
    ensures r < 0x1_0000
    decreases bits
  {
    if bits == 0 then k else HashBits(Shift(k, wc % 2), wc / 2, bits - 1)
  }

  /** The number in the name after many collisions. */
  function HashOf(lfn: seq<word>, k: nat): (r: nat)
    requires k < 0x1_0000
    ensures r < 0x1_0000
  {
    if lfn == [] then k else HashOf(lfn[1..], HashBits(k, lfn[0], 16))
  }

  method HashName(lfn: seq<word>, n: nat) returns (k: nat)
    requires n < 0x1_0000
    ensures k == HashOf(lfn, n)
  {
    hide Xor, Shift;
    k := n;
    assert lfn[0..] == lfn;
    for c := 0 to |lfn|
      invariant k < 0x1_0000 && HashOf(lfn[c..], k) == HashOf(lfn, n)
    {
      assert lfn[c..][0] == lfn[c] && lfn[c..][1..] == lfn[c + 1..];
      var wc: nat := lfn[c];
      ghost var all := HashBits(k, wc, 16);
      for i := 0 to 16
        invariant k < 0x1_0000 && HashBits(k, wc, 16 - i) == all
      {
        HashStep(k, wc % 2);
        k := k * 2 + wc % 2;
        wc := wc / 2;
        if k >= 0x1_0000 {
          k := Xor(k, POLY);
        }
      }
    }
  }

  lemma HashStep(k: nat, b: nat)
    requires k < 0x1_0000 && b < 2
    ensures Shift(k, b) == if k * 2 + b < 0x1_0000 then k * 2 + b else Xor(k * 2 + b, POLY)
  {
  }

  /** The bits of a unit, the lowest first, behind a polynomial. */
  function WithBits(m: nat, wc: nat, bits: nat): nat
    decreases bits
  {
    if bits == 0 then m else WithBits(2 * m + wc % 2, wc / 2, bits - 1)
  }

  /** The long name as a polynomial: the sequence number, and the bits of each unit in turn. */
  function Message(lfn: seq<word>, m: nat): nat
  {
    if lfn == [] then m else Message(lfn[1..], WithBits(m, lfn[0], 16))
  }

  lemma {:induction false} BitsRemainder(m: nat, k: nat, wc: nat, bits: nat)
    requires IsRemainder(m, k)
    ensures IsRemainder(WithBits(m, wc, bits), HashBits(k, wc, bits))
    decreases bits
  {
    hide Shift, IsRemainder;
    if bits > 0 {
      RemainderBound(m, k);
      ShiftRemainder(m, k, wc % 2);
      BitsRemainder(2 * m + wc % 2, Shift(k, wc % 2), wc / 2, bits - 1);
    }
  }

  lemma RemainderBound(m: nat, k: nat)
    requires IsRemainder(m, k)
    ensures k < 0x1_0000
  {
  }

  lemma {:induction false} MessageRemainder(lfn: seq<word>, m: nat, k: nat)
    requires IsRemainder(m, k)
    ensures IsRemainder(Message(lfn, m), HashOf(lfn, k))
    decreases |lfn|
  {
    hide IsRemainder, WithBits, HashBits;
    if lfn != [] {
      RemainderBound(m, k);
      BitsRemainder(m, k, lfn[0], 16);
      MessageRemainder(lfn[1..], WithBits(m, lfn[0], 16), HashBits(k, lfn[0], 16));
    }
  }

  /** The hash is the one remainder of the long name behind the sequence number modulo the CRC polynomial. */
  lemma HashIsRemainder(lfn: seq<word>, n: nat, r: nat)
    requires n < 0x1_0000
    ensures IsRemainder(Message(lfn, n), r) <==> r == HashOf(lfn, n)
  {
    hide IsRemainder, Message, HashOf;
    SmallRemainder(n);
    MessageRemainder(lfn, n, n);
    if IsRemainder(Message(lfn, n), r) { RemainderUnique(Message(lfn, n), r, HashOf(lfn, n)); }
  }

  /** The digits of a number, last one first. */
  method HexDigits(n: nat) returns (ns: seq<byte>)
    ensures ns == Hex(n)
  {
    ns := [];
    var rest := n;
    while rest >= 16
      invariant rest >= 0 && Hex(rest) + ns == Hex(n)
      decreases rest
    {
      ns := [HexDigit(rest % 16)] + ns;
      rest := rest / 16;
    }
    ns := [HexDigit(rest)] + ns;
  }

  /** How much of the short name stays in front of the number. */
  method BodyLength(src: seq<byte>, i: nat) returns (j: nat)
    requires i < |src|
    ensures j <= i && Longest(src, j, i)
  {
    j := 0;
    while j < i && src[j] != 0x20
      invariant j <= i && Whole(src, 0, j)
    {
      if !(Dbc1st(src[j]) && j == i - 1) { WholeNext(src, 0, j); }
      if Dbc1st(src[j]) {
        if j == i - 1 {
          break;
        }
        j := j + 1;
      }
      j := j + 1;
    }
  }

  /** gen_numname. */
  method GenNumname(src: seq<byte>, lfn: seq<word>, n: nat) returns (dst: seq<byte>, ghost k: nat)
    requires |src| == 11 && n < 100
    ensures k == Number(lfn, n) && Numbered(dst, src, k)
  {
    hide HashOf, Hex, Longest;
    var num := n;
    if n > 5 {
      num := HashName(lfn, n);
    }
    k := num;
    HexLength(k);
    var digits := HexDigits(num);
    var i := 7 - |digits|;
    var j := BodyLength(src, i);
    dst := src[..j] + [0x7E] + digits + seq(i - j, x => 0x20) + src[8..];
    assert dst[..8] == Body(src, j, k);
    assert dst[8..] == src[8..];
  }

  /** The number of the n-th attempt at a name: the first five count, the others are hashes of the long name. */
  function Number(lfn: seq<word>, n: nat): (k: nat)
    requires n < 100
    ensures k < 0x1_0000
  {
    if n <= 5 then n else HashOf(lfn, n)
  }

  /** So the first five attempts are numbered, and from the sixth on the number is that remainder. */
  lemma NumberIs(lfn: seq<word>, n: nat, k: nat)
    requires 1 <= n < 100
    ensures n <= 5 ==> Number(lfn, n) == n
    ensures n > 5 ==> (Number(lfn, n) == k <==> IsRemainder(Message(lfn, n), k))
  {
    hide IsRemainder, Message, HashOf;
    HashIsRemainder(lfn, n, k);
  }

  /** Where two whole stretches start alike, the longer one goes on with a whole character. */
  lemma {:induction false} WholeFurther(src: seq<byte>, i: nat, j: nat, j': nat)
    requires Whole(src, i, j) && Whole(src, i, j') && j < j'
    ensures j' <= |src| && src[j] != 0x20 && (Dbc1st(src[j]) ==> j + 2 <= j')
    decreases j - i
  {
    if i < j {
      WholeFurther(src, if Dbc1st(src[i]) then i + 2 else i + 1, j, j');
    }
  }

  /** A short name and a number make one numbered name. */
  lemma NumberedUnique(d: seq<byte>, e: seq<byte>, src: seq<byte>, k: nat)
    requires Numbered(d, src, k) && Numbered(e, src, k)
    ensures d == e
  {
    hide Hex, Whole;
    var i :| 0 <= i && i + 1 + |Hex(k)| <= 8 && d[..8] == Body(src, i, k) && Longest(src, i, 7 - |Hex(k)|);
    var j :| 0 <= j && j + 1 + |Hex(k)| <= 8 && e[..8] == Body(src, j, k) && Longest(src, j, 7 - |Hex(k)|);
    if i < j { WholeFurther(src, 0, i, j); }
    if j < i { WholeFurther(src, 0, j, i); }
    assert d == d[..8] + d[8..] && e == e[..8] + e[8..];
  }

  /** The first five numbers make five names. */
  lemma NumberedApart(d: seq<byte>, e: seq<byte>, src: seq<byte>, k: nat, m: nat)
    requires Numbered(d, src, k) && Numbered(e, src, m) && 1 <= k < m <= 5
    ensures d != e
  {
    hide Whole;
    var i :| 0 <= i && i + 1 + |Hex(k)| <= 8 && d[..8] == Body(src, i, k) && Longest(src, i, 7 - |Hex(k)|);
    var j :| 0 <= j && j + 1 + |Hex(m)| <= 8 && e[..8] == Body(src, j, m) && Longest(src, j, 7 - |Hex(m)|);
    if i < j { WholeFurther(src, 0, i, j); }
    if j < i { WholeFurther(src, 0, j, i); }
    assert d[..8][i + 1] == HexDigit(k) && e[..8][i + 1] == HexDigit(m);
  }

  /** A numbered name starts like the short name or with the tilde. */
  lemma NumberedFirst(dst: seq<byte>, src: seq<byte>, k: nat)
    requires Numbered(dst, src, k)
    ensures dst[0] == src[0] || dst[0] == 0x7E
  {
    var j :| 0 <= j && j + 1 + |Hex(k)| <= 8 && dst[..8] == Body(src, j, k) && Longest(src, j, 7 - |Hex(k)|);
    assert dst[0] == dst[..8][0] == Body(src, j, k)[0];
  }
}
