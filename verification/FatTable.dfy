/**
  The packed FAT as a map. A FAT is a run of bytes; an entry is 12, 16 or 28 of its bits. Storing an
  entry and reading entries back obey the laws of a plain map from cluster number to value.
 */
module FatTable {
  import opened Bytes
  import opened Volume
  import Arith

  /** Byte offset of an entry in the FAT. */
  function Offset(t: FatType, c: nat): nat
  {
    match t
    case Fat12 => c + c / 2
    case Fat16 => 2 * c
    case Fat32 => 4 * c
  }

  lemma OffsetZero(t: FatType)
    ensures Offset(t, 0) == 0
  {
  }

  /** Bytes an entry touches. */
  function Span(t: FatType): nat
  {
    if t == Fat32 then 4 else 2
  }

  lemma OffsetInFat(t: FatType, c: nat, n: nat)
    requires c < n
    ensures Offset(t, c) + Span(t) <= FatBytes(t, n)
  {
    assert n * 3 / 2 == n + n / 2;
    assert c / 2 <= (n - 1) / 2;
  }

  /** A FAT16 entry lies inside one sector, at the place the C code computes. */
  lemma EntrySector16(c: nat)
    ensures 2 * c / SS == c / (SS / 2) && 2 * c % SS == 2 * (c % (SS / 2)) <= SS - 2
  {
    assert c == 256 * (c / 256) + c % 256;
  }

  /** So does a FAT32 entry. */
  lemma EntrySector32(c: nat)
    ensures 4 * c / SS == c / (SS / 4) && 4 * c % SS == 4 * (c % (SS / 4)) <= SS - 4
  {
    assert c == 128 * (c / 128) + c % 128;
  }

  /** Stepping from one entry to the next inside a sector or across its end. */
  lemma NextEntryOffset(t: FatType, c: nat)
    requires t != Fat12
    ensures var o, o' := Offset(t, c), Offset(t, c + 1);
            && o % SS + Span(t) <= SS && o' % SS == (o % SS + Span(t)) % SS
            && o' / SS == if o' % SS == 0 then o / SS + 1 else o / SS
  {
    if t == Fat16 {
      EntrySector16(c);
      NextOffset(2 * c, 2);
    } else {
      EntrySector32(c);
      NextOffset(4 * c, 4);
    }
  }

  lemma NextOffset(o: nat, k: nat)
    requires 0 < k && o % SS + k <= SS
    ensures (o + k) % SS == (o % SS + k) % SS
    ensures (o + k) / SS == if (o + k) % SS == 0 then o / SS + 1 else o / SS
  {
    assert o == SS * (o / SS) + o % SS;
  }

  lemma EntryInOneSector(t: FatType, c: nat, k: nat)
    requires t != Fat12 && k < Span(t)
    ensures (Offset(t, c) + k) / SS == Offset(t, c) / SS
  {
    EntrySector16(c);
    EntrySector32(c);
  }

  /** The 12 bits of an entry in the two bytes it touches. */
  function Decode12(c: nat, w: word): (v: nat)
    ensures v < 0x1000
  {
    if c % 2 == 1 then w / 16 else w % 0x1000
  }

  /** The value of an entry, as get_fat decodes it. */
  function Entry(t: FatType, fat: seq<byte>, c: nat): (v: nat)
    requires Offset(t, c) + Span(t) <= |fat|
    ensures v < EntryRange(t)
  {
    var o := Offset(t, c);
    match t
    case Fat12 => Decode12(c, LdWord(fat, o))
    case Fat16 => LdWord(fat, o)
    case Fat32 => LdDword(fat, o) % 0x1000_0000
  }

  /** The k-th byte put_fat stores for an entry, given the byte that was there. */
  function Patch(t: FatType, c: nat, val: dword, k: nat, b: byte): byte
    requires k < Span(t)
  {
    match t
    case Fat12 =>
      if c % 2 == 1 then
        (if k == 0 then b % 16 + val % 16 * 16 else val / 16 % 0x100)
      else
        (if k == 0 then val % 0x100 else b / 16 * 16 + val / 0x100 % 16)
    case Fat16 => ByteOf(val, k)
    case Fat32 => if k < 3 then ByteOf(val, k) else ByteOf(val, 3) % 16 + b / 16 * 16
  }

  /** The FAT after the first n bytes of an entry have been stored. */
  function Stored(t: FatType, fat: seq<byte>, c: nat, val: dword, n: nat): (r: seq<byte>)
    requires n <= Span(t) && Offset(t, c) + Span(t) <= |fat|
    ensures |r| == |fat|
    ensures forall i :: 0 <= i < |fat| ==>
                          r[i] == if Offset(t, c) <= i < Offset(t, c) + n
                                  then Patch(t, c, val, i - Offset(t, c), fat[i]) else fat[i]
  {
    if n == 0 then fat
    else
      var o := Offset(t, c) + n - 1;
      Stored(t, fat, c, val, n - 1)[o := Patch(t, c, val, n - 1, fat[o])]
  }

  lemma StoredNothing(t: FatType, fat: seq<byte>, c: nat, val: dword)
    requires Offset(t, c) + Span(t) <= |fat|
    ensures Stored(t, fat, c, val, 0) == fat
  {
  }

  /** Reading back a stored entry gives the value truncated to the entry width. */
  lemma StoredSame(t: FatType, fat: seq<byte>, c: nat, val: dword)
    requires Offset(t, c) + Span(t) <= |fat|
    ensures Entry(t, Stored(t, fat, c, val, Span(t)), c) == val % EntryRange(t)
  {
    match t
    case Fat12 => StoredSame12(fat, c, val);
    case Fat16 => StoredSame16(fat, c, val);
    case Fat32 => StoredSame32(fat, c, val);
  }

  lemma StoredSame12(fat: seq<byte>, c: nat, val: dword)
    requires Offset(Fat12, c) + 2 <= |fat|
    ensures Entry(Fat12, Stored(Fat12, fat, c, val, 2), c) == val % 0x1000
  {
    hide Stored;
    var o := Offset(Fat12, c);
    var r := Stored(Fat12, fat, c, val, 2);
    if c % 2 == 1 {
      OddEntry(val, fat[o]);
      assert r[o] == fat[o] % 16 + val % 16 * 16 && r[o + 1] == val / 16 % 0x100;
    } else {
      EvenEntry(val, fat[o + 1]);
      assert r[o] == val % 0x100 && r[o + 1] == fat[o + 1] / 16 * 16 + val / 0x100 % 16;
    }
  }

  lemma OddEntry(v: nat, p: byte)
    ensures (p % 16 + v % 16 * 16 + 0x100 * (v / 16 % 0x100)) / 16 == v % 0x1000
  {
  }

  lemma EvenEntry(v: nat, p: byte)
    ensures (v % 0x100 + 0x100 * (p / 16 * 16 + v / 0x100 % 16)) % 0x1000 == v % 0x1000
  {
    var l, h, k := v % 0x100, v / 0x100 % 16, (p / 16) as int;
    Arith.DivModUnique(l + 0x100 * (k * 16 + h), 0x1000, k, 0x100 * h + l);
    Arith.DivModUnique(v, 0x1000, v / 0x100 / 16, 0x100 * h + l);
  }

  lemma StoredSame16(fat: seq<byte>, c: nat, val: dword)
    requires 2 * c + 2 <= |fat|
    ensures Entry(Fat16, Stored(Fat16, fat, c, val, 2), c) == val % 0x1_0000
  {
    hide Stored, ByteOf;
    var o := Offset(Fat16, c);
    var r := Stored(Fat16, fat, c, val, 2);
    assert r[o] == ByteOf(val, 0) && r[o + 1] == ByteOf(val, 1);
    BytesOfDword(val);
  }

  lemma StoredSame32(fat: seq<byte>, c: nat, val: dword)
    requires 4 * c + 4 <= |fat|
    ensures Entry(Fat32, Stored(Fat32, fat, c, val, 4), c) == val % 0x1000_0000
  {
    hide Stored, ByteOf;
    var o := Offset(Fat32, c);
    var r := Stored(Fat32, fat, c, val, 4);
    assert r[o] == ByteOf(val, 0) && r[o + 1] == ByteOf(val, 1) && r[o + 2] == ByteOf(val, 2);
    assert r[o + 3] == ByteOf(val, 3) % 16 + fat[o + 3] / 16 * 16;
    BytesOfDword(val);
    TopNibble(ByteOf(val, 0) as int + 0x100 * ByteOf(val, 1) as int + 0x1_0000 * ByteOf(val, 2) as int, ByteOf(val, 3),
      fat[o + 3]);
  }

  lemma TopNibble(low: nat, b: byte, p: byte)
    requires low < 0x100_0000
    ensures (low + 0x100_0000 * (b % 16 + p / 16 * 16)) % 0x1000_0000 == (low + 0x100_0000 * b) % 0x1000_0000
  {
    assert b == b % 16 + b / 16 * 16;
    assert low + 0x100_0000 * (b % 16 + p / 16 * 16) == low + 0x100_0000 * (b % 16) + p / 16 * 0x1000_0000;
    assert low + 0x100_0000 * b == low + 0x100_0000 * (b % 16) + b / 16 * 0x1000_0000;
  }

  /** No other entry changes, after the whole store or after only part of its bytes: a FAT12 entry
      shares one byte with a neighbour and keeps the neighbour's nibble. */
  lemma StoredOther(t: FatType, fat: seq<byte>, c: nat, val: dword, n: nat, d: nat)
    requires n <= Span(t) && c != d
    requires Offset(t, c) + Span(t) <= |fat| && Offset(t, d) + Span(t) <= |fat|
    ensures Entry(t, Stored(t, fat, c, val, n), d) == Entry(t, fat, d)
  {
    hide Stored, Patch, ByteOf;
    var r := Stored(t, fat, c, val, n);
    var o := Offset(t, d);
    match t
    case Fat12 => StoredOther12(fat, c, val, n, d);
    case Fat16 => assert r[o] == fat[o] && r[o + 1] == fat[o + 1];
    case Fat32 => assert r[o] == fat[o] && r[o + 1] == fat[o + 1] && r[o + 2] == fat[o + 2] && r[o + 3] == fat[o + 3];
  }

  lemma StoredOther12(fat: seq<byte>, c: nat, val: dword, n: nat, d: nat)
    requires n <= 2 && c != d
    requires Offset(Fat12, c) + 2 <= |fat| && Offset(Fat12, d) + 2 <= |fat|
    ensures Entry(Fat12, Stored(Fat12, fat, c, val, n), d) == Entry(Fat12, fat, d)
  {
    hide Stored, Patch;
    var r := Stored(Fat12, fat, c, val, n);
    var o := Offset(Fat12, d);
    if d == c + 1 && c % 2 == 0 {
      KeepsHighNibble(c, val, fat[o]);
      assert r[o + 1] == fat[o + 1] && r[o] / 16 == fat[o] / 16;
      OddSameHigh(r[o], fat[o], fat[o + 1]);
    } else if c == d + 1 && d % 2 == 0 {
      KeepsLowNibble(c, val, fat[o + 1]);
      assert r[o] == fat[o] && r[o + 1] % 16 == fat[o + 1] % 16;
      EvenSameLow(fat[o], r[o + 1], fat[o + 1]);
    } else {
      assert o + 1 < Offset(Fat12, c) || Offset(Fat12, c) + 1 < o;
      assert r[o] == fat[o] && r[o + 1] == fat[o + 1];
    }
  }

  lemma KeepsHighNibble(c: nat, val: dword, b: byte)
    requires c % 2 == 0
    ensures Patch(Fat12, c, val, 1, b) / 16 == b / 16
  {
  }

  lemma KeepsLowNibble(c: nat, val: dword, b: byte)
    requires c % 2 == 1
    ensures Patch(Fat12, c, val, 0, b) % 16 == b % 16
  {
  }

  lemma OddSameHigh(a: byte, b: byte, h: byte)
    requires a / 16 == b / 16
    ensures (a as int + 0x100 * h as int) / 16 == (b as int + 0x100 * h as int) / 16
  {
    assert (a as int + 0x100 * h as int) / 16 == a / 16 + 16 * h as int;
  }

  lemma EvenSameLow(l: byte, a: byte, b: byte)
    requires a % 16 == b % 16
    ensures (l as int + 0x100 * a as int) % 0x1000 == (l as int + 0x100 * b as int) % 0x1000
  {
  }

  // ---- where the bits of an entry lie ----

  ghost function Pow2(n: nat): (r: nat)
    ensures r > 0
  {
    if n == 0 then 1 else 2 * Pow2(n - 1)
  }

  /** Bytes as one number, the first byte lowest. */
  ghost function Little(s: seq<byte>): nat
  {
    if s == [] then 0 else s[0] as int + 0x100 * Little(s[1..])
  }

  lemma {:induction false} Pow2Sum(m: nat, n: nat)
    ensures Pow2(m + n) == Pow2(m) * Pow2(n)
  {
    if m > 0 { Pow2Sum(m - 1, n); }
  }

  lemma Pow2Small()
    ensures Pow2(4) == 16 && Pow2(8) == 0x100
  {
    assert Pow2(4) == 16;
  }

  /** Eight bits further is one byte further. */
  lemma {:induction false} LittleDrop(s: seq<byte>, o: nat)
    requires o <= |s|
    ensures Little(s) / Pow2(8 * o) == Little(s[o..])
    decreases o
  {
    if o == 0 {
      assert s[0..] == s && Pow2(0) == 1;
    } else {
      LittleDrop(s[1..], o - 1);
      assert s[1..][o - 1..] == s[o..];
      Pow2Small();
      Pow2Sum(8, 8 * (o - 1));
      var x, p := Little(s[1..]), Pow2(8 * (o - 1));
      assert Little(s) / 0x100 == x;
      Arith.DivDiv(Little(s), 0x100, p);
    }
  }

  /** The first bytes of a number are its lowest bits. */
  lemma LittleWord(s: seq<byte>, o: nat)
    requires o + 2 <= |s|
    ensures Little(s[o..]) % 0x1_0000 == LdWord(s, o)
  {
    var r := s[o..];
    assert r[1..][1..] == r[2..];
    var rest := Little(r[2..]);
    assert Little(r) == r[0] as int + 0x100 * (r[1] as int + 0x100 * rest);
    Arith.DivModUnique(Little(r), 0x1_0000, rest, LdWord(s, o));
  }

  lemma LittleDword(s: seq<byte>, o: nat)
    requires o + 4 <= |s|
    ensures Little(s[o..]) % 0x1_0000_0000 == LdDword(s, o)
  {
    var r := s[o..];
    assert r[1..][1..] == r[2..] && r[2..][1..] == r[3..] && r[3..][1..] == r[4..];
    var rest := Little(r[4..]);
    assert Little(r[2..]) == r[2] as int + 0x100 * (r[3] as int + 0x100 * rest);
    assert Little(r) == r[0] as int + 0x100 * (r[1] as int + 0x100 * Little(r[2..]));
    Arith.DivModUnique(Little(r), 0x1_0000_0000, rest, LdDword(s, o));
  }

  /**
    The FAT is one long number, the first byte lowest: entry c is its 12, 16 or 28 bits from bit 12 * c, 16 * c or
    32 * c on.
   */
  lemma EntryBits(t: FatType, fat: seq<byte>, c: nat)
    requires Offset(t, c) + Span(t) <= |fat|
    ensures t == Fat12 ==> Entry(t, fat, c) == Little(fat) / Pow2(12 * c) % 0x1000
    ensures t == Fat16 ==> Entry(t, fat, c) == Little(fat) / Pow2(16 * c) % 0x1_0000
    ensures t == Fat32 ==> Entry(t, fat, c) == Little(fat) / Pow2(32 * c) % 0x1000_0000
  {
    hide Little, Pow2;
    Pow2Small();
    var o := Offset(t, c);
    LittleDrop(fat, o);
    LittleWord(fat, o);
    var x := Little(fat[o..]);
    match t
    case Fat12 =>
      if c % 2 == 0 {
        assert 12 * c == 8 * o;
        LowBits(x, 16, 0x1000);
      } else {
        assert 12 * c == 8 * o + 4;
        Pow2Sum(8 * o, 4);
        Arith.DivDiv(Little(fat), Pow2(8 * o), 16);
        HighBits(x, 0x1000);
      }
    case Fat16 => assert 16 * c == 8 * o;
    case Fat32 =>
      assert 32 * c == 8 * o;
      LittleDword(fat, o);
      LowBits(x, 16, 0x1000_0000);
  }

  lemma LowBits(x: nat, k: nat, m: nat)
    requires k > 0 && m > 0
    ensures k * m > 0 && x % (m * k) % m == x % m
  {
    var q := x / (m * k);
    assert x == m * k * q + x % (m * k) == m * (k * q) + x % (m * k);
    var y := x % (m * k);
    Arith.DivModUnique(x, m, k * q + y / m, y % m);
  }

  lemma HighBits(x: nat, m: nat)
    requires m > 0
    ensures x % (16 * m) / 16 == x / 16 % m
  {
    var q := x / (16 * m);
    assert x == 16 * m * q + x % (16 * m);
    var y := x % (16 * m);
    assert x == 16 * (m * q + y / 16) + y % 16;
    Arith.DivModUnique(x, 16, m * q + y / 16, y % 16);
    Arith.DivModUnique(x / 16, m, q, y / 16);
  }

  /** The four reserved high bits of a FAT32 entry. */
  ghost function Reserved(fat: seq<byte>, d: nat): nat
    requires 4 * d + 4 <= |fat|
  {
    (fat[4 * d + 3] / 16) as nat
  }

  ghost predicate ReservedKept(t: FatType, fat: seq<byte>, fat': seq<byte>)
  {
    t == Fat32 ==> |fat'| == |fat| && forall d :: 0 <= d && 4 * d + 4 <= |fat| ==> Reserved(fat', d) == Reserved(fat, d)
  }

  /** They survive every store, whole or broken off. */
  lemma StoredKeepsReservedBits(t: FatType, fat: seq<byte>, c: nat, val: dword, n: nat)
    requires n <= Span(t) && Offset(t, c) + Span(t) <= |fat|
    ensures ReservedKept(t, fat, Stored(t, fat, c, val, n))
  {
    hide Stored, ByteOf;
    if t == Fat32 {
      forall d | 0 <= d && 4 * d + 4 <= |fat|
        ensures Reserved(Stored(t, fat, c, val, n), d) == Reserved(fat, d)
      {
        if 4 * c <= 4 * d + 3 < 4 * c + n {
          assert Stored(t, fat, c, val, n)[4 * d + 3] == ByteOf(val, 3) % 16 + fat[4 * d + 3] / 16 * 16;
        }
      }
    }
  }

  /** The flat bytes of the first FAT in a disk image. */
  ghost function FatData(g: Geometry, img: seq<Sector>): (fat: seq<byte>)
    requires g.fatbase + g.fsize <= |img|
    ensures |fat| == SS * g.fsize
    ensures forall k :: 0 <= k < SS * g.fsize ==> fat[k] == img[g.fatbase + k / SS][k % SS]
  {
    seq(SS * g.fsize, k requires 0 <= k < SS * g.fsize => img[g.fatbase + k / SS][k % SS])
  }

  /** The FAT as a table of entry values. */
  ghost function Table(g: Geometry, img: seq<Sector>): (t: seq<nat>)
    requires g.Valid() && g.End() <= |img|
    ensures |t| == g.nFatent
    ensures forall c :: 0 <= c < g.nFatent ==> t[c] < EntryRange(g.fsType)
  {
    TableDefined(g);
    seq(g.nFatent, c requires 0 <= c < g.nFatent => Entry(g.fsType, FatData(g, img), c))
  }

  lemma TableDefined(g: Geometry)
    requires g.Valid()
    ensures forall c :: 0 <= c < g.nFatent ==> Offset(g.fsType, c) + Span(g.fsType) <= SS * g.fsize
  {
    forall c | 0 <= c < g.nFatent
      ensures Offset(g.fsType, c) + Span(g.fsType) <= SS * g.fsize
    {
      OffsetInFat(g.fsType, c, g.nFatent);
    }
  }

  lemma TableAt(g: Geometry, img: seq<Sector>, c: nat)
    requires g.Valid() && g.End() <= |img| && c < g.nFatent
    ensures Offset(g.fsType, c) + Span(g.fsType) <= SS * g.fsize
    ensures Table(g, img)[c] == Entry(g.fsType, FatData(g, img), c)
  {
    hide Entry, PowerOfTwo;
    OffsetInFat(g.fsType, c, g.nFatent);
  }

  /** The table of a volume: the entries of the sectors from fatbase on, read as that number. */
  lemma TableLayout(g: Geometry, img: seq<Sector>, fat: seq<byte>, c: nat)
    requires g.Valid() && g.End() <= |img| && c < g.nFatent && |fat| == 512 * g.fsize
    requires forall k :: 0 <= k < |fat| ==> g.fatbase + k / 512 < |img| && fat[k] == img[g.fatbase + k / 512][k % 512]
    ensures g.fsType == Fat12 ==> Table(g, img)[c] == Little(fat) / Pow2(12 * c) % 0x1000
    ensures g.fsType == Fat16 ==> Table(g, img)[c] == Little(fat) / Pow2(16 * c) % 0x1_0000
    ensures g.fsType == Fat32 ==> Table(g, img)[c] == Little(fat) / Pow2(32 * c) % 0x1000_0000
  {
    hide Entry, PowerOfTwo, Little, Pow2, Table;
    TableAt(g, img, c);
    assert fat == FatData(g, img);
    EntryBits(g.fsType, fat, c);
  }

  /** The sector of an entry lies in the first FAT. */
  lemma EntrySectorInFat(g: Geometry, c: nat)
    requires g.Valid() && c < g.nFatent
    ensures g.InFat1(g.fatbase + Offset(g.fsType, c) / SS) && g.fatbase + Offset(g.fsType, c) / SS < NO_SECTOR
  {
    hide PowerOfTwo, EntryLimit;
    OffsetInFat(g.fsType, c, g.nFatent);
  }

  /** Equal outside the two FAT copies. */
  ghost predicate SameOutsideFat(g: Geometry, a: seq<Sector>, b: seq<Sector>)
  {
    |a| == |b| && forall s :: 0 <= s < |a| && !g.InFat(s) ==> a[s] == b[s]
  }

  /** Equal outside the second FAT copy, which nothing ever reads. */
  ghost predicate SameOutsideFat2(g: Geometry, a: seq<Sector>, b: seq<Sector>)
  {
    |a| == |b| && forall s :: 0 <= s < |a| && !g.InFat2(s) ==> a[s] == b[s]
  }

  /** Equal outside a range of sectors. */
  ghost predicate SameOutside(a: seq<Sector>, b: seq<Sector>, lo: nat, hi: nat)
  {
    |a| == |b| && forall s :: 0 <= s < |a| && !(lo <= s < hi) ==> a[s] == b[s]
  }

  /** Sectors past the FAT area do not show in the table or the mirror. */
  lemma DataFrame(g: Geometry, a: seq<Sector>, b: seq<Sector>, lo: nat, hi: nat)
    requires g.Valid() && g.End() <= |a| && g.database <= lo && SameOutside(a, b, lo, hi)
    ensures FatData(g, a) == FatData(g, b) && Table(g, a) == Table(g, b)
    ensures forall hole :: MirroredExcept(g, a, hole) ==> MirroredExcept(g, b, hole)
  {
    hide PowerOfTwo, FatBytes, EntryLimit, Entry;
    forall k | 0 <= k < SS * g.fsize
      ensures FatData(g, a)[k] == FatData(g, b)[k]
    {
      assert g.InFat1(g.fatbase + k / SS);
    }
  }

  /** Equal but for one sector. */
  ghost predicate SameExcept(a: seq<Sector>, b: seq<Sector>, s: nat)
  {
    |a| == |b| && forall i :: 0 <= i < |a| && i != s ==> a[i] == b[i]
  }

  lemma SameItself(a: seq<Sector>, s: nat)
    ensures SameExcept(a, a, s)
  {
  }

  /** Every sector of the first FAT, except one, equals its copy in the second FAT. */
  ghost predicate MirroredExcept(g: Geometry, img: seq<Sector>, hole: nat)
  {
    g.nFats == 2 ==>
      && g.fatbase + 2 * g.fsize <= |img|
      && forall s: nat :: g.InFat1(s) && s != hole ==> img[s] == img[s + g.fsize]
  }

  /** Writing the hole itself keeps the rest mirrored. */
  lemma MirrorAfterWrite(g: Geometry, a: seq<Sector>, b: seq<Sector>, hole: nat)
    requires MirroredExcept(g, a, hole) && SameExcept(a, b, hole) && !g.InFat2(hole)
    ensures MirroredExcept(g, b, hole)
    ensures g.nFats != 2 || !g.InFat1(hole) ==> MirroredExcept(g, b, NO_SECTOR)
  {
    if g.nFats == 2 {
      forall s: nat | g.InFat1(s) && s != hole
        ensures b[s] == b[s + g.fsize]
      {
        assert g.InFat2(s + g.fsize);
      }
    }
  }

  lemma OutsideFatFrame(g: Geometry, a: seq<Sector>, b: seq<Sector>)
    requires g.Valid() && g.End() <= |a| == |b|
    requires forall s :: 0 <= s < |a| && g.InFat(s) ==> a[s] == b[s]
    ensures Table(g, a) == Table(g, b)
  {
    hide PowerOfTwo, FatBytes, EntryLimit, Entry;
    forall k | 0 <= k < SS * g.fsize
      ensures FatData(g, a)[k] == FatData(g, b)[k]
    {
      assert g.InFat1(g.fatbase + k / SS);
    }
    assert FatData(g, a) == FatData(g, b);
  }

  lemma MirrorWeaken(g: Geometry, img: seq<Sector>, hole: nat)
    requires MirroredExcept(g, img, NO_SECTOR) && g.End() <= NO_SECTOR && g.fatbase + g.FatArea() <= g.database
    ensures MirroredExcept(g, img, hole)
  {
  }

  /** The unsigned test of sync_window for a sector of the first FAT, and where its copy is. */
  lemma FatTest(g: Geometry, sector: dword)
    requires g.Valid()
    ensures g.fatbase < DWORD_MOD && (Sub32(sector, g.fatbase) < g.fsize <==> g.InFat1(sector))
    ensures g.nFats == 2 && g.InFat1(sector) ==> g.InFat2(sector + g.fsize) && sector + g.fsize < g.End()
  {
    hide PowerOfTwo, FatBytes, EntryLimit;
    assert g.csize * (g.nFatent - 2) >= 0;
  }

  /** A write to a sector of the second FAT. */
  lemma CopyFrame(g: Geometry, a: seq<Sector>, b: seq<Sector>, copy: nat)
    requires g.InFat2(copy) && |a| == |b| && forall k :: 0 <= k < |b| && k != copy ==> b[k] == a[k]
    ensures SameOutsideFat2(g, a, b) && SameExcept(a, b, copy)
  {
  }

  /** Writing the copy closes the hole. */
  lemma MirrorAfterCopy(g: Geometry, a: seq<Sector>, b: seq<Sector>, hole: nat)
    requires g.nFats == 2 && g.InFat1(hole) && MirroredExcept(g, a, hole)
    requires SameExcept(a, b, hole + g.fsize) && b[hole] == b[hole + g.fsize]
    ensures MirroredExcept(g, b, NO_SECTOR)
  {
  }

  /** The table depends on the first FAT alone. */
  lemma TableFrame(g: Geometry, a: seq<Sector>, b: seq<Sector>)
    requires g.Valid() && g.End() <= |a| && SameOutsideFat2(g, a, b)
    ensures FatData(g, a) == FatData(g, b)
    ensures Table(g, a) == Table(g, b)
  {
    hide Entry, PowerOfTwo;
    forall k | 0 <= k < SS * g.fsize
      ensures FatData(g, a)[k] == FatData(g, b)[k]
    {
      assert g.InFat1(g.fatbase + k / SS);
    }
  }

  /** The k-th byte past an offset, while both lie in one sector. */
  lemma FatByteInSector(g: Geometry, img: seq<Sector>, o: nat, k: nat)
    requires g.fatbase + g.fsize <= |img| && o + k < SS * g.fsize && o % SS + k < SS
    ensures FatData(g, img)[o + k] == img[g.fatbase + o / SS][o % SS + k]
  {
    assert (o + k) / SS == o / SS && (o + k) % SS == o % SS + k;
  }

  /** A FAT16 entry is read from one sector. */
  lemma EntryInSector16(g: Geometry, img: seq<Sector>, c: nat)
    requires g.Valid() && g.End() <= |img| && c < g.nFatent && g.fsType == Fat16
    ensures 2 * c % SS + 2 <= SS && 2 * c / SS < g.fsize
    ensures Table(g, img)[c] == LdWord(img[g.fatbase + 2 * c / SS], 2 * c % SS)
  {
    hide FatData, PowerOfTwo, FatBytes, EntryLimit, EntryRange, Table;
    TableAt(g, img, c);
    EntrySector16(c);
    FatByteInSector(g, img, 2 * c, 0);
    FatByteInSector(g, img, 2 * c, 1);
  }

  /** A FAT32 entry is read from one sector. */
  lemma EntryInSector32(g: Geometry, img: seq<Sector>, c: nat)
    requires g.Valid() && g.End() <= |img| && c < g.nFatent && g.fsType == Fat32
    ensures 4 * c % SS + 4 <= SS && 4 * c / SS < g.fsize
    ensures Table(g, img)[c] == LdDword(img[g.fatbase + 4 * c / SS], 4 * c % SS) % 0x1000_0000
  {
    hide FatData, PowerOfTwo, FatBytes, EntryLimit, EntryRange, Table, LdDword;
    TableAt(g, img, c);
    EntrySector32(c);
    DwordInSector(g, img, 4 * c);
  }

  lemma DwordInSector(g: Geometry, img: seq<Sector>, o: nat)
    requires g.fatbase + g.fsize <= |img| && o + 4 <= SS * g.fsize && o % SS + 4 <= SS
    ensures LdDword(FatData(g, img), o) == LdDword(img[g.fatbase + o / SS], o % SS)
  {
    hide FatData;
    FatByteInSector(g, img, o, 0);
    FatByteInSector(g, img, o, 1);
    FatByteInSector(g, img, o, 2);
    FatByteInSector(g, img, o, 3);
  }

  /** Storing one byte through a sector of the first FAT changes that byte of the flat FAT. */
  lemma FatDataUpdate(g: Geometry, img: seq<Sector>, k: nat, b: byte)
    requires g.Valid() && g.End() <= |img| && k < SS * g.fsize
    ensures var s := g.fatbase + k / SS;
            FatData(g, img[s := img[s][k % SS := b]]) == FatData(g, img)[k := b]
  {
    hide PowerOfTwo, FatBytes, EntryLimit, FatData, Geometry.InFat1, Geometry.InFat2, Sub32;
    FatTest(g, 0);
    var s := g.fatbase + k / SS;
    var img' := img[s := img[s][k % SS := b]];
    forall i | 0 <= i < SS * g.fsize
      ensures FatData(g, img')[i] == FatData(g, img)[k := b][i]
    {
      ByteUpdate(img, g.fatbase, g.fsize, k, b, i);
    }
  }

  lemma ByteUpdate(img: seq<Sector>, base: nat, n: nat, k: nat, b: byte, i: nat)
    requires base + n <= |img| && k < SS * n && i < SS * n
    ensures var s := base + k / SS;
            img[s := img[s][k % SS := b]][base + i / SS][i % SS] == if i == k then b else img[base + i / SS][i % SS]
  {
    SameByte(i, k);
  }

  lemma SameByte(i: nat, k: nat)
    ensures i / SS == k / SS && i % SS == k % SS ==> i == k
  {
  }

  /** The map law of put_fat over the whole table. */
  lemma TableUpdate(g: Geometry, a: seq<Sector>, b: seq<Sector>, c: nat, val: dword)
    requires g.Valid() && g.End() <= |a| && |a| == |b| && c < g.nFatent
    requires Offset(g.fsType, c) + Span(g.fsType) <= SS * g.fsize
    requires FatData(g, b) == Stored(g.fsType, FatData(g, a), c, val, Span(g.fsType))
    ensures Table(g, b) == Table(g, a)[c := val % EntryRange(g.fsType)]
  {
    hide Entry, Stored, PowerOfTwo, FatBytes, Offset, EntryRange;
    TableAt(g, a, c);
    TableAt(g, b, c);
    StoredSame(g.fsType, FatData(g, a), c, val);
    TablePartialUpdate(g, a, b, c, val, Span(g.fsType));
  }

  /** A store cut short by a disk error can damage its own entry only. */
  lemma TablePartialUpdate(g: Geometry, a: seq<Sector>, b: seq<Sector>, c: nat, val: dword, n: nat)
    requires g.Valid() && g.End() <= |a| && |a| == |b| && c < g.nFatent
    requires n <= Span(g.fsType) && Offset(g.fsType, c) + Span(g.fsType) <= SS * g.fsize
    requires FatData(g, b) == Stored(g.fsType, FatData(g, a), c, val, n)
    ensures forall d :: 0 <= d < g.nFatent && d != c ==> Table(g, b)[d] == Table(g, a)[d]
  {
    hide Entry, Stored, PowerOfTwo, FatBytes, Offset, EntryRange;
    forall d | 0 <= d < g.nFatent && d != c
      ensures Table(g, b)[d] == Table(g, a)[d]
    {
      TableAt(g, a, d);
      TableAt(g, b, d);
      StoredOther(g.fsType, FatData(g, a), c, val, n, d);
    }
  }

  /** A stored EOC reads as at least nFatent and never as the disk-error code. */
  lemma EocReadsAsEnd(g: Geometry, fat: seq<byte>, c: nat)
    requires g.Valid() && Offset(g.fsType, c) + Span(g.fsType) <= |fat|
    ensures g.nFatent <= Entry(g.fsType, Stored(g.fsType, fat, c, 0xFFFF_FFFF, Span(g.fsType)), c) < 0xFFFF_FFFF
    ensures Entry(g.fsType, Stored(g.fsType, fat, c, 0xFFFF_FFFF, Span(g.fsType)), c) == g.Eoc()
  {
    hide Entry, Stored, PowerOfTwo;
    StoredSame(g.fsType, fat, c, 0xFFFF_FFFF);
  }
}
