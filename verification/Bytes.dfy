/** Machine integers, sectors and the little-endian words of the on-disk structures. */
module Bytes {

  type byte = x: int | 0 <= x < 0x100
  type word = x: int | 0 <= x < 0x1_0000
  type dword = x: int | 0 <= x < 0x1_0000_0000

  const DWORD_MOD := 0x1_0000_0000

  /** SS(fs): the sector size is fixed at 512 bytes. */
  const SS := 512

  /** Size of a directory entry. */
  const SZDIRE := 32

  datatype Option<+T> = None | Some(value: T)

  type Sector = s: seq<byte> | |s| == SS witness seq(SS, i => 0)

  /** The 32-bit unsigned difference, as C computes it for two DWORDs. */
  function Sub32(a: dword, b: dword): (r: dword)
    ensures b <= a ==> r == a - b
    ensures a < b ==> r == a - b + DWORD_MOD
  {
    (a - b) % DWORD_MOD
  }

  function LdWord(s: seq<byte>, o: nat): word
    requires o + 2 <= |s|
  {
    s[o] as int + 0x100 * s[o + 1] as int
  }

  function LdDword(s: seq<byte>, o: nat): dword
    requires o + 4 <= |s|
  {
    s[o] as int + 0x100 * s[o + 1] as int + 0x1_0000 * s[o + 2] as int + 0x100_0000 * s[o + 3] as int
  }

  /** The k-th byte of an integer in little-endian order: BYTE(val >> 8*k). */
  function ByteOf(val: nat, k: nat): byte
  {
    if k == 0 then val % 0x100 else ByteOf(val / 0x100, k - 1)
  }

  lemma ByteNext(v: nat, k: nat)
    ensures ByteOf(v, 0) == v % 0x100 && ByteOf(v, k + 1) == ByteOf(v / 0x100, k)
  {
  }

  /** The four bytes of a double word put it back together. */
  lemma BytesOfDword(v: dword)
    ensures v == ByteOf(v, 0) as int + 0x100 * ByteOf(v, 1) as int + 0x1_0000 * ByteOf(v, 2) as int
            + 0x100_0000 * ByteOf(v, 3) as int
  {
    hide ByteOf;
    var q1 := v / 0x100;
    var q2 := q1 / 0x100;
    var q3 := q2 / 0x100;
    ByteNext(v, 0);
    ByteNext(v, 1);
    ByteNext(v, 2);
    ByteNext(q1, 0);
    ByteNext(q1, 1);
    ByteNext(q2, 0);
    ByteNext(q3, 0);
  }
}
