/**
  The UTF-8 interface of the file system: characters inside are UTF-16, a supplementary one as a surrogate
  pair in one double word. Shifts and masks of the C code are written as quotients and remainders, and
  disjoint bit fields are added.
 */
module Utf {
  import opened Bytes

  const WRONG: dword := 0xFFFF_FFFF

  predicate IsSurrogate(c: nat) { 0xD800 <= c <= 0xDFFF }

  /** A Unicode scalar value. */
  predicate Scalar(c: nat) { c < 0x11_0000 && !IsSurrogate(c) }

  /** A scalar value in UTF-16, high unit in the upper half: section 2.1 of RFC 2781. */
  function Utf16(c: nat): dword
    requires Scalar(c)
  {
    if c < 0x1_0000 then c
    else
      var u := c - 0x1_0000;
      (0xD800 + u / 0x400) * 0x1_0000 + (0xDC00 + u % 0x400)
  }

  /** A trailing byte: six bits of the character. */
  function Trail(c: nat): byte
  {
    0x80 + c % 0x40
  }

  /** The upper and lower ten bits of the character a surrogate pair stands for. */
  function High(chr: dword): dword { Sub32(chr / 0x1_0000 * 0x1_0000, 0xD800_0000) / 0x40 }

  function Low(chr: dword): dword { Sub32(chr % 0x1_0000, 0xDC00) }

  /** put_utf: the bytes written for a character, none if it is wrong or does not fit. */
  function PutUtf(chr: dword, szb: nat): seq<byte>
  {
    if chr < 0x80 then
      if szb < 1 then [] else [chr]
    else if chr < 0x800 then
      if szb < 2 then [] else [0xC0 + chr / 0x40 % 0x20, Trail(chr)]
    else if chr < 0x1_0000 then
      if szb < 3 || IsSurrogate(chr) then [] else [0xE0 + chr / 0x1000 % 0x10, Trail(chr / 0x40), Trail(chr)]
    else if szb < 4 || High(chr) >= 0x10_0000 || Low(chr) >= 0x400 then []
    else
      var c := High(chr) + Low(chr) + 0x1_0000;
      [0xF0 + c / 0x4_0000 % 0x08, Trail(c / 0x1000), Trail(c / 0x40), Trail(c)]
  }

  /** Exactly the scalar values can be written. */
  lemma Writable(chr: dword)
    ensures PutUtf(chr, 4) != [] <==> exists c :: Scalar(c) && Utf16(c) == chr
  {
    if chr < 0x1_0000 {
      assert !IsSurrogate(chr) ==> Utf16(chr) == chr;
    } else {
      if High(chr) < 0x10_0000 && Low(chr) < 0x400 {
        Paired(chr);
      }
      if exists c :: Scalar(c) && Utf16(c) == chr {
        var c :| Scalar(c) && Utf16(c) == chr;
        Pair(c);
      }
    }
  }

  /** The surrogate pair is taken apart as it was put together. */
  lemma Pair(c: nat)
    requires Scalar(c) && c >= 0x1_0000
    ensures var chr := Utf16(c);
            chr >= 0x1_0000 && High(chr) < 0x10_0000 && Low(chr) < 0x400 && High(chr) + Low(chr) + 0x1_0000 == c
  {
    var u := c - 0x1_0000;
    assert Utf16(c) / 0x1_0000 == 0xD800 + u / 0x400;
    assert Utf16(c) % 0x1_0000 == 0xDC00 + u % 0x400;
  }

  lemma Paired(chr: dword)
    requires chr >= 0x1_0000 && High(chr) < 0x10_0000 && Low(chr) < 0x400
    ensures var c := High(chr) + Low(chr) + 0x1_0000; Scalar(c) && Utf16(c) == chr
  {
    var h := chr / 0x1_0000;
    assert High(chr) == (h - 0xD800) * 0x400;
  }

  /** A unit of a string that ends with a zero. */
  function At(s: seq<byte>, i: nat): byte
  {
    if i < |s| then s[i] else 0
  }

  /** Bits that a leading byte carries, and how many bytes follow it; none for a wrong byte. */
  function Lead(b: byte): (nat, nat)
  {
    if b / 0x20 == 6 then (b % 0x20, 1)
    else if b / 0x10 == 14 then (b % 0x10, 2)
    else if b / 0x08 == 30 then (b % 0x08, 3)
    else (b, 0)
  }

  /** The character with n trailing bytes from position i on, WRONG if one of them is not a trailing byte. */
  function Trailing(uc: nat, s: seq<byte>, i: nat, n: nat): nat
    decreases n
  {
    if n == 0 then uc
    else if At(s, i) / 0x40 != 2 then WRONG
    else Trailing(uc * 0x40 + At(s, i) % 0x40, s, i + 1, n - 1)
  }

  function Checked(uc: nat): dword
  {
    if uc < 0x80 || IsSurrogate(uc) || uc >= 0x11_0000 then WRONG
    else if uc >= 0x1_0000 then 0xD800_DC00 + (uc - 0x1_0000) / 0x400 * 0x1_0000 + uc % 0x400
    else uc
  }

  /** tchar2uni: the character at the start of a string and the bytes it takes, none if it is wrong. */
  function Decode(s: seq<byte>): (dword, nat)
  {
    var b := At(s, 0);
    if b < 0x80 then (b, 1)
    else
      var (bits, n) := Lead(b);
      if n == 0 then (WRONG, 0)
      else
        var uc := Checked(Trailing(bits, s, 1, n));
        (uc, if uc == WRONG then 0 else n + 1)
  }

  /** The character is read byte by byte. */
  method ReadChar(s: seq<byte>) returns (uc: dword, used: nat)
    ensures (uc, used) == Decode(s)
  {
    var b := At(s, 0);
    if b < 0x80 {
      return b, 1;
    }
    var (bits, n) := Lead(b);
    if n == 0 {
      return WRONG, 0;
    }
    var c: nat, nf := bits, n;
    used := 1;
    while nf != 0
      invariant used + nf == n + 1
      invariant Trailing(c, s, used, nf) == Trailing(bits, s, 1, n)
    {
      b := At(s, used);
      if b / 0x40 != 2 {
        return WRONG, 0;
      }
      c := c * 0x40 + b % 0x40;
      used := used + 1;
      nf := nf - 1;
    }
    if c < 0x80 || IsSurrogate(c) || c >= 0x11_0000 {
      return WRONG, 0;
    }
    uc := Checked(c);
  }

  /** The surrogate pair that decoding makes is the one of RFC 2781. */
  lemma CheckedScalar(c: nat)
    ensures c >= 0x80 && Scalar(c) ==> Checked(c) == Utf16(c) != WRONG
    ensures c < 0x80 || !Scalar(c) ==> Checked(c) == WRONG
  {
    if c >= 0x1_0000 { assert c % 0x400 == (c - 0x1_0000) % 0x400; }
  }

  /** A trailing byte gives its six bits back. */
  lemma TrailBits(c: nat, s: seq<byte>, i: nat, n: nat)
    requires n >= 1 && i < |s| && s[i] == Trail(c)
    ensures Trailing(c / 0x40, s, i, n) == Trailing(c, s, i + 1, n - 1)
  {
    assert Trail(c) / 0x40 == 2 && Trail(c) % 0x40 == c % 0x40;
  }

  lemma WrittenTrails(c: nat)
    requires Scalar(c)
    ensures PutUtf(Utf16(c), 4) ==
            if c < 0x80 then [c]
            else if c < 0x800 then [0xC0 + c / 0x40, Trail(c)]
            else if c < 0x1_0000 then [0xE0 + c / 0x40 / 0x40, Trail(c / 0x40), Trail(c)]
            else [0xF0 + c / 0x40 / 0x40 / 0x40, Trail(c / 0x40 / 0x40), Trail(c / 0x40), Trail(c)]
  {
    hide Trail, High, Low, Utf16;
    Quotients(c);
    if c >= 0x1_0000 {
      Pair(c);
    } else {
      Basic(c);
    }
  }

  /** What is written for a scalar value: section 3 of RFC 3629. */
  lemma Written(c: nat)
    requires Scalar(c)
    ensures PutUtf(Utf16(c), 4) ==
            if c < 0x80 then [c]
            else if c < 0x800 then [0xC0 + c / 0x40, 0x80 + c % 0x40]
            else if c < 0x1_0000 then [0xE0 + c / 0x1000, 0x80 + c / 0x40 % 0x40, 0x80 + c % 0x40]
            else [0xF0 + c / 0x4_0000, 0x80 + c / 0x1000 % 0x40, 0x80 + c / 0x40 % 0x40, 0x80 + c % 0x40]
  {
    hide PutUtf, Utf16;
    WrittenTrails(c);
    Quotients(c);
  }

  /** A surrogate pair, high unit first, stands for 0x10000 and its twice ten bits: section 2.2 of RFC 2781. */
  lemma PairStandsFor(hi: word, lo: word)
    requires 0xD800 <= hi < 0xDC00 && 0xDC00 <= lo < 0xE000
    ensures var c := 0x1_0000 + (hi - 0xD800) * 0x400 + (lo - 0xDC00);
            Scalar(c) && Utf16(c) == hi * 0x1_0000 + lo
  {
    var u := (hi - 0xD800) * 0x400 + (lo - 0xDC00);
    assert u / 0x400 == hi - 0xD800 && u % 0x400 == lo - 0xDC00;
  }

  lemma Quotients(c: nat)
    ensures c / 0x1000 == c / 0x40 / 0x40 && c / 0x4_0000 == c / 0x40 / 0x40 / 0x40
    ensures c < 0x800 ==> c / 0x40 < 0x20
    ensures c < 0x1_0000 ==> c / 0x1000 < 0x10
    ensures c < 0x11_0000 ==> c / 0x4_0000 < 0x08
  {
  }

  /** Decoding undoes encoding for every scalar value and takes exactly the bytes written, whatever follows them. */
  lemma RoundTrip(c: nat, rest: seq<byte>)
    requires Scalar(c)
    ensures var bytes := PutUtf(Utf16(c), 4);
            1 <= |bytes| <= 4 && Decode(bytes + rest) == (Utf16(c), |bytes|)
  {
    hide Trail, PutUtf, Checked, Utf16, Trailing;
    WrittenTrails(c);
    var bytes := PutUtf(Utf16(c), 4);
    var s := bytes + rest;
    if c < 0x80 {
      assert Utf16(c) == c by { Basic(c); }
    } else if c < 0x800 {
      TrailBits(c, s, 1, 1);
      Done(c, s, 2, c / 0x40, 1);
    } else if c < 0x1_0000 {
      TrailBits(c / 0x40, s, 1, 2);
      TrailBits(c, s, 2, 1);
      Done(c, s, 3, c / 0x40 / 0x40, 2);
    } else {
      TrailBits(c / 0x40 / 0x40, s, 1, 3);
      TrailBits(c / 0x40, s, 2, 2);
      TrailBits(c, s, 3, 1);
      Done(c, s, 4, c / 0x40 / 0x40 / 0x40, 3);
    }
  }

  lemma Basic(c: nat)
    requires Scalar(c) && c < 0x1_0000
    ensures Utf16(c) == c
  {
  }

  lemma Done(c: nat, s: seq<byte>, i: nat, bits: nat, n: nat)
    requires Scalar(c) && c >= 0x80 && |s| > 0 && n > 0 && s[0] >= 0x80
    requires Lead(s[0]) == (bits, n) && Trailing(bits, s, 1, n) == Trailing(c, s, i, 0)
    ensures Decode(s) == (Utf16(c), n + 1)
  {
    hide Checked, Utf16;
    CheckedScalar(c);
  }

  /** Every accepted decode is a scalar value. */
  lemma Accepted(s: seq<byte>)
    requires Decode(s).0 != WRONG
    ensures exists c :: Scalar(c) && Utf16(c) == Decode(s).0
    ensures 1 <= Decode(s).1 <= 4
  {
    hide Checked, Trailing;
    var b := At(s, 0);
    if b < 0x80 {
      assert Scalar(b) && Utf16(b) == b;
    } else {
      CheckedScalar(Trailing(Lead(b).0, s, 1, Lead(b).1));
    }
  }

  // ---- whole names ----

  /** The UTF-16 units of a scalar value. */
  function UnitsOf(c: nat): seq<word>
    requires Scalar(c)
  {
    if c < 0x1_0000 then [c] else [Utf16(c) / 0x1_0000, Utf16(c) % 0x1_0000]
  }

  /** A name without zeros as scalar values, UTF-16 units and UTF-8 bytes. */
  ghost predicate IsName(cs: seq<nat>)
  {
    forall k :: 0 <= k < |cs| ==> Scalar(cs[k]) && cs[k] != 0
  }

  ghost function Units(cs: seq<nat>): seq<word>
    requires IsName(cs)
  {
    if cs == [] then [] else UnitsOf(cs[0]) + Units(cs[1..])
  }

  ghost function Utf8(cs: seq<nat>): seq<byte>
    requires IsName(cs)
  {
    if cs == [] then [] else PutUtf(Utf16(cs[0]), 4) + Utf8(cs[1..])
  }

  /** The bytes for the rest of a name, hs being a surrogate that waits for its partner; none if it is broken or too
      long. */
  function Encoded(units: seq<word>, hs: word, room: nat): Option<seq<byte>>
    decreases |units|
  {
    if units == [] then if hs != 0 then None else Some([])
    else if hs == 0 && IsSurrogate(units[0]) then Encoded(units[1..], units[0], room)
    else
      var b := PutUtf(hs as int * 0x1_0000 + units[0] as int, room);
      if b == [] || |b| > room then None else Behind(b, Encoded(units[1..], 0, room - |b|))
  }

  function Behind<T>(s: seq<T>, rest: Option<seq<T>>): Option<seq<T>>
  {
    match rest
    case None => None
    case Some(t) => Some(s + t)
  }

  lemma BehindNothing<T>(s: seq<T>, rest: Option<seq<T>>)
    ensures s == [] ==> Behind(s, rest) == rest
    ensures rest == Some([]) ==> Behind(s, rest) == Some(s)
  {
    if rest.Some? {
      assert s == [] ==> s + rest.value == rest.value;
      assert rest.value == [] ==> s + rest.value == s;
    }
  }

  lemma BehindBoth<T>(s: seq<T>, t: seq<T>, rest: Option<seq<T>>)
    ensures Behind(s, Behind(t, rest)) == Behind(s + t, rest)
  {
    if rest.Some? { assert s + (t + rest.value) == s + t + rest.value; }
  }

  /** The units of a name given in UTF-8; none if it is wrong. */
  function Decoded(s: seq<byte>): Option<seq<word>>
    decreases |s|
  {
    if s == [] then Some([])
    else
      var (uc, n) := Decode(s);
      if uc == WRONG || n == 0 || n > |s| then None
      else
        Behind(if uc >= 0x1_0000 then [uc / 0x1_0000, uc % 0x1_0000] else [uc], Decoded(s[n..]))
  }

  /** The long name of a directory entry is turned into UTF-8 unit by unit. */
  method EncodeName(units: seq<word>, size: nat) returns (r: Option<seq<byte>>)
    ensures r == Encoded(units, 0, size)
  {
    hide PutUtf;
    var si, hs: word, bytes: seq<byte> := 0, 0, [];
    assert units[0..] == units;
    BehindNothing(bytes, Encoded(units, 0, size));
    while si < |units|
      invariant 0 <= si <= |units| && |bytes| <= size
      invariant Encoded(units, 0, size) == Behind(bytes, Encoded(units[si..], hs, size - |bytes|))
    {
      var wc := units[si];
      assert units[si..][0] == wc && units[si..][1..] == units[si + 1..];
      si := si + 1;
      if hs == 0 && IsSurrogate(wc) {
        hs := wc;
      } else {
        var chr: dword := hs as int * 0x1_0000 + wc as int;
        var b := PutUtf(chr, size - |bytes|);
        PutFits(chr, size - |bytes|);
        if b == [] {
          return None;
        }
        BehindBoth(bytes, b, Encoded(units[si..], 0, size - |bytes| - |b|));
        bytes := bytes + b;
        hs := 0;
      }
    }
    BehindNothing(bytes, Some([]));
    return if hs != 0 then None else Some(bytes);
  }

  /** A character is written whole where there is room for it, and not at all otherwise. */
  lemma PutFits(chr: dword, room: nat)
    ensures PutUtf(chr, room) == if |PutUtf(chr, 4)| <= room then PutUtf(chr, 4) else []
  {
    hide High, Low, Trail;
  }

  /** Every name of scalar values that fits is written as its UTF-8 form. */
  lemma {:induction false} EncodedName(cs: seq<nat>, room: nat)
    requires IsName(cs)
    ensures Encoded(Units(cs), 0, room) == if |Utf8(cs)| <= room then Some(Utf8(cs)) else None
    decreases |cs|
  {
    if cs != [] {
      EncodedChar(cs[0], Units(cs[1..]), room);
      RoundTrip(cs[0], []);
      PutFits(Utf16(cs[0]), room);
      if |PutUtf(Utf16(cs[0]), 4)| <= room {
        EncodedName(cs[1..], room - |PutUtf(Utf16(cs[0]), 4)|);
      }
    }
  }

  lemma EncodedChar(c: nat, rest: seq<word>, room: nat)
    requires Scalar(c)
    ensures var b := PutUtf(Utf16(c), room);
            Encoded(UnitsOf(c) + rest, 0, room) ==
            if b == [] || |b| > room then None else Behind(b, Encoded(rest, 0, room - |b|))
  {
    hide PutUtf;
    var units := UnitsOf(c) + rest;
    if c < 0x1_0000 {
      assert units[1..] == rest;
    } else {
      assert units[1..][1..] == rest && IsSurrogate(units[0]);
    }
  }

  /** Decoding the UTF-8 form of a name gives its units back. */
  lemma {:induction false} DecodedName(cs: seq<nat>)
    requires IsName(cs)
    ensures Decoded(Utf8(cs)) == Some(Units(cs))
    decreases |cs|
  {
    if cs != [] {
      hide Decode, PutUtf;
      var b := PutUtf(Utf16(cs[0]), 4);
      RoundTrip(cs[0], Utf8(cs[1..]));
      DecodedName(cs[1..]);
      assert (b + Utf8(cs[1..]))[|b|..] == Utf8(cs[1..]);
    }
  }

  /** A name that comes out in UTF-8 is read back exactly. */
  lemma NameRoundTrip(cs: seq<nat>, room: nat)
    requires IsName(cs) && Encoded(Units(cs), 0, room).Some?
    ensures Decoded(Encoded(Units(cs), 0, room).value) == Some(Units(cs))
  {
    EncodedName(cs, room);
    DecodedName(cs);
  }

  /** Only well-paired names come out: each unit is a character of its own or half of a surrogate pair. */
  lemma {:induction false} EncodedPaired(units: seq<word>, hs: word, room: nat) returns (cs: seq<nat>)
    requires Encoded(units, hs, room).Some? && 0 !in units
    ensures IsName(cs) && Units(cs) == (if hs != 0 then [hs] else []) + units
    decreases |units|
  {
    hide PutUtf, Utf16;
    if units == [] {
      cs := [];
    } else if hs == 0 && IsSurrogate(units[0]) {
      cs := EncodedPaired(units[1..], units[0], room);
    } else {
      var chr: dword := hs as int * 0x1_0000 + units[0] as int;
      var b := PutUtf(chr, room);
      PutFits(chr, room);
      Writable(chr);
      var c :| Scalar(c) && Utf16(c) == chr;
      var rest := EncodedPaired(units[1..], 0, room - |b|);
      UnitsBack(c, hs, units[0]);
      cs := [c] + rest;
      assert cs[1..] == rest;
    }
  }

  lemma UnitsBack(c: nat, hs: word, w: word)
    requires Scalar(c) && w != 0 && Utf16(c) == hs as int * 0x1_0000 + w as int
    ensures c != 0 && UnitsOf(c) == if hs != 0 then [hs, w] else [w]
  {
    if c >= 0x1_0000 {
      Pair(c);
      assert Utf16(c) / 0x1_0000 == hs && Utf16(c) % 0x1_0000 == w;
    }
  }

  // ---- overlong forms ----

  /** The string starts with an overlong form: three bytes for a character below 0x800, or four below 0x10000. */
  predicate Overlong(s: seq<byte>)
  {
    (At(s, 0) == 0xE0 && At(s, 1) < 0xA0) || (At(s, 0) == 0xF0 && At(s, 1) < 0x90)
  }

  /** The bytes of an accepted multi-byte form are trailing bytes. */
  lemma {:induction false} TrailingByte(uc: nat, s: seq<byte>, i: nat, n: nat, k: nat)
    requires Trailing(uc, s, i, n) < 0x11_0000 && i <= k < i + n
    ensures k < |s| && s[k] / 0x40 == 2
    decreases n
  {
    if k > i {
      TrailingByte(uc * 0x40 + At(s, i) % 0x40, s, i + 1, n - 1, k);
    }
  }

  lemma TwoBytes(s: seq<byte>, c: nat)
    requires |s| >= 2 && s[0] / 0x20 == 6 && s[1] / 0x40 == 2 && c == (s[0] as int % 0x20) * 0x40 + (s[1] as int % 0x40)
    requires c >= 0x80
    ensures c < 0x800 && s[..2] == [0xC0 + c / 0x40, Trail(c)]
  {
  }

  lemma ThreeBytes(s: seq<byte>, c: nat)
    requires |s| >= 3 && s[0] / 0x10 == 14 && s[1] / 0x40 == 2 && s[2] / 0x40 == 2
    requires c == ((s[0] as int % 0x10) * 0x40 + (s[1] as int % 0x40)) * 0x40 + (s[2] as int % 0x40)
    ensures c < 0x1_0000 && (c < 0x800 <==> Overlong(s))
    ensures s[..3] == [0xE0 + c / 0x40 / 0x40, Trail(c / 0x40), Trail(c)]
  {
    var d := (s[0] as int % 0x10) * 0x40 + (s[1] as int % 0x40);
    assert c / 0x40 == d && c % 0x40 == (s[2] as int % 0x40);
    assert d / 0x40 == (s[0] as int % 0x10) && d % 0x40 == (s[1] as int % 0x40);
  }

  lemma FourBytes(s: seq<byte>, c: nat)
    requires |s| >= 4 && s[0] / 0x08 == 30 && s[1] / 0x40 == 2 && s[2] / 0x40 == 2 && s[3] / 0x40 == 2
    requires c == (((s[0] as int % 0x08) * 0x40 + (s[1] as int % 0x40)) * 0x40 + (s[2] as int % 0x40)) * 0x40
             + (s[3] as int % 0x40)
    ensures c < 0x1_0000 <==> Overlong(s)
    ensures s[..4] == [0xF0 + c / 0x40 / 0x40 / 0x40, Trail(c / 0x40 / 0x40), Trail(c / 0x40), Trail(c)]
  {
    var d := (s[0] as int % 0x08) * 0x40 + (s[1] as int % 0x40);
    var e := d * 0x40 + (s[2] as int % 0x40);
    assert c / 0x40 == e && c % 0x40 == (s[3] as int % 0x40);
    assert e / 0x40 == d && e % 0x40 == (s[2] as int % 0x40);
    assert d / 0x40 == (s[0] as int % 0x08) && d % 0x40 == (s[1] as int % 0x40);
  }

  lemma TwoForm(s: seq<byte>, c: nat)
    requires s != [] && s[0] / 0x20 == 6 && c == Trailing(s[0] as int % 0x20, s, 1, 1) && 0x80 <= c < 0x11_0000
    ensures |s| >= 2 && c < 0x800 && s[..2] == [0xC0 + c / 0x40, Trail(c)]
  {
    hide Trail;
    TrailingByte(s[0] as int % 0x20, s, 1, 1, 1);
    assert c == Trailing((s[0] as int % 0x20) * 0x40 + s[1] as int % 0x40, s, 2, 0);
    TwoBytes(s, c);
  }

  lemma ThreeForm(s: seq<byte>, c: nat)
    requires s != [] && s[0] / 0x10 == 14 && c == Trailing(s[0] as int % 0x10, s, 1, 2) && c < 0x11_0000
    ensures |s| >= 3 && c < 0x1_0000 && (c < 0x800 <==> Overlong(s))
    ensures s[..3] == [0xE0 + c / 0x40 / 0x40, Trail(c / 0x40), Trail(c)]
  {
    hide Trail;
    var bits := s[0] as int % 0x10;
    TrailingByte(bits, s, 1, 2, 1);
    TrailingByte(bits, s, 1, 2, 2);
    assert c == Trailing(bits * 0x40 + s[1] as int % 0x40, s, 2, 1)
        == Trailing((bits * 0x40 + s[1] as int % 0x40) * 0x40 + s[2] as int % 0x40, s, 3, 0);
    ThreeBytes(s, c);
  }

  lemma FourForm(s: seq<byte>, c: nat)
    requires s != [] && s[0] / 0x08 == 30 && c == Trailing(s[0] as int % 0x08, s, 1, 3) && c < 0x11_0000
    ensures |s| >= 4 && (c < 0x1_0000 <==> Overlong(s))
    ensures s[..4] == [0xF0 + c / 0x40 / 0x40 / 0x40, Trail(c / 0x40 / 0x40), Trail(c / 0x40), Trail(c)]
  {
    hide Trail;
    var bits := s[0] as int % 0x08;
    TrailingByte(bits, s, 1, 3, 1);
    TrailingByte(bits, s, 1, 3, 2);
    TrailingByte(bits, s, 1, 3, 3);
    assert c == Trailing(bits * 0x40 + s[1] as int % 0x40, s, 2, 2)
        == Trailing((bits * 0x40 + s[1] as int % 0x40) * 0x40 + s[2] as int % 0x40, s, 3, 1)
        == Trailing(((bits * 0x40 + s[1] as int % 0x40) * 0x40 + s[2] as int % 0x40) * 0x40 + s[3] as int % 0x40,
                    s, 4, 0);
    FourBytes(s, c);
  }

  /**
    An accepted decode consumed the form of section 3 of RFC 3629, the one put_utf writes, if and only if the
    string does not start with an overlong form.
   */
  lemma ShortestForm(s: seq<byte>)
    requires s != [] && Decode(s).0 != WRONG
    ensures Decode(s).1 <= |s|
    ensures PutUtf(Decode(s).0, 4) == s[..Decode(s).1] <==> !Overlong(s)
  {
    hide PutUtf, Utf16, Checked, Trail, Trailing;
    if s[0] < 0x80 {
      Basic(s[0]);
      WrittenTrails(s[0]);
      assert s[..1] == [s[0]];
    } else {
      var (bits, n) := Lead(s[0]);
      var c := Trailing(bits, s, 1, n);
      CheckedScalar(c);
      WrittenTrails(c);
      if n == 1 {
        TwoForm(s, c);
      } else if n == 2 {
        ThreeForm(s, c);
      } else {
        FourForm(s, c);
      }
    }
  }

  /** Overlong forms are read: a character below 0x800 in three bytes, which section 3 of RFC 3629 forbids. */
  lemma OverlongRead(c: nat)
    requires 0x80 <= c < 0x800
    ensures var s: seq<byte> := [0xE0, Trail(c / 0x40), Trail(c)];
            Decode(s) == (c, 3) && PutUtf(c, 4) != s
  {
    hide Trail;
    var s: seq<byte> := [0xE0, Trail(c / 0x40), Trail(c)];
    TrailBits(c / 0x40, s, 1, 2);
    TrailBits(c, s, 2, 1);
    assert c / 0x40 / 0x40 == 0;
    Done(c, s, 3, 0, 2);
  }

  /** The same with a character below 0x10000 in four bytes. */
  lemma OverlongRead4(c: nat)
    requires 0x80 <= c < 0x1_0000 && Scalar(c)
    ensures var s: seq<byte> := [0xF0, Trail(c / 0x40 / 0x40), Trail(c / 0x40), Trail(c)];
            Decode(s) == (c, 4) && PutUtf(c, 4) != s
  {
    hide Trail;
    var s: seq<byte> := [0xF0, Trail(c / 0x40 / 0x40), Trail(c / 0x40), Trail(c)];
    TrailBits(c / 0x40 / 0x40, s, 1, 3);
    TrailBits(c / 0x40, s, 2, 2);
    TrailBits(c, s, 3, 1);
    assert c / 0x40 / 0x40 / 0x40 == 0;
    Done(c, s, 4, 0, 3);
  }
}
