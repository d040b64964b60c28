/**
 The two CMAC subkeys: the code derives them in 64-bit words.  The references are Generate_Subkey of
 section 2.3 of RFC 4493 on bytes, and multiplication by u in GF(2^n): shift the polynomial left
 and, if it got a term u^n, add the reduction polynomial.
 */
module CmacKeys {
  import opened Bytes
  import opened Cbc
  import Cmac
  import CbcMac
  import Arith

  function Carry(x: bv8): bv8 { x >> 7 }

  function Shifted(x: bv8, carry: bv8): bv8 { (x << 1) | carry }

  /** A byte string shifted left by one bit, with `carry` coming in. */
  function Shl(b: Bytes, carry: bv8): (r: Bytes)
    ensures |r| == |b|
  {
    seq(|b|, i requires 0 <= i < |b| => Shifted(b[i], if i + 1 < |b| then Carry(b[i + 1]) else carry))
  }

  /** Steps 2 and 3 of Generate_Subkey: shifted, with the constant XORed into the last byte if a bit got lost. */
  function Doubled(b: Bytes, rb: bv8): (r: Bytes)
    requires 0 < |b|
    ensures |r| == |b|
  {
    var s := Shl(b, 0);
    if Carry(b[0]) == 1 then s[|b| - 1 := s[|b| - 1] ^ rb] else s
  }

  function Rb(size: nat): bv8 { if size == 16 then 0x87 else 0x1B }

  function Subkeys(c: Cipher): (k: (Bytes, Bytes))
    requires c.Valid()
    ensures |k.0| == |k.1| == c.size
  {
    var k1 := Doubled(c.enc(Zeros(c.size)), Rb(c.size));
    (k1, Doubled(k1, Rb(c.size)))
  }

  /** How many bytes of an m-byte message its last block has: a whole block unless m is 0 or the block is cut short. */
  function LastSize(m: nat, size: nat): (n: nat)
    requires 0 < size
    ensures n <= m && n <= size
  {
    if m > 0 && m % size == 0 then AtLeastOne(m, size); size else Arith.ModBelow(m, size); m % size
  }

  lemma AtLeastOne(m: nat, size: nat)
    requires 0 < size && m > 0 && m % size == 0
    ensures size <= m
  {
    if m < size {
      Arith.ModUnique(m, 0, size, m);
    }
  }

  /** The last block as CMAC gives it to CBC: a whole one is XORed with k1, a short one is padded and XORed with k2. */
  function LastBlock(k1: Bytes, k2: Bytes, t: Bytes, size: nat): (b: Bytes)
    requires |t| <= size && |k1| == |k2| == size
    ensures |b| == size
  {
    if |t| == size then Xor(t, k1) else Xor(t + [0x80] + Zeros(size - |t| - 1), k2)
  }

  lemma LastBlockStart(m: nat, size: nat)
    requires 0 < size
    ensures Cmac.LastBlockAt(m, size) == m - LastSize(m, size) && Whole(m - LastSize(m, size), size) == m - LastSize(m, size)
  {
    hide Whole;
    Cmac.StartIsWhole(m, size);
    if m > 0 {
      WholeIsMod(m - 1, size);
      var q, r := (m - 1) / size, (m - 1) % size;
      if r == size - 1 {
        Arith.MulMinus(q, -1, size);
        Arith.ModUnique(m, q + 1, size, 0);
      } else {
        Arith.ModUnique(m, q, size, r + 1);
      }
    }
  }

  /** CMAC is the last block of a CBC encryption with a zero IV of the message with that last block. */
  lemma OneShotIsLastCbcBlock(c: Cipher, k1: Bytes, k2: Bytes, m: Bytes)
    requires c.Valid() && |k1| == |k2| == c.size
    ensures var o := |m| - LastSize(|m|, c.size);
            var q := Encrypted(c, Zeros(c.size), m[..o] + LastBlock(k1, k2, m[o..], c.size));
            c.size <= |q| && Cmac.OneShot(c, k1, k2, m) == q[|q| - c.size..]
  {
    hide Xor, Encrypted, Whole, Cmac.Absorbed, LastSize, Cmac.LastBlockAt;
    LastBlockStart(|m|, c.size);
    var o := |m| - LastSize(|m|, c.size);
    var z, b := Zeros(c.size), LastBlock(k1, k2, m[o..], c.size);
    EncryptedSnoc(c, z, m[..o], b);
    CbcMac.AbsorbedIsLastBlock(c, z, m[..o]);
    XorComm(Chain(c.size, z, Encrypted(c, z, m[..o])), b);
  }

  /** AES-CMAC of section 2.4 of RFC 4493, subkeys included, for any cipher. */
  function AesCmac(c: Cipher, m: Bytes): Bytes
    requires c.Valid()
  {
    Cmac.OneShot(c, Subkeys(c).0, Subkeys(c).1, m)
  }

  /** r is v times u modulo u^128 + u^7 + u^2 + u + 1; one more bit holds the product before it is reduced. */
  predicate IsTimesU128(v: bv128, r: bv128) {
    (r as bv129) == if ((v as bv129) << 1) >> 128 == 1 then ((v as bv129) << 1) ^ 0x1_00000000_00000000_00000000_00000087 else (v as bv129) << 1
  }

  /** r is v times u modulo u^64 + u^4 + u^3 + u + 1. */
  predicate IsTimesU64(v: bv64, r: bv64) {
    (r as bv65) == if ((v as bv65) << 1) >> 64 == 1 then ((v as bv65) << 1) ^ 0x1_00000000_0000001B else (v as bv65) << 1
  }

  /** The 128-bit number whose big-endian words are hi and lo. */
  function Join(hi: bv64, lo: bv64): bv128 { ((hi as bv128) << 64) | (lo as bv128) }

  /** ((s64)x >> 63) & gfmask */
  function MsbMask(x: bv64, gfmask: bv64): bv64 { if x >> 63 == 1 then gfmask else 0 }

  /** The two halves of `(l << 1) ^ msb_mask`. */
  function DoubleHi(hi: bv64, lo: bv64): bv64 { (hi << 1) | (lo >> 63) }
  function DoubleLo(lo: bv64, mask: bv64): bv64 { (lo << 1) ^ mask }

  // The bits, without the functions.

  lemma Bits128(hi: bv64, lo: bv64, v: bv128, h: bv64, l: bv64, r: bv128)
    requires v == ((hi as bv128) << 64) | (lo as bv128)
    requires h == (hi << 1) | (lo >> 63)
    requires l == (lo << 1) ^ (if hi >> 63 == 1 then 0x87 else 0)
    requires r == ((h as bv128) << 64) | (l as bv128)
    ensures (r as bv129) == if ((v as bv129) << 1) >> 128 == 1 then ((v as bv129) << 1) ^ 0x1_00000000_00000000_00000000_00000087 else (v as bv129) << 1
  {
  }

  lemma Bits64(v: bv64, r: bv64)
    requires r == (v << 1) ^ (if v >> 63 == 1 then 0x1B else 0)
    ensures (r as bv65) == if ((v as bv65) << 1) >> 64 == 1 then ((v as bv65) << 1) ^ 0x1_00000000_0000001B else (v as bv65) << 1
  {
  }

  lemma Lift128(v: bv128, r: bv128)
    requires (r as bv129) == if ((v as bv129) << 1) >> 128 == 1 then ((v as bv129) << 1) ^ 0x1_00000000_00000000_00000000_00000087 else (v as bv129) << 1
    ensures IsTimesU128(v, r)
  {
  }

  lemma Lift64(v: bv64, r: bv64)
    requires (r as bv65) == if ((v as bv65) << 1) >> 64 == 1 then ((v as bv65) << 1) ^ 0x1_00000000_0000001B else (v as bv65) << 1
    ensures IsTimesU64(v, r)
  {
  }

  lemma Doubled128(hi: bv64, lo: bv64, v: bv128, h: bv64, l: bv64, r: bv128)
    requires v == ((hi as bv128) << 64) | (lo as bv128)
    requires h == (hi << 1) | (lo >> 63)
    requires l == (lo << 1) ^ (if hi >> 63 == 1 then 0x87 else 0)
    requires r == ((h as bv128) << 64) | (l as bv128)
    ensures IsTimesU128(v, r)
  {
    hide IsTimesU128;
    Bits128(hi, lo, v, h, l, r);
    Lift128(v, r);
  }

  lemma Doubled64(v: bv64, mask: bv64, r: bv64)
    requires mask == if v >> 63 == 1 then 0x1B else 0
    requires r == (v << 1) ^ mask
    ensures IsTimesU64(v, r)
  {
    hide IsTimesU64;
    Bits64(v, r);
    Lift64(v, r);
  }

  lemma Double128(hi: bv64, lo: bv64)
    ensures IsTimesU128(Join(hi, lo), Join(DoubleHi(hi, lo), DoubleLo(lo, MsbMask(hi, 0x87))))
  {
    hide IsTimesU128;
    var h, l := DoubleHi(hi, lo), DoubleLo(lo, MsbMask(hi, 0x87));
    Doubled128(hi, lo, Join(hi, lo), h, l, Join(h, l));
  }

  lemma Double64(v: bv64)
    ensures IsTimesU64(v, DoubleLo(v, MsbMask(v, 0x1B)))
  {
    hide IsTimesU64;
    var mask := MsbMask(v, 0x1B);
    Doubled64(v, mask, DoubleLo(v, mask));
  }

  // ----- words and bytes -----

  /** cpu_to_be64, as the bytes in memory. */
  function BytesOf(w: bv64): (r: Bytes)
    ensures |r| == 8
  {
    [((w >> 56) & 0xff) as bv8, ((w >> 48) & 0xff) as bv8, ((w >> 40) & 0xff) as bv8, ((w >> 32) & 0xff) as bv8,
     ((w >> 24) & 0xff) as bv8, ((w >> 16) & 0xff) as bv8, ((w >> 8) & 0xff) as bv8, (w & 0xff) as bv8]
  }

  /** be64_to_cpu */
  function Word(b: Bytes): bv64
    requires |b| == 8
  {
    ((b[0] as bv64) << 56) | ((b[1] as bv64) << 48) | ((b[2] as bv64) << 40) | ((b[3] as bv64) << 32) | ((b[4] as bv64) << 24) | ((b[5] as bv64) << 16) | ((b[6] as bv64) << 8) | (b[7] as bv64)
  }

  lemma WordBits(a: bv8, b: bv8, c: bv8, d: bv8, e: bv8, f: bv8, g: bv8, h: bv8, w: bv64)
    requires w == ((a as bv64) << 56) | ((b as bv64) << 48) | ((c as bv64) << 40) | ((d as bv64) << 32) | ((e as bv64) << 24) | ((f as bv64) << 16) | ((g as bv64) << 8) | (h as bv64)
    ensures ((w >> 56) & 0xff) as bv8 == a && ((w >> 48) & 0xff) as bv8 == b
    ensures ((w >> 40) & 0xff) as bv8 == c && ((w >> 32) & 0xff) as bv8 == d
    ensures ((w >> 24) & 0xff) as bv8 == e && ((w >> 16) & 0xff) as bv8 == f
    ensures ((w >> 8) & 0xff) as bv8 == g && (w & 0xff) as bv8 == h
  {
  }

  lemma BytesBits(w: bv64)
    ensures w == (((((w >> 56) & 0xff) as bv8) as bv64) << 56) | (((((w >> 48) & 0xff) as bv8) as bv64) << 48) | (((((w >> 40) & 0xff) as bv8) as bv64) << 40) | (((((w >> 32) & 0xff) as bv8) as bv64) << 32) | (((((w >> 24) & 0xff) as bv8) as bv64) << 24) | (((((w >> 16) & 0xff) as bv8) as bv64) << 16) | (((((w >> 8) & 0xff) as bv8) as bv64) << 8) | (((w & 0xff) as bv8) as bv64)
  {
  }

  lemma WordIs(s: Bytes, a: bv8, b: bv8, c: bv8, d: bv8, e: bv8, f: bv8, g: bv8, h: bv8)
    requires s == [a, b, c, d, e, f, g, h]
    ensures Word(s) == ((a as bv64) << 56) | ((b as bv64) << 48) | ((c as bv64) << 40) | ((d as bv64) << 32) | ((e as bv64) << 24) | ((f as bv64) << 16) | ((g as bv64) << 8) | (h as bv64)
  {
  }

  lemma BytesAre(s: Bytes, a: bv8, b: bv8, c: bv8, d: bv8, e: bv8, f: bv8, g: bv8, h: bv8, w: bv64)
    requires s == [a, b, c, d, e, f, g, h]
    requires ((w >> 56) & 0xff) as bv8 == a && ((w >> 48) & 0xff) as bv8 == b
    requires ((w >> 40) & 0xff) as bv8 == c && ((w >> 32) & 0xff) as bv8 == d
    requires ((w >> 24) & 0xff) as bv8 == e && ((w >> 16) & 0xff) as bv8 == f
    requires ((w >> 8) & 0xff) as bv8 == g && (w & 0xff) as bv8 == h
    ensures BytesOf(w) == s
  {
  }

  lemma EightBytes(a: bv8, b: bv8, c: bv8, d: bv8, e: bv8, f: bv8, g: bv8, h: bv8)
    ensures BytesOf(Word([a, b, c, d, e, f, g, h])) == [a, b, c, d, e, f, g, h]
  {
    hide Word, BytesOf;
    var s := [a, b, c, d, e, f, g, h];
    WordIs(s, a, b, c, d, e, f, g, h);
    WordBits(a, b, c, d, e, f, g, h, Word(s));
    BytesAre(s, a, b, c, d, e, f, g, h, Word(s));
  }

  lemma BytesOfWord(b: Bytes)
    requires |b| == 8
    ensures BytesOf(Word(b)) == b
  {
    hide Word, BytesOf;
    assert b == [b[0], b[1], b[2], b[3], b[4], b[5], b[6], b[7]];
    EightBytes(b[0], b[1], b[2], b[3], b[4], b[5], b[6], b[7]);
  }

  lemma WordOfBytes(w: bv64)
    ensures Word(BytesOf(w)) == w
  {
    BytesBits(w);
  }

  lemma EightOf(w: bv64) returns (a: bv8, b: bv8, c: bv8, d: bv8, e: bv8, f: bv8, g: bv8, h: bv8)
    ensures BytesOf(w) == [a, b, c, d, e, f, g, h]
    ensures ((w >> 56) & 0xff) as bv8 == a && ((w >> 48) & 0xff) as bv8 == b
    ensures ((w >> 40) & 0xff) as bv8 == c && ((w >> 32) & 0xff) as bv8 == d
    ensures ((w >> 24) & 0xff) as bv8 == e && ((w >> 16) & 0xff) as bv8 == f
    ensures ((w >> 8) & 0xff) as bv8 == g && (w & 0xff) as bv8 == h
  {
    a := ((w >> 56) & 0xff) as bv8;
    b := ((w >> 48) & 0xff) as bv8;
    c := ((w >> 40) & 0xff) as bv8;
    d := ((w >> 32) & 0xff) as bv8;
    e := ((w >> 24) & 0xff) as bv8;
    f := ((w >> 16) & 0xff) as bv8;
    g := ((w >> 8) & 0xff) as bv8;
    h := (w & 0xff) as bv8;
  }

  // The operators of the loop, named so that the proofs about byte strings can leave them alone.

  function ShiftIn(w: bv64, n: bv64): bv64 { (w << 1) | n }

  function Masked(w: bv64, mask: bv64): bv64 { w ^ mask }

  lemma ShiftEight(w: bv64, n: bv64, v: bv64, m: bv8, a: bv8, b: bv8, c: bv8, d: bv8, e: bv8, f: bv8, g: bv8, h: bv8)
    requires n <= 1 && v == (w << 1) | n && m == n as bv8
    requires ((w >> 56) & 0xff) as bv8 == a && ((w >> 48) & 0xff) as bv8 == b
    requires ((w >> 40) & 0xff) as bv8 == c && ((w >> 32) & 0xff) as bv8 == d
    requires ((w >> 24) & 0xff) as bv8 == e && ((w >> 16) & 0xff) as bv8 == f
    requires ((w >> 8) & 0xff) as bv8 == g && (w & 0xff) as bv8 == h
    ensures ((v >> 56) & 0xff) as bv8 == (a << 1) | (b >> 7) && ((v >> 48) & 0xff) as bv8 == (b << 1) | (c >> 7)
    ensures ((v >> 40) & 0xff) as bv8 == (c << 1) | (d >> 7) && ((v >> 32) & 0xff) as bv8 == (d << 1) | (e >> 7)
    ensures ((v >> 24) & 0xff) as bv8 == (e << 1) | (f >> 7) && ((v >> 16) & 0xff) as bv8 == (f << 1) | (g >> 7)
    ensures ((v >> 8) & 0xff) as bv8 == (g << 1) | (h >> 7) && (v & 0xff) as bv8 == (h << 1) | m
  {
  }

  lemma ShlEight(m: bv8, a: bv8, b: bv8, c: bv8, d: bv8, e: bv8, f: bv8, g: bv8, h: bv8)
    ensures Shl([a, b, c, d, e, f, g, h], m)
         == [Shifted(a, Carry(b)), Shifted(b, Carry(c)), Shifted(c, Carry(d)), Shifted(d, Carry(e)),
             Shifted(e, Carry(f)), Shifted(f, Carry(g)), Shifted(g, Carry(h)), Shifted(h, m)]
  {
    hide Shifted, Carry;
    var s := [a, b, c, d, e, f, g, h];
    var r := Shl(s, m);
    ShlAt(s, m, r);
    assert r == [r[0], r[1], r[2], r[3], r[4], r[5], r[6], r[7]];
  }

  lemma ShlAt(s: Bytes, m: bv8, r: Bytes)
    requires |s| == 8 && r == Shl(s, m)
    ensures r[0] == Shifted(s[0], Carry(s[1])) && r[1] == Shifted(s[1], Carry(s[2])) && r[2] == Shifted(s[2], Carry(s[3]))
    ensures r[3] == Shifted(s[3], Carry(s[4])) && r[4] == Shifted(s[4], Carry(s[5])) && r[5] == Shifted(s[5], Carry(s[6]))
    ensures r[6] == Shifted(s[6], Carry(s[7])) && r[7] == Shifted(s[7], m)
  {
    hide Shifted, Carry;
  }

  lemma ShiftedIs(x: bv8, y: bv8, m: bv8)
    ensures Shifted(x, Carry(y)) == (x << 1) | (y >> 7)
    ensures Shifted(x, m) == (x << 1) | m
  {
  }

  lemma ShiftInIs(w: bv64, n: bv64)
    ensures ShiftIn(w, n) == (w << 1) | n
  {
  }

  /** A word shifted left by one bit, n coming in, as byte strings. */
  lemma ShiftedBytes(w: bv64, n: bv64)
    requires n <= 1
    ensures BytesOf(ShiftIn(w, n)) == Shl(BytesOf(w), n as bv8)
  {
    hide BytesOf, Shl, ShiftIn, Shifted, Carry;
    var v, m := ShiftIn(w, n), n as bv8;
    ShiftInIs(w, n);
    var a, b, c, d, e, f, g, h := EightOf(w);
    ShiftEight(w, n, v, m, a, b, c, d, e, f, g, h);
    ShlEight(m, a, b, c, d, e, f, g, h);
    ShiftedIs(a, b, m);
    ShiftedIs(b, c, m);
    ShiftedIs(c, d, m);
    ShiftedIs(d, e, m);
    ShiftedIs(e, f, m);
    ShiftedIs(f, g, m);
    ShiftedIs(g, h, m);
    ShiftedIs(h, h, m);
    BytesAre([Shifted(a, Carry(b)), Shifted(b, Carry(c)), Shifted(c, Carry(d)), Shifted(d, Carry(e)),
             Shifted(e, Carry(f)), Shifted(f, Carry(g)), Shifted(g, Carry(h)), Shifted(h, m)],
             Shifted(a, Carry(b)), Shifted(b, Carry(c)), Shifted(c, Carry(d)), Shifted(d, Carry(e)),
             Shifted(e, Carry(f)), Shifted(f, Carry(g)), Shifted(g, Carry(h)), Shifted(h, m), v);
  }

  lemma MaskBits(w: bv64, mask: bv64, v: bv64, a: bv8, b: bv8, c: bv8, d: bv8, e: bv8, f: bv8, g: bv8, h: bv8)
    requires mask <= 0xff && v == w ^ mask
    requires ((w >> 56) & 0xff) as bv8 == a && ((w >> 48) & 0xff) as bv8 == b
    requires ((w >> 40) & 0xff) as bv8 == c && ((w >> 32) & 0xff) as bv8 == d
    requires ((w >> 24) & 0xff) as bv8 == e && ((w >> 16) & 0xff) as bv8 == f
    requires ((w >> 8) & 0xff) as bv8 == g && (w & 0xff) as bv8 == h
    ensures ((v >> 56) & 0xff) as bv8 == a && ((v >> 48) & 0xff) as bv8 == b
    ensures ((v >> 40) & 0xff) as bv8 == c && ((v >> 32) & 0xff) as bv8 == d
    ensures ((v >> 24) & 0xff) as bv8 == e && ((v >> 16) & 0xff) as bv8 == f
    ensures ((v >> 8) & 0xff) as bv8 == g && (v & 0xff) as bv8 == h ^ (mask as bv8)
  {
  }

  lemma MaskedIs(w: bv64, mask: bv64)
    ensures Masked(w, mask) == w ^ mask && Masked(w, 0) == w
  {
  }

  lemma LastOfEight(a: bv8, b: bv8, c: bv8, d: bv8, e: bv8, f: bv8, g: bv8, h: bv8, x: bv8)
    ensures [a, b, c, d, e, f, g, h][7 := x] == [a, b, c, d, e, f, g, x]
  {
  }

  lemma MaskedBytes(w: bv64, mask: bv64)
    requires mask <= 0xff
    ensures BytesOf(Masked(w, mask)) == BytesOf(w)[7 := BytesOf(w)[7] ^ (mask as bv8)]
  {
    hide BytesOf, Masked;
    var v, m := Masked(w, mask), mask as bv8;
    MaskedIs(w, mask);
    var a, b, c, d, e, f, g, h := EightOf(w);
    MaskBits(w, mask, v, a, b, c, d, e, f, g, h);
    var x := h ^ m;
    BytesAre([a, b, c, d, e, f, g, x], a, b, c, d, e, f, g, x, v);
    LastOfEight(a, b, c, d, e, f, g, h, x);
  }

  /** The bit that a shift loses, and the one that it hands to the next word. */
  function Top(w: bv64): bv64 { w >> 63 }

  lemma TopBits(w: bv64)
    ensures w >> 63 <= 1 && (w >> 63) as bv8 == (((w >> 56) & 0xff) as bv8) >> 7
    ensures w >> 63 == 1 <==> (((w >> 56) & 0xff) as bv8) >> 7 == 1
  {
  }

  lemma TopByte(w: bv64)
    ensures Top(w) <= 1 && Top(w) as bv8 == Carry(BytesOf(w)[0])
    ensures Top(w) == 1 <==> Carry(BytesOf(w)[0]) == 1
  {
    TopBits(w);
  }

  // What the loop computes, by the names.

  lemma NamedHi(hi: bv64, lo: bv64)
    ensures DoubleHi(hi, lo) == ShiftIn(hi, Top(lo))
  {
  }

  lemma NoBit(w: bv64)
    ensures w << 1 == (w << 1) | 0
  {
  }

  lemma NamedLo(lo: bv64, gfmask: bv64)
    ensures DoubleLo(lo, gfmask) == Masked(ShiftIn(lo, 0), gfmask)
  {
    NoBit(lo);
  }

  lemma NamedMask(hi: bv64, gfmask: bv64)
    ensures MsbMask(hi, gfmask) == if Top(hi) == 1 then gfmask else 0
  {
  }

  /** The last word. */
  lemma LastWord(w: bv64, top: bool, mask: bv64)
    requires mask <= 0xff
    ensures var s := Shl(BytesOf(w), 0);
            BytesOf(DoubleLo(w, if top then mask else 0)) == if top then s[7 := s[7] ^ (mask as bv8)] else s
  {
    hide BytesOf, Shl, DoubleLo, DoubleHi, MsbMask, ShiftIn, Masked, Top;
    NamedLo(w, mask);
    NamedLo(w, 0);
    ShiftedBytes(w, 0);
    MaskedIs(ShiftIn(w, 0), mask);
    MaskedBytes(ShiftIn(w, 0), mask);
  }

  lemma ShlConcat(a: Bytes, b: Bytes, carry: bv8)
    requires 0 < |b|
    ensures Shl(a + b, carry) == Shl(a, Carry(b[0])) + Shl(b, carry)
  {
    hide Shifted, Carry;
  }

  /** The words of the 16-byte branch are the doubled bytes. */
  lemma DoubledWords(hi: bv64, lo: bv64)
    ensures Doubled(BytesOf(hi) + BytesOf(lo), 0x87) == BytesOf(DoubleHi(hi, lo)) + BytesOf(DoubleLo(lo, MsbMask(hi, 0x87)))
  {
    hide BytesOf, Shl, Carry, DoubleLo, DoubleHi, MsbMask, ShiftIn, Masked, Top;
    TopByte(hi);
    TopByte(lo);
    NamedHi(hi, lo);
    NamedMask(hi, 0x87);
    ShlConcat(BytesOf(hi), BytesOf(lo), 0);
    ShiftedBytes(hi, Top(lo));
    LastWord(lo, Top(hi) == 1, 0x87);
    SetLast(BytesOf(DoubleHi(hi, lo)), Shl(BytesOf(lo), 0), 0x87);
  }

  lemma SetLast(a: Bytes, b: Bytes, m: bv8)
    requires |a| == |b| == 8
    ensures (a + b)[15 := (a + b)[15] ^ m] == a + b[7 := b[7] ^ m]
  {
  }

  /** The word of the 8-byte branch is. */
  lemma DoubledWord(w: bv64)
    ensures Doubled(BytesOf(w), 0x1B) == BytesOf(DoubleLo(w, MsbMask(w, 0x1B)))
  {
    hide BytesOf, Shl, Carry, DoubleLo, DoubleHi, MsbMask, ShiftIn, Masked, Top;
    TopByte(w);
    NamedMask(w, 0x1B);
    LastWord(w, Top(w) == 1, 0x1B);
  }

  /** What Doubled means in GF(2^128), for the big-endian number that the bytes are. */
  lemma DoubledIsTimesU(b: Bytes)
    requires |b| == 16
    ensures var r := Doubled(b, 0x87);
            IsTimesU128(Join(Word(b[..8]), Word(b[8..])), Join(Word(r[..8]), Word(r[8..])))
  {
    hide BytesOf, Word, Doubled, IsTimesU128, Join, DoubleHi, DoubleLo, MsbMask;
    var hi, lo := Word(b[..8]), Word(b[8..]);
    BytesOfWord(b[..8]);
    BytesOfWord(b[8..]);
    assert b == b[..8] + b[8..];
    DoubledWords(hi, lo);
    var h, l := DoubleHi(hi, lo), DoubleLo(lo, MsbMask(hi, 0x87));
    var r := Doubled(b, 0x87);
    assert r[..8] == BytesOf(h) && r[8..] == BytesOf(l);
    WordOfBytes(h);
    WordOfBytes(l);
    Double128(hi, lo);
  }

  // ----- the key -----

  /** One turn of the 16-byte branch, from the words c1, c0 of a string l to the bytes of the next. */
  lemma DoubleTurn(l: Bytes, c1: bv64, c0: bv64)
    requires |l| == 16 && l == BytesOf(c1) + BytesOf(c0)
    ensures Doubled(l, 0x87) == BytesOf(DoubleHi(c1, c0)) + BytesOf(DoubleLo(c0, MsbMask(c1, 0x87)))
  {
    hide BytesOf, Doubled, DoubleHi, DoubleLo, MsbMask;
    DoubledWords(c1, c0);
  }

  /** The 16-byte branch of crypto_cmac_digest_setkey, from the encrypted zero block at the front of consts on. */
  method Consts128(consts: array<bv8>)
    requires consts.Length == 32
    modifies consts
    ensures var l := old(consts[..16]);
            consts[..] == Doubled(l, 0x87) + Doubled(Doubled(l, 0x87), 0x87)
  {
    hide BytesOf, Word, Doubled, DoubleHi, DoubleLo, MsbMask;
    ghost var l := consts[..16];
    var c0, c1 := Word(consts[8..16]), Word(consts[0..8]);
    assert consts[8..16] == l[8..] && consts[0..8] == l[..8];
    BytesOfWord(l[..8]);
    BytesOfWord(l[8..]);
    assert l == BytesOf(c1) + BytesOf(c0);
    var i := 0;
    ghost var k := l;
    while i < 4
      invariant i == 0 || i == 2 || i == 4
      invariant |k| == 16 && k == BytesOf(c1) + BytesOf(c0)
      invariant i == 0 ==> k == l
      invariant i >= 2 ==> consts[..16] == Doubled(l, 0x87)
      invariant i == 2 ==> k == Doubled(l, 0x87)
      invariant i == 4 ==> consts[16..] == Doubled(Doubled(l, 0x87), 0x87)
    {
      DoubleTurn(k, c1, c0);
      k := Doubled(k, 0x87);
      var msbMask := MsbMask(c1, 0x87);
      c1 := DoubleHi(c1, c0);
      c0 := DoubleLo(c0, msbMask);
      PutWords(consts, 8 * i, c1, c0);
      i := i + 2;
    }
    assert consts[..] == consts[..16] + consts[16..];
  }

  /** Two words are stored. */
  method PutWords(consts: array<bv8>, at: nat, hi: bv64, lo: bv64)
    requires consts.Length == 32 && (at == 0 || at == 16)
    modifies consts
    ensures consts[at..at + 16] == BytesOf(hi) + BytesOf(lo)
    ensures at == 16 ==> consts[..16] == old(consts[..16])
  {
    hide BytesOf;
    Put(consts, at, BytesOf(hi) + BytesOf(lo));
  }

  /** The 8-byte branch. */
  method Consts64(consts: array<bv8>)
    requires consts.Length == 16
    modifies consts
    ensures var l := old(consts[..8]);
            consts[..] == Doubled(l, 0x1B) + Doubled(Doubled(l, 0x1B), 0x1B)
  {
    hide BytesOf, Word, Doubled, DoubleLo, MsbMask;
    ghost var l := consts[..8];
    var c0 := Word(consts[..8]);
    BytesOfWord(l);
    ghost var k := l;
    for i := 0 to 2
      invariant |k| == 8 && k == BytesOf(c0)
      invariant i == 0 ==> k == l
      invariant i >= 1 ==> consts[..8] == Doubled(l, 0x1B)
      invariant i == 1 ==> k == Doubled(l, 0x1B)
      invariant i == 2 ==> consts[8..] == Doubled(Doubled(l, 0x1B), 0x1B)
    {
      DoubledWord(c0);
      k := Doubled(k, 0x1B);
      var msbMask := MsbMask(c0, 0x1B);
      c0 := DoubleLo(c0, msbMask);
      Put(consts, 8 * i, BytesOf(c0));
    }
    assert consts[..] == consts[..8] + consts[8..];
  }

  method PutFront(a: array<bv8>, x: Bytes)
    requires |x| <= a.Length
    modifies a
    ensures a[..|x|] == x
  {
    Put(a, 0, x);
  }

  /** crypto_cmac_digest_setkey, for the cipher c under the key: consts gets the two subkeys. */
  method SetKey(c: Cipher, consts: array<bv8>)
    requires c.Valid() && (c.size == 16 || c.size == 8) && consts.Length == 2 * c.size
    modifies consts
    ensures consts[..] == Subkeys(c).0 + Subkeys(c).1
  {
    hide Doubled;
    var bs := c.size;
    PutFront(consts, Zeros(bs));
    PutFront(consts, c.enc(consts[..bs]));
    if bs == 16 {
      Consts128(consts);
    } else {
      Consts64(consts);
    }
  }

  /** setkey, init, update with each piece, final. */
  method Digest(c: Cipher, consts: array<bv8>, pieces: seq<Bytes>) returns (out: Bytes)
    requires c.Valid() && (c.size == 16 || c.size == 8) && consts.Length == 2 * c.size
    modifies consts
    ensures out == AesCmac(c, Joined(pieces))
  {
    hide Doubled, Cmac.OneShot;
    SetKey(c, consts);
    var k1, k2 := consts[..c.size], consts[c.size..];
    assert k1 == Subkeys(c).0 && k2 == Subkeys(c).1;
    var desc := new Cmac.CmacDesc(c, k1, k2);
    var i := 0;
    assert pieces[0..] == pieces && [] + Joined(pieces) == Joined(pieces);
    while i < |pieces|
      invariant 0 <= i <= |pieces| && desc.Valid() && desc.msg + Joined(pieces[i..]) == Joined(pieces)
      invariant fresh(desc) && fresh(desc.odds) && fresh(desc.prev) && desc.c == c && desc.k1 == k1 && desc.k2 == k2
    {
      JoinedNext(pieces, i);
      ConcatAssoc(desc.msg, pieces[i], Joined(pieces[i + 1..]));
      desc.Update(pieces[i]);
      i := i + 1;
    }
    assert pieces[i..] == [] && desc.msg + [] == desc.msg;
    out := desc.Final();
  }
}
