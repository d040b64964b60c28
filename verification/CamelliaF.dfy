/**
 The F-function, FL and FLINV of the C code as section 2.4 of RFC 3713 writes them: on bytes, for any
 four S-boxes, and with the rotation by its value.
 */
module CamelliaF {
  import opened Camellia

  /** SBOX1 to SBOX4 of section 2.4.5; nothing is assumed of them. */
  datatype SBoxes = SBoxes(s1: bv8 -> bv8, s2: bv8 -> bv8, s3: bv8 -> bv8, s4: bv8 -> bv8)

  /** The word with these bytes, the first one on top. */
  function Word(a: bv8, b: bv8, c: bv8, d: bv8): bv32 {
    ((a as bv32) << 24) | ((b as bv32) << 16) | ((c as bv32) << 8) | (d as bv32)
  }

  function Top(w: bv32): bv8 { ((w >> 24) & 0xff) as bv8 }
  function Second(w: bv32): bv8 { ((w >> 16) & 0xff) as bv8 }
  function Third(w: bv32): bv8 { ((w >> 8) & 0xff) as bv8 }
  function Low(w: bv32): bv8 { (w & 0xff) as bv8 }

  /** A half as the eight bytes x1 to x8. */
  function Eight(x: Half): (r: seq<bv8>)
    ensures |r| == 8
  {
    [Top(x.l), Second(x.l), Third(x.l), Low(x.l), Top(x.r), Second(x.r), Third(x.r), Low(x.r)]
  }

  /** The tables combine an S-box with the copying of its output: 1110, 0222, 3033 and 4404. */
  ghost predicate FromSBoxes(t: Tables, s: SBoxes) {
    forall w: bv32 | w <= 0xff ::
      && t.sp1110(w) == Word(s.s1(w as bv8), s.s1(w as bv8), s.s1(w as bv8), 0)
      && t.sp0222(w) == Word(0, s.s2(w as bv8), s.s2(w as bv8), s.s2(w as bv8))
      && t.sp3033(w) == Word(s.s3(w as bv8), 0, s.s3(w as bv8), s.s3(w as bv8))
      && t.sp4404(w) == Word(s.s4(w as bv8), s.s4(w as bv8), 0, s.s4(w as bv8))
  }

  // ----- section 2.4.1 of RFC 3713 -----

  function Xor2(a: bv8, b: bv8): bv8 { a ^ b }
  function Xor3(a: bv8, b: bv8, c: bv8): bv8 { a ^ b ^ c }
  function Xor5(a: bv8, b: bv8, c: bv8, d: bv8, e: bv8): bv8 { a ^ b ^ c ^ d ^ e }
  function Xor6(a: bv8, b: bv8, c: bv8, d: bv8, e: bv8, f: bv8): bv8 { a ^ b ^ c ^ d ^ e ^ f }

  function XorBytes(x: seq<bv8>, k: seq<bv8>): (r: seq<bv8>)
    requires |x| == |k| == 8
    ensures |r| == 8
  {
    [Xor2(x[0], k[0]), Xor2(x[1], k[1]), Xor2(x[2], k[2]), Xor2(x[3], k[3]),
     Xor2(x[4], k[4]), Xor2(x[5], k[5]), Xor2(x[6], k[6]), Xor2(x[7], k[7])]
  }

  function S(s: SBoxes, t: seq<bv8>): (z: seq<bv8>)
    requires |t| == 8
    ensures |z| == 8
  {
    [s.s1(t[0]), s.s2(t[1]), s.s3(t[2]), s.s4(t[3]), s.s2(t[4]), s.s3(t[5]), s.s4(t[6]), s.s1(t[7])]
  }

  function P(z: seq<bv8>): (y: seq<bv8>)
    requires |z| == 8
    ensures |y| == 8
  {
    [Xor6(z[0], z[2], z[3], z[5], z[6], z[7]),
     Xor6(z[0], z[1], z[3], z[4], z[6], z[7]),
     Xor6(z[0], z[1], z[2], z[4], z[5], z[7]),
     Xor6(z[1], z[2], z[3], z[4], z[5], z[6]),
     Xor5(z[0], z[1], z[5], z[6], z[7]),
     Xor5(z[1], z[2], z[4], z[6], z[7]),
     Xor5(z[2], z[3], z[4], z[5], z[7]),
     Xor5(z[0], z[3], z[4], z[5], z[6])]
  }

  // ----- the words of the code, byte by byte -----

  lemma XorBits(x: bv32, y: bv32, w: bv32)
    requires w == x ^ y
    ensures ((w >> 24) & 0xff) as bv8 == (((x >> 24) & 0xff) as bv8) ^ (((y >> 24) & 0xff) as bv8)
    ensures ((w >> 16) & 0xff) as bv8 == (((x >> 16) & 0xff) as bv8) ^ (((y >> 16) & 0xff) as bv8)
    ensures ((w >> 8) & 0xff) as bv8 == (((x >> 8) & 0xff) as bv8) ^ (((y >> 8) & 0xff) as bv8)
    ensures (w & 0xff) as bv8 == ((x & 0xff) as bv8) ^ ((y & 0xff) as bv8)
  {
  }

  /** A rotation to the right by 8 bits moves every byte by one place. */
  lemma RorBits(x: bv32, w: bv32)
    requires w == (x >> 8) | (x << 24)
    ensures ((w >> 24) & 0xff) as bv8 == (x & 0xff) as bv8 && ((w >> 16) & 0xff) as bv8 == ((x >> 24) & 0xff) as bv8
    ensures ((w >> 8) & 0xff) as bv8 == ((x >> 16) & 0xff) as bv8 && (w & 0xff) as bv8 == ((x >> 8) & 0xff) as bv8
  {
  }

  // ... and with the functions of the code.

  lemma XorIs(x: bv32, y: bv32)
    ensures Xor(x, y) == x ^ y
  {
  }

  lemma XorWordOf(x: bv32, y: bv32, w: bv32)
    requires w == x ^ y
    ensures Top(w) == Xor2(Top(x), Top(y))
    ensures Second(w) == Xor2(Second(x), Second(y))
    ensures Third(w) == Xor2(Third(x), Third(y))
    ensures Low(w) == Xor2(Low(x), Low(y))
  {
    XorBits(x, y, w);
  }

  lemma XorWord(x: bv32, y: bv32)
    ensures Top(Xor(x, y)) == Xor2(Top(x), Top(y)) && Second(Xor(x, y)) == Xor2(Second(x), Second(y))
    ensures Third(Xor(x, y)) == Xor2(Third(x), Third(y)) && Low(Xor(x, y)) == Xor2(Low(x), Low(y))
  {
    hide Xor, Xor2, Top, Second, Third, Low;
    XorIs(x, y);
    XorWordOf(x, y, Xor(x, y));
  }

  lemma RorWord(x: bv32)
    ensures Top(Ror8(x)) == Low(x) && Second(Ror8(x)) == Top(x) && Third(Ror8(x)) == Second(x) && Low(Ror8(x)) == Third(x)
  {
    RorBits(x, Ror8(x));
  }

  lemma XorEight(x: Half, k: Half)
    ensures Eight(X(x, k)) == XorBytes(Eight(x), Eight(k))
  {
    hide Xor, Xor2, Top, Second, Third, Low;
    XorWord(x.l, k.l);
    XorWord(x.r, k.r);
  }

  /** The indices that CAMELLIA_F takes from a word and its upper half. */
  lemma LowIndex(x: bv32)
    ensures Byte(x) == Low(x) as bv32
  {
  }

  lemma ThirdIndex(x: bv32)
    ensures Byte(Shr8(x)) == Third(x) as bv32
  {
  }

  lemma SecondIndex(x: bv32)
    ensures Byte(Shr16(x)) == Second(x) as bv32
  {
  }

  lemma TopIndex(x: bv32)
    ensures Byte(Shr8(Shr16(x))) == Top(x) as bv32
  {
  }

  /** A lookup at the index that is byte b. */
  lemma LookedUp(t: Tables, s: SBoxes, b: bv8, i: bv32)
    requires FromSBoxes(t, s) && i == b as bv32
    ensures t.sp1110(i) == Word(s.s1(b), s.s1(b), s.s1(b), 0) && t.sp0222(i) == Word(0, s.s2(b), s.s2(b), s.s2(b))
    ensures t.sp3033(i) == Word(s.s3(b), 0, s.s3(b), s.s3(b)) && t.sp4404(i) == Word(s.s4(b), s.s4(b), 0, s.s4(b))
  {
    hide Word;
    assert i <= 0xff && i as bv8 == b;
  }

  lemma TopLookup(t: Tables, s: SBoxes, w: bv32)
    requires FromSBoxes(t, s)
    ensures var i := Byte(Shr8(Shr16(w)));
            t.sp1110(i) == Word(s.s1(Top(w)), s.s1(Top(w)), s.s1(Top(w)), 0) && t.sp0222(i) == Word(0, s.s2(Top(w)), s.s2(Top(w)), s.s2(Top(w)))
  {
    hide FromSBoxes, Byte, Shr8, Shr16, Top, Word;
    TopIndex(w);
    LookedUp(t, s, Top(w), Byte(Shr8(Shr16(w))));
  }

  lemma SecondLookup(t: Tables, s: SBoxes, w: bv32)
    requires FromSBoxes(t, s)
    ensures var i, b := Byte(Shr16(w)), Second(w);
            t.sp0222(i) == Word(0, s.s2(b), s.s2(b), s.s2(b)) && t.sp3033(i) == Word(s.s3(b), 0, s.s3(b), s.s3(b))
  {
    hide FromSBoxes, Byte, Shr8, Shr16, Second, Word;
    SecondIndex(w);
    LookedUp(t, s, Second(w), Byte(Shr16(w)));
  }

  lemma ThirdLookup(t: Tables, s: SBoxes, w: bv32)
    requires FromSBoxes(t, s)
    ensures var i, b := Byte(Shr8(w)), Third(w);
            t.sp3033(i) == Word(s.s3(b), 0, s.s3(b), s.s3(b)) && t.sp4404(i) == Word(s.s4(b), s.s4(b), 0, s.s4(b))
  {
    hide FromSBoxes, Byte, Shr8, Shr16, Third, Word;
    ThirdIndex(w);
    LookedUp(t, s, Third(w), Byte(Shr8(w)));
  }

  lemma LowLookup(t: Tables, s: SBoxes, w: bv32)
    requires FromSBoxes(t, s)
    ensures var i, b := Byte(w), Low(w);
            t.sp4404(i) == Word(s.s4(b), s.s4(b), 0, s.s4(b)) && t.sp1110(i) == Word(s.s1(b), s.s1(b), s.s1(b), 0)
  {
    hide FromSBoxes, Byte, Shr8, Shr16, Low, Word;
    LowIndex(w);
    LookedUp(t, s, Low(w), Byte(w));
  }

  lemma WordBits(a: bv8, b: bv8, c: bv8, d: bv8, w: bv32)
    requires w == (((a as bv32) << 24) | ((b as bv32) << 16) | ((c as bv32) << 8)) | (d as bv32)
    ensures ((w >> 24) & 0xff) as bv8 == a && ((w >> 16) & 0xff) as bv8 == b && ((w >> 8) & 0xff) as bv8 == c && (w & 0xff) as bv8 == d
  {
  }

  lemma WordBytes(a: bv8, b: bv8, c: bv8, d: bv8)
    ensures var w := Word(a, b, c, d); Top(w) == a && Second(w) == b && Third(w) == c && Low(w) == d
  {
    WordBits(a, b, c, d, Word(a, b, c, d));
  }

  lemma XorZero(a: bv8)
    ensures Xor2(a, 0) == a && Xor2(0, a) == a
  {
  }

  lemma Xor3IsXor2(a: bv8, b: bv8, c: bv8)
    ensures Xor3(a, b, c) == Xor2(Xor2(a, b), c)
  {
  }

  lemma Xor3Is(a: bv8, b: bv8, c: bv8)
    ensures Xor3(a, b, c) == a ^ b ^ c
  {
  }

  lemma Xor2Is(a: bv8, b: bv8)
    ensures Xor2(a, b) == a ^ b
  {
  }

  lemma Xor5Is(a: bv8, b: bv8, c: bv8, d: bv8, e: bv8)
    ensures Xor5(a, b, c, d, e) == a ^ b ^ c ^ d ^ e
  {
  }

  lemma Xor6Is(a: bv8, b: bv8, c: bv8, d: bv8, e: bv8, f: bv8)
    ensures Xor6(a, b, c, d, e, f) == a ^ b ^ c ^ d ^ e ^ f
  {
  }

  lemma SumWords(a: bv8, b: bv8, c: bv8, d: bv8, w: bv32)
    requires w == Sum(Word(a, a, a, 0), Word(0, b, b, b), Word(c, 0, c, c), Word(d, d, 0, d))
    ensures Top(w) == Xor3(a, c, d) && Second(w) == Xor3(a, b, d) && Third(w) == Xor3(a, b, c) && Low(w) == Xor3(b, c, d)
  {
    hide Top, Second, Third, Low, Xor2, Xor3, Word, Xor;
    var x, y, z, u := Word(a, a, a, 0), Word(0, b, b, b), Word(c, 0, c, c), Word(d, d, 0, d);
    WordBytes(a, a, a, 0);
    WordBytes(0, b, b, b);
    WordBytes(c, 0, c, c);
    WordBytes(d, d, 0, d);
    XorWord(x, y);
    XorWord(Xor(x, y), z);
    XorWord(Xor(Xor(x, y), z), u);
    XorZero(a);
    XorZero(b);
    XorZero(Xor2(a, b));
    XorZero(Xor2(Xor2(a, b), c));
    Xor3IsXor2(a, c, d);
    Xor3IsXor2(a, b, d);
    Xor3IsXor2(a, b, c);
    Xor3IsXor2(b, c, d);
  }

  lemma Bits1(a: bv8, b: bv8, c: bv8, d: bv8, e: bv8, f: bv8, g: bv8, h: bv8, p: bv8, q: bv8)
    requires p == h ^ f ^ g && q == a ^ c ^ d
    ensures p ^ q == a ^ c ^ d ^ f ^ g ^ h
  {
  }

  lemma Bits2(a: bv8, b: bv8, c: bv8, d: bv8, e: bv8, f: bv8, g: bv8, h: bv8, p: bv8, q: bv8)
    requires p == h ^ e ^ g && q == a ^ b ^ d
    ensures p ^ q == a ^ b ^ d ^ e ^ g ^ h
  {
  }

  lemma Bits3(a: bv8, b: bv8, c: bv8, d: bv8, e: bv8, f: bv8, g: bv8, h: bv8, p: bv8, q: bv8)
    requires p == h ^ e ^ f && q == a ^ b ^ c
    ensures p ^ q == a ^ b ^ c ^ e ^ f ^ h
  {
  }

  lemma Bits4(a: bv8, b: bv8, c: bv8, d: bv8, e: bv8, f: bv8, g: bv8, h: bv8, p: bv8, q: bv8)
    requires p == e ^ f ^ g && q == b ^ c ^ d
    ensures p ^ q == b ^ c ^ d ^ e ^ f ^ g
  {
  }

  lemma Bits5(a: bv8, b: bv8, c: bv8, d: bv8, e: bv8, f: bv8, g: bv8, h: bv8, p: bv8, q: bv8)
    requires p == b ^ c ^ d && q == a ^ c ^ d ^ f ^ g ^ h
    ensures p ^ q == a ^ b ^ f ^ g ^ h
  {
  }

  lemma Bits6(a: bv8, b: bv8, c: bv8, d: bv8, e: bv8, f: bv8, g: bv8, h: bv8, p: bv8, q: bv8)
    requires p == a ^ c ^ d && q == a ^ b ^ d ^ e ^ g ^ h
    ensures p ^ q == b ^ c ^ e ^ g ^ h
  {
  }

  lemma Bits7(a: bv8, b: bv8, c: bv8, d: bv8, e: bv8, f: bv8, g: bv8, h: bv8, p: bv8, q: bv8)
    requires p == a ^ b ^ d && q == a ^ b ^ c ^ e ^ f ^ h
    ensures p ^ q == c ^ d ^ e ^ f ^ h
  {
  }

  lemma Bits8(a: bv8, b: bv8, c: bv8, d: bv8, e: bv8, f: bv8, g: bv8, h: bv8, p: bv8, q: bv8)
    requires p == a ^ b ^ c && q == b ^ c ^ d ^ e ^ f ^ g
    ensures p ^ q == a ^ d ^ e ^ f ^ g
  {
  }

  lemma Byte1(a: bv8, b: bv8, c: bv8, d: bv8, e: bv8, f: bv8, g: bv8, h: bv8)
    ensures Xor2(Xor3(h, f, g), Xor3(a, c, d)) == Xor6(a, c, d, f, g, h)
  {
    hide Xor2, Xor3, Xor5, Xor6;
    Xor3Is(h, f, g);
    Xor3Is(a, c, d);
    Xor2Is(Xor3(h, f, g), Xor3(a, c, d));
    Xor6Is(a, c, d, f, g, h);
    Bits1(a, b, c, d, e, f, g, h, Xor3(h, f, g), Xor3(a, c, d));
  }

  lemma Byte2(a: bv8, b: bv8, c: bv8, d: bv8, e: bv8, f: bv8, g: bv8, h: bv8)
    ensures Xor2(Xor3(h, e, g), Xor3(a, b, d)) == Xor6(a, b, d, e, g, h)
  {
    hide Xor2, Xor3, Xor5, Xor6;
    Xor3Is(h, e, g);
    Xor3Is(a, b, d);
    Xor2Is(Xor3(h, e, g), Xor3(a, b, d));
    Xor6Is(a, b, d, e, g, h);
    Bits2(a, b, c, d, e, f, g, h, Xor3(h, e, g), Xor3(a, b, d));
  }

  lemma Byte3(a: bv8, b: bv8, c: bv8, d: bv8, e: bv8, f: bv8, g: bv8, h: bv8)
    ensures Xor2(Xor3(h, e, f), Xor3(a, b, c)) == Xor6(a, b, c, e, f, h)
  {
    hide Xor2, Xor3, Xor5, Xor6;
    Xor3Is(h, e, f);
    Xor3Is(a, b, c);
    Xor2Is(Xor3(h, e, f), Xor3(a, b, c));
    Xor6Is(a, b, c, e, f, h);
    Bits3(a, b, c, d, e, f, g, h, Xor3(h, e, f), Xor3(a, b, c));
  }

  lemma Byte4(a: bv8, b: bv8, c: bv8, d: bv8, e: bv8, f: bv8, g: bv8, h: bv8)
    ensures Xor2(Xor3(e, f, g), Xor3(b, c, d)) == Xor6(b, c, d, e, f, g)
  {
    hide Xor2, Xor3, Xor5, Xor6;
    Xor3Is(e, f, g);
    Xor3Is(b, c, d);
    Xor2Is(Xor3(e, f, g), Xor3(b, c, d));
    Xor6Is(b, c, d, e, f, g);
    Bits4(a, b, c, d, e, f, g, h, Xor3(e, f, g), Xor3(b, c, d));
  }

  lemma Byte5(a: bv8, b: bv8, c: bv8, d: bv8, e: bv8, f: bv8, g: bv8, h: bv8)
    ensures Xor2(Xor3(b, c, d), Xor6(a, c, d, f, g, h)) == Xor5(a, b, f, g, h)
  {
    hide Xor2, Xor3, Xor5, Xor6;
    Xor3Is(b, c, d);
    Xor6Is(a, c, d, f, g, h);
    Xor2Is(Xor3(b, c, d), Xor6(a, c, d, f, g, h));
    Xor5Is(a, b, f, g, h);
    Bits5(a, b, c, d, e, f, g, h, Xor3(b, c, d), Xor6(a, c, d, f, g, h));
  }

  lemma Byte6(a: bv8, b: bv8, c: bv8, d: bv8, e: bv8, f: bv8, g: bv8, h: bv8)
    ensures Xor2(Xor3(a, c, d), Xor6(a, b, d, e, g, h)) == Xor5(b, c, e, g, h)
  {
    hide Xor2, Xor3, Xor5, Xor6;
    Xor3Is(a, c, d);
    Xor6Is(a, b, d, e, g, h);
    Xor2Is(Xor3(a, c, d), Xor6(a, b, d, e, g, h));
    Xor5Is(b, c, e, g, h);
    Bits6(a, b, c, d, e, f, g, h, Xor3(a, c, d), Xor6(a, b, d, e, g, h));
  }

  lemma Byte7(a: bv8, b: bv8, c: bv8, d: bv8, e: bv8, f: bv8, g: bv8, h: bv8)
    ensures Xor2(Xor3(a, b, d), Xor6(a, b, c, e, f, h)) == Xor5(c, d, e, f, h)
  {
    hide Xor2, Xor3, Xor5, Xor6;
    Xor3Is(a, b, d);
    Xor6Is(a, b, c, e, f, h);
    Xor2Is(Xor3(a, b, d), Xor6(a, b, c, e, f, h));
    Xor5Is(c, d, e, f, h);
    Bits7(a, b, c, d, e, f, g, h, Xor3(a, b, d), Xor6(a, b, c, e, f, h));
  }

  lemma Byte8(a: bv8, b: bv8, c: bv8, d: bv8, e: bv8, f: bv8, g: bv8, h: bv8)
    ensures Xor2(Xor3(a, b, c), Xor6(b, c, d, e, f, g)) == Xor5(a, d, e, f, g)
  {
    hide Xor2, Xor3, Xor5, Xor6;
    Xor3Is(a, b, c);
    Xor6Is(b, c, d, e, f, g);
    Xor2Is(Xor3(a, b, c), Xor6(b, c, d, e, f, g));
    Xor5Is(a, d, e, f, g);
    Bits8(a, b, c, d, e, f, g, h, Xor3(a, b, c), Xor6(b, c, d, e, f, g));
  }

  /** The mixing of two words that are such sums. */
  lemma MixIsP(z: seq<bv8>, il: bv32, ir: bv32)
    requires |z| == 8
    requires Top(il) == Xor3(z[0], z[2], z[3]) && Second(il) == Xor3(z[0], z[1], z[3]) && Third(il) == Xor3(z[0], z[1], z[2]) && Low(il) == Xor3(z[1], z[2], z[3])
    requires Top(ir) == Xor3(z[7], z[5], z[6]) && Second(ir) == Xor3(z[7], z[4], z[6]) && Third(ir) == Xor3(z[7], z[4], z[5]) && Low(ir) == Xor3(z[4], z[5], z[6])
    ensures Eight(Mix(ir, il)) == P(z)
  {
    hide Xor, Xor2, Xor3, Xor5, Xor6, Ror8, Top, Second, Third, Low;
    XorWord(ir, il);
    RorWord(il);
    XorWord(Ror8(il), Xor(ir, il));
    Byte1(z[0], z[1], z[2], z[3], z[4], z[5], z[6], z[7]);
    Byte2(z[0], z[1], z[2], z[3], z[4], z[5], z[6], z[7]);
    Byte3(z[0], z[1], z[2], z[3], z[4], z[5], z[6], z[7]);
    Byte4(z[0], z[1], z[2], z[3], z[4], z[5], z[6], z[7]);
    Byte5(z[0], z[1], z[2], z[3], z[4], z[5], z[6], z[7]);
    Byte6(z[0], z[1], z[2], z[3], z[4], z[5], z[6], z[7]);
    Byte7(z[0], z[1], z[2], z[3], z[4], z[5], z[6], z[7]);
    Byte8(z[0], z[1], z[2], z[3], z[4], z[5], z[6], z[7]);
  }

  /** CAMELLIA_F is the F-function of section 2.4.1 of RFC 3713, for tables made from any S-boxes. */
  lemma FIsRfc(t: Tables, s: SBoxes, x: Half, k: Half)
    requires FromSBoxes(t, s)
    ensures Eight(F(t, x, k)) == P(S(s, XorBytes(Eight(x), Eight(k))))
  {
    hide FromSBoxes, Xor, Xor3, Mix, Sum, Byte, Shr8, Shr16, Top, Second, Third, Low, Word, P, X, XorBytes;
    var i := X(x, k);
    var z := S(s, Eight(i));
    XorEight(x, k);
    LeftLookups(t, s, i.l, z[0], z[1], z[2], z[3]);
    RightLookups(t, s, i.r, z[4], z[5], z[6], z[7]);
    MixIsP(z, Sum(t.sp1110(Byte(Shr8(Shr16(i.l)))), t.sp0222(Byte(Shr16(i.l))), t.sp3033(Byte(Shr8(i.l))), t.sp4404(Byte(i.l))),
              Sum(t.sp1110(Byte(i.r)), t.sp0222(Byte(Shr8(Shr16(i.r)))), t.sp3033(Byte(Shr16(i.r))), t.sp4404(Byte(Shr8(i.r)))));
  }

  lemma LeftLookups(t: Tables, s: SBoxes, w: bv32, a: bv8, b: bv8, c: bv8, d: bv8)
    requires FromSBoxes(t, s) && a == s.s1(Top(w)) && b == s.s2(Second(w)) && c == s.s3(Third(w)) && d == s.s4(Low(w))
    ensures var v := Sum(t.sp1110(Byte(Shr8(Shr16(w)))), t.sp0222(Byte(Shr16(w))), t.sp3033(Byte(Shr8(w))), t.sp4404(Byte(w)));
            Top(v) == Xor3(a, c, d) && Second(v) == Xor3(a, b, d) && Third(v) == Xor3(a, b, c) && Low(v) == Xor3(b, c, d)
  {
    hide FromSBoxes, Xor3, Sum, Byte, Shr8, Shr16, Top, Second, Third, Low, Word;
    TopLookup(t, s, w);
    SecondLookup(t, s, w);
    ThirdLookup(t, s, w);
    LowLookup(t, s, w);
    SumWords(a, b, c, d, Sum(t.sp1110(Byte(Shr8(Shr16(w)))), t.sp0222(Byte(Shr16(w))), t.sp3033(Byte(Shr8(w))), t.sp4404(Byte(w))));
  }

  lemma RightLookups(t: Tables, s: SBoxes, w: bv32, e: bv8, f: bv8, g: bv8, h: bv8)
    requires FromSBoxes(t, s) && e == s.s2(Top(w)) && f == s.s3(Second(w)) && g == s.s4(Third(w)) && h == s.s1(Low(w))
    ensures var v := Sum(t.sp1110(Byte(w)), t.sp0222(Byte(Shr8(Shr16(w)))), t.sp3033(Byte(Shr16(w))), t.sp4404(Byte(Shr8(w))));
            Top(v) == Xor3(h, f, g) && Second(v) == Xor3(h, e, g) && Third(v) == Xor3(h, e, f) && Low(v) == Xor3(e, f, g)
  {
    hide FromSBoxes, Xor3, Sum, Byte, Shr8, Shr16, Top, Second, Third, Low, Word;
    TopLookup(t, s, w);
    SecondLookup(t, s, w);
    ThirdLookup(t, s, w);
    LowLookup(t, s, w);
    SumWords(h, e, f, g, Sum(t.sp1110(Byte(w)), t.sp0222(Byte(Shr8(Shr16(w)))), t.sp3033(Byte(Shr16(w))), t.sp4404(Byte(Shr8(w)))));
  }

  // ----- sections 2.4.2 and 2.4.3 -----

  /** Rotation to the left by one bit, by its value: twice the word, and the bit that does not fit comes back as a one. */
  function RolValue(x: bv32): bv32 { if x < 0x8000_0000 then x + x else x + x + 1 }

  lemma RolSmall(x: bv32, v: bv32)
    requires x < 0x8000_0000 && v == (x << 1) | (x >> 31)
    ensures v == x + x
  {
  }

  lemma RolLarge(x: bv32, v: bv32)
    requires 0x8000_0000 <= x && v == (x << 1) | (x >> 31)
    ensures v == x + x + 1
  {
  }

  lemma RolIsValue(x: bv32)
    ensures Rol1(x) == RolValue(x)
  {
    if x < 0x8000_0000 {
      RolSmall(x, Rol1(x));
    } else {
      RolLarge(x, Rol1(x));
    }
  }

  /** FL on its two words x1 and x2, with subkey words k1 and k2. */
  lemma FLIsRfc(x1: bv32, x2: bv32, k1: bv32, k2: bv32)
    ensures var y2 := Xor(x2, RolValue(And(x1, k1)));
            FL(Half(x1, x2), Half(k1, k2)) == Half(Xor(x1, Or(y2, k2)), y2)
  {
    hide RolValue, Rol1, Xor, And, Or;
    RolIsValue(And(x1, k1));
  }

  lemma FLInvIsRfc(y1: bv32, y2: bv32, k1: bv32, k2: bv32)
    ensures var x1 := Xor(y1, Or(y2, k2));
            FLInv(Half(y1, y2), Half(k1, k2)) == Half(x1, Xor(y2, RolValue(And(x1, k1))))
  {
    hide RolValue, Rol1, Xor, And, Or;
    RolIsValue(And(Xor(y1, Or(y2, k2)), k1));
  }
}
