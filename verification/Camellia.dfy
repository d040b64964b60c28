/**
 Camellia as the fast C code runs it, against Camellia as RFC 3713 writes it.

 The key schedule moves the whitening keys kw2 and kw4 through the Feistel rounds and the
 FL/FLINV layers into the round keys, and then moves every key XOR from in front of the
 F-function to behind it.  `AbsorptionKeepsMeaning` says that the cipher is still the one of
 sections 2.3 and 2.4 of RFC 3713, for any substitution tables.
 */
module Camellia {

  /** A 64-bit half block or subkey, as the left and right 32-bit words the C code keeps. */
  datatype Half = Half(l: bv32, r: bv32)

  /** A block: (io[0],io[1]) and (io[2],io[3]). */
  datatype Block = Block(d1: Half, d2: Half) {
    function Swap(): Block { Block(d2, d1) }
  }

  /** The four tables camellia_sp1110, sp0222, sp3033, sp4404; nothing is assumed of them. */
  datatype Tables = Tables(sp1110: bv32 -> bv32, sp0222: bv32 -> bv32, sp3033: bv32 -> bv32, sp4404: bv32 -> bv32)

  const ZERO := Half(0, 0)

  // The C operators on u32, named so that a proof can choose to treat them as unknown.

  function Xor(a: bv32, b: bv32): bv32 { a ^ b }
  function And(a: bv32, b: bv32): bv32 { a & b }
  function Or(a: bv32, b: bv32): bv32 { a | b }
  function Not(a: bv32): bv32 { !a }
  function Rol1(x: bv32): bv32 { (x << 1) | (x >> 31) }
  function Ror8(x: bv32): bv32 { (x >> 8) | (x << 24) }
  function Shr8(x: bv32): bv32 { x >> 8 }
  function Shr16(x: bv32): bv32 { x >> 16 }
  function Shr24(x: bv32): bv32 { x >> 24 }

  /** The low byte of a word, the table index that a cast to u8 takes. */
  function Byte(x: bv32): bv32 { x & 0xff }

  function X(a: Half, b: Half): Half { Half(Xor(a.l, b.l), Xor(a.r, b.r)) }

  /** The byte mixing after the table lookups, the same in CAMELLIA_F and CAMELLIA_ROUNDSM. */
  function Mix(yl: bv32, yr: bv32): Half { Half(Xor(yl, yr), Xor(Ror8(yr), Xor(yl, yr))) }

  function Sum(a: bv32, b: bv32, c: bv32, d: bv32): bv32 { Xor(Xor(Xor(a, b), c), d) }

  /** The F-function with the key XORed in front, as CAMELLIA_F computes it. */
  function F(t: Tables, x: Half, k: Half): Half {
    var i := X(x, k);
    var t0 := Shr16(i.l);
    var t1 := Shr16(i.r);
    Mix(Sum(t.sp1110(Byte(i.r)), t.sp0222(Byte(Shr8(t1))), t.sp3033(Byte(t1)), t.sp4404(Byte(Shr8(i.r)))),
        Sum(t.sp1110(Byte(Shr8(t0))), t.sp0222(Byte(t0)), t.sp3033(Byte(Shr8(i.l))), t.sp4404(Byte(i.l))))
  }

  /** What one CAMELLIA_ROUNDSM adds to the other half besides its key. */
  function G(t: Tables, x: Half): Half {
    Mix(Sum(t.sp1110(Byte(x.r)), t.sp0222(Byte(Shr24(x.r))), t.sp3033(Byte(Shr16(x.r))), t.sp4404(Byte(Shr8(x.r)))),
        Sum(t.sp1110(Byte(Shr24(x.l))), t.sp0222(Byte(Shr16(x.l))), t.sp3033(Byte(Shr8(x.l))), t.sp4404(Byte(x.l))))
  }

  /** FL of section 2.4.2 of RFC 3713. */
  function FL(x: Half, k: Half): Half {
    var r := Xor(x.r, Rol1(And(x.l, k.l)));
    Half(Xor(x.l, Or(r, k.r)), r)
  }

  /** FLINV of section 2.4.3 of RFC 3713. */
  function FLInv(y: Half, k: Half): Half {
    var l := Xor(y.l, Or(y.r, k.r));
    Half(l, Xor(y.r, Rol1(And(l, k.l))))
  }

  // ----- the cipher of section 2.3 of RFC 3713, over raw subkeys -----
  //
  // Raw subkeys are numbered as the C arrays subL/subR: 0 and 1 are kw1 and kw2, 8g+2..8g+7
  // the round keys of group g, 8g+8 and 8g+9 the FL keys after it, and the last two kw3, kw4.

  function PlainRounds(t: Tables, k: seq<Half>, i: nat, b: Block): Block
    requires i + 8 <= |k|
  {
    var y1 := X(b.d2, F(t, b.d1, k[i + 2]));
    var x2 := X(b.d1, F(t, y1, k[i + 3]));
    var y3 := X(y1, F(t, x2, k[i + 4]));
    var x4 := X(x2, F(t, y3, k[i + 5]));
    var y5 := X(y3, F(t, x4, k[i + 6]));
    Block(X(x4, F(t, y5, k[i + 7])), y5)
  }

  /** Groups g.. of six rounds with an FL layer between any two groups. */
  function PlainFrom(t: Tables, k: seq<Half>, groups: nat, g: nat, b: Block): Block
    requires g < groups && |k| == 8 * groups + 2
    decreases groups - g
  {
    var c := PlainRounds(t, k, 8 * g, b);
    if g + 1 == groups then c
    else PlainFrom(t, k, groups, g + 1, Block(FL(c.d1, k[8 * g + 8]), FLInv(c.d2, k[8 * g + 9])))
  }

  /** Camellia encryption of RFC 3713; the result is before the final swap of the two halves. */
  function Plain(t: Tables, k: seq<Half>, groups: nat, b: Block): Block
    requires 0 < groups && |k| == 8 * groups + 2
  {
    var c := PlainFrom(t, k, groups, 0, Block(X(b.d1, k[0]), X(b.d2, k[1])));
    Block(X(c.d1, k[8 * groups + 1]), X(c.d2, k[8 * groups]))
  }

  // ----- the fast cipher -----

  function FastRounds(t: Tables, k: seq<Half>, i: nat, b: Block): Block
    requires i + 8 <= |k|
  {
    var y1 := X(X(b.d2, k[i + 2]), G(t, b.d1));
    var x2 := X(X(b.d1, k[i + 3]), G(t, y1));
    var y3 := X(X(y1, k[i + 4]), G(t, x2));
    var x4 := X(X(x2, k[i + 5]), G(t, y3));
    var y5 := X(X(y3, k[i + 6]), G(t, x4));
    Block(X(X(x4, k[i + 7]), G(t, y5)), y5)
  }

  function FastFrom(t: Tables, k: seq<Half>, groups: nat, g: nat, b: Block): Block
    requires g < groups && 8 * groups < |k|
    decreases groups - g
  {
    var c := FastRounds(t, k, 8 * g, b);
    if g + 1 == groups then c
    else FastFrom(t, k, groups, g + 1, Block(FL(c.d1, k[8 * g + 8]), FLInv(c.d2, k[8 * g + 9])))
  }

  /** What camellia_do_encrypt leaves in io for a subkey table k. */
  function Fast(t: Tables, k: seq<Half>, groups: nat, b: Block): Block
    requires 0 < groups && 8 * groups < |k|
  {
    var c := FastFrom(t, k, groups, 0, Block(X(b.d1, k[0]), b.d2));
    Block(c.d1, X(c.d2, k[8 * groups]))
  }

  // ----- the key schedule in closed form -----

  /** How a difference on a half changes through FLINV, and back through FL. */
  function FLDiff(d: Half, k: Half): Half {
    var l := Xor(d.l, And(d.r, Not(k.r)));
    Half(l, Xor(d.r, Rol1(And(l, k.l))))
  }

  /** kw2 as it arrives at group g. */
  function Kw2At(k: seq<Half>, g: nat): Half
    requires 8 * g + 2 <= |k|
  {
    if g == 0 then k[1] else FLDiff(Kw2At(k, g - 1), k[8 * g + 1])
  }

  /** kw4 as it leaves group g, going backwards from the end. */
  function Kw4At(k: seq<Half>, groups: nat, g: nat): Half
    requires g < groups && |k| == 8 * groups + 2
    decreases groups - g
  {
    if g + 1 == groups then k[8 * groups + 1] else FLDiff(Kw4At(k, groups, g + 1), k[8 * g + 8])
  }

  /** Round key 8g+2+j after kw2 and kw4 have been absorbed. */
  function Absorbed(k: seq<Half>, groups: nat, g: nat, j: nat): Half
    requires |k| == 8 * groups + 2 && g < groups && j < 6
  {
    if j % 2 == 0 then X(k[8 * g + 2 + j], Kw4At(k, groups, g)) else X(k[8 * g + 2 + j], Kw2At(k, g))
  }

  /** What is left XORed on the first half when group g starts. */
  function Entry1(k: seq<Half>, groups: nat, g: nat): Half
    requires |k| == 8 * groups + 2 && g < groups
  {
    Absorbed(k, groups, g, 0)
  }

  /** What is left XORed on the second half when group g starts. */
  function Entry2(k: seq<Half>, groups: nat, g: nat): Half
    requires |k| == 8 * groups + 2 && g < groups
  {
    if g == 0 then ZERO else FLDiff(Absorbed(k, groups, g - 1, 5), k[8 * g + 1])
  }

  /** What has to be left XORed on the first half when group g ends. */
  function Exit1(k: seq<Half>, groups: nat, g: nat): Half
    requires |k| == 8 * groups + 2 && g < groups
  {
    if g + 1 == groups then ZERO else FLDiff(Absorbed(k, groups, g + 1, 0), k[8 * g + 8])
  }

  /** Round key 8g+2+j of the table camellia_setup_tail writes. */
  function TailRoundKey(k: seq<Half>, groups: nat, g: nat, j: nat): Half
    requires |k| == 8 * groups + 2 && g < groups && j < 6
  {
    X(if j == 0 then Entry2(k, groups, g) else Absorbed(k, groups, g, j - 1),
      if j == 5 then Exit1(k, groups, g) else Absorbed(k, groups, g, j + 1))
  }

  /** The round keys of group g in the table camellia_setup_tail writes. */
  ghost predicate TailGroup(table: seq<Half>, k: seq<Half>, groups: nat, g: nat)
    requires |k| == 8 * groups + 2 && g < groups && 8 * groups < |table|
  {
    var i := 8 * g;
    && table[i + 2] == TailRoundKey(k, groups, g, 0) && table[i + 3] == TailRoundKey(k, groups, g, 1)
    && table[i + 4] == TailRoundKey(k, groups, g, 2) && table[i + 5] == TailRoundKey(k, groups, g, 3)
    && table[i + 6] == TailRoundKey(k, groups, g, 4) && table[i + 7] == TailRoundKey(k, groups, g, 5)
  }

  /** The table a caller of camellia_setup_tail gets; entry 1 is never written. */
  ghost predicate IsTail(table: seq<Half>, k: seq<Half>, groups: nat)
    requires 0 < groups && |k| == 8 * groups + 2
  {
    && 8 * groups < |table|
    && table[0] == X(X(k[0], Kw4At(k, groups, 0)), Absorbed(k, groups, 0, 0))
    && table[8 * groups] == X(X(k[8 * groups], Kw2At(k, groups - 1)), Absorbed(k, groups, groups - 1, 5))
    && (forall g: nat | g < groups :: TailGroup(table, k, groups, g))
    && (forall g: nat | g + 1 < groups :: table[8 * g + 8] == k[8 * g + 8] && table[8 * g + 9] == k[8 * g + 9])
  }

  // ----- lemmas -----

  lemma XorCancel(a: bv32, b: bv32)
    ensures Xor(Xor(a, b), b) == a
  {
  }

  lemma XorAssoc(a: bv32, b: bv32, c: bv32)
    ensures Xor(Xor(a, b), c) == Xor(a, Xor(b, c))
  {
  }

  lemma ShiftTwice(x: bv32)
    ensures Shr8(Shr16(x)) == Shr24(x)
  {
  }

  lemma FIsGOfXor(t: Tables, x: Half, k: Half)
    ensures F(t, x, k) == G(t, X(x, k))
  {
    hide Mix, Sum, Byte, X, Shr8, Shr16, Shr24;
    ShiftTwice(X(x, k).l);
    ShiftTwice(X(x, k).r);
  }

  lemma FLInvUndoesFL(x: Half, k: Half)
    ensures FLInv(FL(x, k), k) == x
    ensures FL(FLInv(x, k), k) == x
  {
    hide Rol1, Xor, And, Or;
    var r := Xor(x.r, Rol1(And(x.l, k.l)));
    XorCancel(x.l, Or(r, k.r));
    XorCancel(x.r, Rol1(And(x.l, k.l)));
    var l := Xor(x.l, Or(x.r, k.r));
    XorCancel(x.r, Rol1(And(l, k.l)));
    XorCancel(x.l, Or(x.r, k.r));
  }

  lemma XorComm(a: bv32, b: bv32)
    ensures Xor(a, b) == Xor(b, a)
  {
  }

  lemma XorSwap(a: bv32, b: bv32, c: bv32)
    ensures Xor(Xor(a, b), c) == Xor(Xor(a, c), b)
  {
    hide Xor;
    XorAssoc(a, b, c);
    XorComm(b, c);
    XorAssoc(a, c, b);
  }

  lemma OrAsXor(a: bv32, k: bv32)
    ensures Or(a, k) == Xor(And(a, Not(k)), k)
  {
  }

  lemma AndDistributes(a: bv32, d: bv32, k: bv32)
    ensures And(Xor(a, d), k) == Xor(And(a, k), And(d, k))
  {
  }

  lemma OrDifference(a: bv32, d: bv32, k: bv32)
    ensures Or(Xor(a, d), k) == Xor(Or(a, k), And(d, Not(k)))
  {
    hide Or, Xor, And, Not;
    OrAsXor(a, k);
    OrAsXor(Xor(a, d), k);
    AndDistributes(a, d, Not(k));
    XorSwap(And(a, Not(k)), And(d, Not(k)), k);
  }

  lemma RolAndDifference(a: bv32, d: bv32, k: bv32)
    ensures Rol1(And(Xor(a, d), k)) == Xor(Rol1(And(a, k)), Rol1(And(d, k)))
  {
  }

  lemma XorFour(a: bv32, b: bv32, c: bv32, d: bv32)
    ensures Xor(Xor(a, b), Xor(c, d)) == Xor(Xor(a, c), Xor(b, d))
  {
    hide Xor;
    XorAssoc(Xor(a, b), c, d);
    XorSwap(a, b, c);
    XorAssoc(Xor(a, c), b, d);
  }

  /** FLINV turns an input difference into FLDiff of it, whatever the input. */
  lemma FLInvDifference(y: Half, d: Half, k: Half)
    ensures FLInv(X(y, d), k) == X(FLInv(y, k), FLDiff(d, k))
  {
    hide Rol1, Xor, And, Or, Not;
    var l := Xor(y.l, Or(y.r, k.r));
    var f := Xor(d.l, And(d.r, Not(k.r)));
    OrDifference(y.r, d.r, k.r);
    XorFour(y.l, d.l, Or(y.r, k.r), And(d.r, Not(k.r)));
    RolAndDifference(l, f, k.l);
    XorFour(y.r, d.r, Rol1(And(l, k.l)), Rol1(And(f, k.l)));
  }

  /** FL turns FLDiff of a difference back into the difference. */
  lemma FLDifference(x: Half, d: Half, k: Half)
    ensures FL(X(x, FLDiff(d, k)), k) == X(FL(x, k), d)
  {
    hide FL, FLInv, FLDiff, X;
    FLInvUndoesFL(x, k);
    FLInvDifference(FL(x, k), d, k);
    FLInvUndoesFL(X(FL(x, k), d), k);
  }

  lemma XCancelTwice(y: Half, k: Half, e: Half)
    ensures X(X(y, e), X(k, e)) == X(y, k)
  {
    hide Xor;
    XorFour(y.l, e.l, k.l, e.l);
    XorFour(y.r, e.r, k.r, e.r);
    XorSelf(e.l, Xor(y.l, k.l));
    XorSelf(e.r, Xor(y.r, k.r));
  }

  lemma XorSelf(a: bv32, b: bv32)
    ensures Xor(b, Xor(a, a)) == b
  {
  }

  lemma XorRound(y: bv32, d: bv32, prev: bv32, next: bv32, g: bv32)
    ensures Xor(Xor(Xor(Xor(y, d), prev), Xor(prev, next)), g) == Xor(Xor(Xor(y, g), d), next)
  {
    hide Xor;
    XorAssoc(Xor(Xor(y, d), prev), prev, next);
    XorCancel(Xor(y, d), prev);
    XorSwap(Xor(y, d), next, g);
    XorSwap(y, d, g);
  }

  /** One round: the key of this round is already on x, and the XOR on y moves on to `next`. */
  lemma RoundShift(t: Tables, x: Half, k: Half, y: Half, d: Half, prev: Half, next: Half)
    ensures X(X(X(X(y, d), prev), X(prev, next)), G(t, X(x, k))) == X(X(X(y, F(t, x, k)), d), next)
  {
    hide Xor, G, F;
    FIsGOfXor(t, x, k);
    var g := G(t, X(x, k));
    XorRound(y.l, d.l, prev.l, next.l, g.l);
    XorRound(y.r, d.r, prev.r, next.r, g.r);
  }

  /** The fast state at the start of group g against the plain one. */
  ghost predicate RelatedAtEntry(k: seq<Half>, groups: nat, g: nat, p: Block, f: Block)
    requires |k| == 8 * groups + 2 && g < groups
  {
    && f.d1 == X(X(p.d1, Kw4At(k, groups, g)), Entry1(k, groups, g))
    && f.d2 == X(X(p.d2, Kw2At(k, g)), Entry2(k, groups, g))
  }

  /** The same at the end of group g. */
  ghost predicate RelatedAtExit(k: seq<Half>, groups: nat, g: nat, p: Block, f: Block)
    requires |k| == 8 * groups + 2 && g < groups
  {
    && f.d1 == X(X(p.d1, Kw4At(k, groups, g)), Exit1(k, groups, g))
    && f.d2 == X(X(p.d2, Kw2At(k, g)), Absorbed(k, groups, g, 5))
  }

  lemma GroupShift(t: Tables, k: seq<Half>, table: seq<Half>, groups: nat, g: nat, p: Block, f: Block)
    requires 0 < groups && |k| == 8 * groups + 2 && g < groups && IsTail(table, k, groups)
    requires RelatedAtEntry(k, groups, g, p, f)
    ensures RelatedAtExit(k, groups, g, PlainRounds(t, k, 8 * g, p), FastRounds(t, table, 8 * g, f))
  {
    hide X, F, G, Kw2At, Kw4At, Entry2, Exit1;
    var i, e, d := 8 * g, Kw4At(k, groups, g), Kw2At(k, g);
    var a0, a1, a2 := X(k[i + 2], e), X(k[i + 3], d), X(k[i + 4], e);
    var a3, a4, a5 := X(k[i + 5], d), X(k[i + 6], e), X(k[i + 7], d);
    assert TailGroup(table, k, groups, g);
    assert table[i + 2] == TailRoundKey(k, groups, g, 0) == X(Entry2(k, groups, g), a1);
    assert table[i + 3] == TailRoundKey(k, groups, g, 1) == X(a0, a2);
    assert table[i + 4] == TailRoundKey(k, groups, g, 2) == X(a1, a3);
    assert table[i + 5] == TailRoundKey(k, groups, g, 3) == X(a2, a4);
    assert table[i + 6] == TailRoundKey(k, groups, g, 4) == X(a3, a5);
    assert table[i + 7] == TailRoundKey(k, groups, g, 5) == X(a4, Exit1(k, groups, g));
    var y1 := X(p.d2, F(t, p.d1, k[i + 2]));
    var x2 := X(p.d1, F(t, y1, k[i + 3]));
    var y3 := X(y1, F(t, x2, k[i + 4]));
    var x4 := X(x2, F(t, y3, k[i + 5]));
    var y5 := X(y3, F(t, x4, k[i + 6]));
    XCancelTwice(p.d1, k[i + 2], e);
    RoundShift(t, p.d1, k[i + 2], p.d2, d, Entry2(k, groups, g), a1);
    XCancelTwice(y1, k[i + 3], d);
    RoundShift(t, y1, k[i + 3], p.d1, e, a0, a2);
    XCancelTwice(x2, k[i + 4], e);
    RoundShift(t, x2, k[i + 4], y1, d, a1, a3);
    XCancelTwice(y3, k[i + 5], d);
    RoundShift(t, y3, k[i + 5], x2, e, a2, a4);
    XCancelTwice(x4, k[i + 6], e);
    RoundShift(t, x4, k[i + 6], y3, d, a3, a5);
    XCancelTwice(y5, k[i + 7], d);
    RoundShift(t, y5, k[i + 7], x4, e, a4, Exit1(k, groups, g));
  }

  lemma XAssoc(a: Half, b: Half, c: Half)
    ensures X(X(a, b), c) == X(a, X(b, c))
  {
    hide Xor;
    XorAssoc(a.l, b.l, c.l);
    XorAssoc(a.r, b.r, c.r);
  }

  lemma FLDiffXor(a: Half, b: Half, k: Half)
    ensures FLDiff(X(a, b), k) == X(FLDiff(a, k), FLDiff(b, k))
  {
    hide Rol1, Xor, And, Or, Not;
    AndDistributes(a.r, b.r, Not(k.r));
    XorFour(a.l, b.l, And(a.r, Not(k.r)), And(b.r, Not(k.r)));
    RolAndDifference(FLDiff(a, k).l, FLDiff(b, k).l, k.l);
    XorFour(a.r, b.r, Rol1(And(FLDiff(a, k).l, k.l)), Rol1(And(FLDiff(b, k).l, k.l)));
  }

  /** From the end of one group, through the FL layer, to the start of the next. */
  lemma LayerShift(k: seq<Half>, groups: nat, g: nat, p: Block, f: Block)
    requires |k| == 8 * groups + 2 && g + 1 < groups
    requires RelatedAtExit(k, groups, g, p, f)
    ensures RelatedAtEntry(k, groups, g + 1, Block(FL(p.d1, k[8 * g + 8]), FLInv(p.d2, k[8 * g + 9])),
                           Block(FL(f.d1, k[8 * g + 8]), FLInv(f.d2, k[8 * g + 9])))
  {
    hide X, FL, FLInv, FLDiff, Absorbed;
    var e, a, kl := Kw4At(k, groups, g + 1), Absorbed(k, groups, g + 1, 0), k[8 * g + 8];
    XAssoc(p.d1, FLDiff(e, kl), FLDiff(a, kl));
    FLDiffXor(e, a, kl);
    FLDifference(p.d1, X(e, a), kl);
    XAssoc(FL(p.d1, kl), e, a);
    var d, c, ki := Kw2At(k, g), Absorbed(k, groups, g, 5), k[8 * g + 9];
    assert 8 * (g + 1) + 1 == 8 * g + 9;
    XAssoc(p.d2, d, c);
    FLInvDifference(p.d2, X(d, c), ki);
    FLDiffXor(d, c, ki);
    XAssoc(FLInv(p.d2, ki), FLDiff(d, ki), FLDiff(c, ki));
  }

  lemma {:induction false} GroupsShift(t: Tables, k: seq<Half>, table: seq<Half>, groups: nat, g: nat, p: Block, f: Block)
    requires 0 < groups && |k| == 8 * groups + 2 && g < groups && IsTail(table, k, groups)
    requires RelatedAtEntry(k, groups, g, p, f)
    ensures RelatedAtExit(k, groups, groups - 1, PlainFrom(t, k, groups, g, p), FastFrom(t, table, groups, g, f))
    decreases groups - g
  {
    hide X, FL, FLInv, FLDiff, PlainRounds, FastRounds, RelatedAtEntry, RelatedAtExit, Kw2At, Kw4At;
    GroupShift(t, k, table, groups, g, p, f);
    if g + 1 < groups {
      var p', f' := PlainRounds(t, k, 8 * g, p), FastRounds(t, table, 8 * g, f);
      LayerShift(k, groups, g, p', f');
      assert table[8 * g + 8] == k[8 * g + 8] && table[8 * g + 9] == k[8 * g + 9];
      GroupsShift(t, k, table, groups, g + 1, Block(FL(p'.d1, k[8 * g + 8]), FLInv(p'.d2, k[8 * g + 9])),
                  Block(FL(f'.d1, k[8 * g + 8]), FLInv(f'.d2, k[8 * g + 9])));
    }
  }

  lemma XTail(y: Half, d: Half, a: Half, w: Half)
    ensures X(X(X(y, d), a), X(X(w, d), a)) == X(y, w)
  {
    hide X;
    XCancelTwice(X(y, d), X(w, d), a);
    XCancelTwice(y, w, d);
  }

  lemma XZero(a: Half)
    ensures X(a, ZERO) == a
  {
  }

  /**
   The absorbed schedule and the fast rounds compute Camellia: for any tables, any raw subkeys
   (3 groups for 128-bit keys, 4 for longer ones) and any block.
   */
  lemma AbsorptionKeepsMeaning(t: Tables, k: seq<Half>, table: seq<Half>, groups: nat, b: Block)
    requires 0 < groups && |k| == 8 * groups + 2 && IsTail(table, k, groups)
    ensures Fast(t, table, groups, b) == Plain(t, k, groups, b)
  {
    hide X, FL, FLInv, FLDiff, PlainFrom, FastFrom, Absorbed, Kw4At;
    var e, d, a := Kw4At(k, groups, 0), Kw2At(k, groups - 1), Absorbed(k, groups, groups - 1, 5);
    var p, f := Block(X(b.d1, k[0]), X(b.d2, k[1])), Block(X(b.d1, table[0]), b.d2);
    XAssoc(b.d1, X(k[0], e), Absorbed(k, groups, 0, 0));
    XAssoc(b.d1, k[0], e);
    XZero(X(X(b.d2, k[1]), k[1]));
    XCancel(b.d2, k[1]);
    GroupsShift(t, k, table, groups, 0, p, f);
    var p', f' := PlainFrom(t, k, groups, 0, p), FastFrom(t, table, groups, 0, f);
    XTail(p'.d2, d, a, k[8 * groups]);
    XZero(X(p'.d1, k[8 * groups + 1]));
    assert Kw4At(k, groups, groups - 1) == k[8 * groups + 1] by { Kw4Last(k, groups); }
  }

  lemma Kw4Last(k: seq<Half>, groups: nat)
    requires 0 < groups && |k| == 8 * groups + 2
    ensures Kw4At(k, groups, groups - 1) == k[8 * groups + 1]
  {
  }

  lemma XCancel(a: Half, b: Half)
    ensures X(X(a, b), b) == a
  {
    hide Xor;
    XorCancel(a.l, b.l);
    XorCancel(a.r, b.r);
  }

  // ----- decryption -----

  function FastRoundsBack(t: Tables, k: seq<Half>, i: nat, b: Block): Block
    requires i + 8 <= |k|
  {
    var y1 := X(X(b.d2, k[i + 7]), G(t, b.d1));
    var x2 := X(X(b.d1, k[i + 6]), G(t, y1));
    var y3 := X(X(y1, k[i + 5]), G(t, x2));
    var x4 := X(X(x2, k[i + 4]), G(t, y3));
    var y5 := X(X(y3, k[i + 3]), G(t, x4));
    Block(X(X(x4, k[i + 2]), G(t, y5)), y5)
  }

  /** Groups 0..n run backwards, from the last to the first. */
  function FastBack(t: Tables, k: seq<Half>, n: nat, b: Block): Block
    requires 0 < n && 8 * n < |k|
  {
    var c := FastRoundsBack(t, k, 8 * (n - 1), b);
    if n == 1 then c
    else FastBack(t, k, n - 1, Block(FL(c.d1, k[8 * n - 7]), FLInv(c.d2, k[8 * n - 8])))
  }

  /** What camellia_do_decrypt leaves in io for a subkey table k. */
  function FastDecrypt(t: Tables, k: seq<Half>, groups: nat, b: Block): Block
    requires 0 < groups && 8 * groups < |k|
  {
    var c := FastBack(t, k, groups, Block(X(b.d1, k[8 * groups]), b.d2));
    Block(c.d1, X(c.d2, k[0]))
  }

  lemma XUndo(y: Half, k: Half, g: Half)
    ensures X(X(X(X(y, k), g), k), g) == y
  {
    hide Xor;
    XorSwap(Xor(y.l, k.l), g.l, k.l);
    XorCancel(y.l, k.l);
    XorCancel(y.l, g.l);
    XorSwap(Xor(y.r, k.r), g.r, k.r);
    XorCancel(y.r, k.r);
    XorCancel(y.r, g.r);
  }

  lemma RoundsUndone(t: Tables, k: seq<Half>, i: nat, b: Block)
    requires i + 8 <= |k|
    ensures FastRoundsBack(t, k, i, FastRounds(t, k, i, b).Swap()).Swap() == b
  {
    hide X, G;
    var y1 := X(X(b.d2, k[i + 2]), G(t, b.d1));
    var x2 := X(X(b.d1, k[i + 3]), G(t, y1));
    var y3 := X(X(y1, k[i + 4]), G(t, x2));
    var x4 := X(X(x2, k[i + 5]), G(t, y3));
    var y5 := X(X(y3, k[i + 6]), G(t, x4));
    XUndo(x4, k[i + 7], G(t, y5));
    XUndo(y3, k[i + 6], G(t, x4));
    XUndo(x2, k[i + 5], G(t, y3));
    XUndo(y1, k[i + 4], G(t, x2));
    XUndo(b.d1, k[i + 3], G(t, y1));
    XUndo(b.d2, k[i + 2], G(t, b.d1));
  }

  /** State after groups 0..n, used to line the backward run up with the forward one. */
  function FastUpTo(t: Tables, k: seq<Half>, n: nat, b: Block): Block
    requires 0 < n && 8 * n < |k|
  {
    if n == 1 then FastRounds(t, k, 0, b)
    else
      var c := FastUpTo(t, k, n - 1, b);
      FastRounds(t, k, 8 * (n - 1), Block(FL(c.d1, k[8 * n - 8]), FLInv(c.d2, k[8 * n - 7])))
  }

  lemma {:induction false} FastFromUpTo(t: Tables, k: seq<Half>, groups: nat, g: nat, b: Block)
    requires g < groups && 8 * groups < |k|
    ensures FastFrom(t, k, groups, g, if g == 0 then b else
      var c := FastUpTo(t, k, g, b); Block(FL(c.d1, k[8 * g]), FLInv(c.d2, k[8 * g + 1]))) == FastUpTo(t, k, groups, b)
    decreases groups - g
  {
    hide FastRounds, FL, FLInv;
    if g + 1 < groups {
      assert 8 * (g + 1) == 8 * g + 8;
      FastFromUpTo(t, k, groups, g + 1, b);
    }
  }

  lemma {:induction false} BackUndoesUpTo(t: Tables, k: seq<Half>, n: nat, b: Block)
    requires 0 < n && 8 * n < |k|
    ensures FastBack(t, k, n, FastUpTo(t, k, n, b).Swap()).Swap() == b
  {
    hide FastRounds, FastRoundsBack, FL, FLInv;
    if n == 1 {
      RoundsUndone(t, k, 0, b);
    } else {
      var c := FastUpTo(t, k, n - 1, b);
      RoundsUndone(t, k, 8 * (n - 1), Block(FL(c.d1, k[8 * n - 8]), FLInv(c.d2, k[8 * n - 7])));
      FLInvUndoesFL(c.d1, k[8 * n - 8]);
      FLInvUndoesFL(c.d2, k[8 * n - 7]);
      BackUndoesUpTo(t, k, n - 1, b);
    }
  }

  /** Decryption undoes encryption for every subkey table, with the swap its callers apply. */
  lemma DecryptUndoesEncrypt(t: Tables, k: seq<Half>, groups: nat, b: Block)
    requires 0 < groups && 8 * groups < |k|
    ensures FastDecrypt(t, k, groups, Fast(t, k, groups, b).Swap()).Swap() == b
  {
    hide X, FastFrom, FastUpTo, FastBack;
    var a := Block(X(b.d1, k[0]), b.d2);
    FastFromUpTo(t, k, groups, 0, a);
    var c := FastUpTo(t, k, groups, a);
    XCancel(c.d2, k[8 * groups]);
    BackUndoesUpTo(t, k, groups, a);
    XCancel(b.d1, k[0]);
  }

  // ----- the C functions -----

  lemma HalfCancel(x: Half, d: Half)
    ensures X(X(x, d), d) == x
  {
    hide Xor;
    XorCancel(x.l, d.l);
    XorCancel(x.r, d.r);
  }

  /**
   CAMELLIA_ROUNDSM on io[x] with key k, adding into io[y].  Besides k it adds what F of the RFC
   gives for the half that io[x] stands for, whatever key d has been absorbed into io[x].
   */
  method RoundSm(t: Tables, io: array<Half>, x: nat, y: nat, k: Half)
    requires io.Length == 2 && x < 2 && y < 2 && x != y
    modifies io
    ensures io[x] == old(io[x]) && io[y] == X(X(old(io[y]), k), G(t, io[x]))
    ensures forall d :: io[y] == X(X(old(io[y]), k), F(t, X(io[x], d), d))
  {
    hide Xor, Shr8, Shr16, Shr24, Byte, Ror8, F;
    var xl, xr := io[x].l, io[x].r;
    io[y] := Half(Xor(io[y].l, k.l), Xor(io[y].r, k.r));
    var ir := t.sp1110(Byte(xr));
    var il := t.sp1110(Byte(Shr24(xl)));
    ir := Xor(ir, t.sp0222(Byte(Shr24(xr))));
    il := Xor(il, t.sp0222(Byte(Shr16(xl))));
    ir := Xor(ir, t.sp3033(Byte(Shr16(xr))));
    il := Xor(il, t.sp3033(Byte(Shr8(xl))));
    ir := Xor(ir, t.sp4404(Byte(Shr8(xr))));
    il := Xor(il, t.sp4404(Byte(xl)));
    ir := Xor(ir, il);
    io[y] := Half(Xor(io[y].l, ir), Xor(io[y].r, Xor(Ror8(il), ir)));
    assert io[y] == X(X(old(io[y]), k), G(t, io[x]));
    forall d ensures G(t, io[x]) == F(t, X(io[x], d), d) {
      FIsGOfXor(t, X(io[x], d), d);
      HalfCancel(io[x], d);
    }
  }

  /** CAMELLIA_FLS: FL on io[0] with key kl, FLINV on io[1] with key kr. */
  method FlsLayer(io: array<Half>, kl: Half, kr: Half)
    requires io.Length == 2
    modifies io
    ensures io[0] == FL(old(io[0]), kl) && io[1] == FLInv(old(io[1]), kr)
  {
    hide Xor, And, Or, Rol1;
    var t0 := And(kl.l, io[0].l);
    var t2 := Or(kr.r, io[1].r);
    AndOrComm(kl.l, io[0].l);
    AndOrComm(kr.r, io[1].r);
    io[1] := Half(Xor(io[1].l, t2), io[1].r);
    io[0] := Half(io[0].l, Xor(io[0].r, Rol1(t0)));
    var t3 := And(kr.l, io[1].l);
    var t1 := Or(kl.r, io[0].r);
    AndOrComm(kr.l, io[1].l);
    AndOrComm(kl.r, io[0].r);
    io[0] := Half(Xor(io[0].l, t1), io[0].r);
    io[1] := Half(io[1].l, Xor(io[1].r, Rol1(t3)));
  }

  lemma AndOrComm(a: bv32, b: bv32)
    ensures And(a, b) == And(b, a) && Or(a, b) == Or(b, a)
  {
  }

  /** ROUNDS(i) of camellia_do_encrypt. */
  method EncryptRounds(t: Tables, subkey: array<Half>, io: array<Half>, i: nat)
    requires io.Length == 2 && i + 8 <= subkey.Length && io != subkey
    modifies io
    ensures Block(io[0], io[1]) == FastRounds(t, subkey[..], i, old(Block(io[0], io[1])))
  {
    hide X, G;
    RoundSm(t, io, 0, 1, subkey[i + 2]);
    RoundSm(t, io, 1, 0, subkey[i + 3]);
    RoundSm(t, io, 0, 1, subkey[i + 4]);
    RoundSm(t, io, 1, 0, subkey[i + 5]);
    RoundSm(t, io, 0, 1, subkey[i + 6]);
    RoundSm(t, io, 1, 0, subkey[i + 7]);
  }

  /** ROUNDS(i) of camellia_do_decrypt. */
  method DecryptRounds(t: Tables, subkey: array<Half>, io: array<Half>, i: nat)
    requires io.Length == 2 && i + 8 <= subkey.Length && io != subkey
    modifies io
    ensures Block(io[0], io[1]) == FastRoundsBack(t, subkey[..], i, old(Block(io[0], io[1])))
  {
    hide X, G;
    RoundSm(t, io, 0, 1, subkey[i + 7]);
    RoundSm(t, io, 1, 0, subkey[i + 6]);
    RoundSm(t, io, 0, 1, subkey[i + 5]);
    RoundSm(t, io, 1, 0, subkey[i + 4]);
    RoundSm(t, io, 0, 1, subkey[i + 3]);
    RoundSm(t, io, 1, 0, subkey[i + 2]);
  }

  /** camellia_do_encrypt: io is left as the fast cipher says, before the caller's swap. */
  method DoEncrypt(t: Tables, subkey: array<Half>, io: array<Half>, max: nat)
    requires io.Length == 2 && io != subkey
    requires (max == 24 || max == 32) && max < subkey.Length
    modifies io
    ensures Block(io[0], io[1]) == Fast(t, subkey[..], max / 8, old(Block(io[0], io[1])))
  {
    hide X, FL, FLInv, FastRounds;
    ghost var k, groups := subkey[..], max / 8;
    io[0] := X(io[0], subkey[0]);
    ghost var b0 := Block(io[0], io[1]);
    EncryptRounds(t, subkey, io, 0);
    FlsLayer(io, subkey[8], subkey[9]);
    ghost var b1 := Block(io[0], io[1]);
    assert FastFrom(t, k, groups, 0, b0) == FastFrom(t, k, groups, 1, b1);
    EncryptRounds(t, subkey, io, 8);
    FlsLayer(io, subkey[16], subkey[17]);
    ghost var b2 := Block(io[0], io[1]);
    assert FastFrom(t, k, groups, 1, b1) == FastFrom(t, k, groups, 2, b2);
    EncryptRounds(t, subkey, io, 16);
    if max == 32 {
      FlsLayer(io, subkey[24], subkey[25]);
      ghost var b3 := Block(io[0], io[1]);
      assert FastFrom(t, k, groups, 2, b2) == FastFrom(t, k, groups, 3, b3);
      EncryptRounds(t, subkey, io, 24);
    }
    io[1] := X(io[1], subkey[max]);
  }

  /** camellia_do_decrypt: the FL layers get their two keys exchanged. */
  method DoDecrypt(t: Tables, subkey: array<Half>, io: array<Half>, i: nat)
    requires io.Length == 2 && io != subkey
    requires (i == 24 || i == 32) && i < subkey.Length
    modifies io
    ensures Block(io[0], io[1]) == FastDecrypt(t, subkey[..], i / 8, old(Block(io[0], io[1])))
  {
    hide X, FL, FLInv, FastRoundsBack;
    ghost var k, groups := subkey[..], i / 8;
    io[0] := X(io[0], subkey[i]);
    ghost var b0 := Block(io[0], io[1]);
    if i == 32 {
      DecryptRounds(t, subkey, io, 24);
      FlsLayer(io, subkey[25], subkey[24]);
    }
    ghost var b1 := Block(io[0], io[1]);
    assert FastBack(t, k, groups, b0) == FastBack(t, k, 3, b1);
    DecryptRounds(t, subkey, io, 16);
    FlsLayer(io, subkey[17], subkey[16]);
    ghost var b2 := Block(io[0], io[1]);
    assert FastBack(t, k, 3, b1) == FastBack(t, k, 2, b2);
    DecryptRounds(t, subkey, io, 8);
    FlsLayer(io, subkey[9], subkey[8]);
    ghost var b3 := Block(io[0], io[1]);
    assert FastBack(t, k, 2, b2) == FastBack(t, k, 1, b3);
    DecryptRounds(t, subkey, io, 0);
    io[1] := X(io[1], subkey[0]);
  }

  // ----- camellia_setup_tail -----

  /** Group g of s is that of k with d added to the odd-numbered round keys. */
  ghost predicate OddAdded(s: seq<Half>, k: seq<Half>, g: nat, d: Half)
    requires |s| == |k| && 8 * g + 10 <= |k|
  {
    var i := 8 * g;
    && s[i + 2] == k[i + 2] && s[i + 4] == k[i + 4] && s[i + 6] == k[i + 6]
    && s[i + 3] == X(k[i + 3], d) && s[i + 5] == X(k[i + 5], d) && s[i + 7] == X(k[i + 7], d)
  }

  /** Group g of s is that of k with d added to the even-numbered round keys. */
  ghost predicate EvenAdded(s: seq<Half>, k: seq<Half>, g: nat, d: Half)
    requires |s| == |k| && 8 * g + 10 <= |k|
  {
    var i := 8 * g;
    && s[i + 3] == k[i + 3] && s[i + 5] == k[i + 5] && s[i + 7] == k[i + 7]
    && s[i + 2] == X(k[i + 2], d) && s[i + 4] == X(k[i + 4], d) && s[i + 6] == X(k[i + 6], d)
  }

  function OddXored(s: seq<Half>, i: nat, d: Half): seq<Half>
    requires i + 8 <= |s|
  {
    s[i + 3 := X(s[i + 3], d)][i + 5 := X(s[i + 5], d)][i + 7 := X(s[i + 7], d)]
  }

  function EvenXored(s: seq<Half>, i: nat, d: Half): seq<Half>
    requires i + 8 <= |s|
  {
    s[i + 6 := X(s[i + 6], d)][i + 4 := X(s[i + 4], d)][i + 2 := X(s[i + 2], d)]
  }

  /** s and k agree outside the entries lo..hi and the scratch entry 1. */
  ghost predicate SameOutside(s: seq<Half>, k: seq<Half>, lo: nat, hi: nat)
  {
    |s| == |k| && forall m: nat | m < |k| && m != 1 && !(lo <= m < hi) :: s[m] == k[m]
  }

  /** The three lines for rounds 8g+2, 8g+4 and 8g+6 of the kw2 part. */
  method XorOdd(sub: array<Half>, g: nat)
    requires 8 * g + 10 <= sub.Length
    modifies sub
    ensures OddAdded(sub[..], old(sub[..]), g, old(sub[1]))
    ensures SameOutside(sub[..], old(sub[..]), 8 * g + 2, 8 * g + 8) && sub[1] == old(sub[1])
  {
    hide X;
    ghost var k := sub[..];
    var i := 8 * g;
    sub[i + 3] := X(sub[i + 3], sub[1]);
    sub[i + 5] := X(sub[i + 5], sub[1]);
    sub[i + 7] := X(sub[i + 7], sub[1]);
    assert sub[..] == OddXored(k, i, sub[1]);
  }

  /** The three lines for rounds 8g+1, 8g+3 and 8g+5 of the kw4 part. */
  method XorEven(sub: array<Half>, g: nat, kw4: Half)
    requires 8 * g + 10 <= sub.Length
    modifies sub
    ensures EvenAdded(sub[..], old(sub[..]), g, kw4)
    ensures SameOutside(sub[..], old(sub[..]), 8 * g + 2, 8 * g + 8) && sub[1] == old(sub[1])
  {
    hide X;
    ghost var k := sub[..];
    var i := 8 * g;
    sub[i + 6] := X(sub[i + 6], kw4);
    sub[i + 4] := X(sub[i + 4], kw4);
    sub[i + 2] := X(sub[i + 2], kw4);
    assert sub[..] == EvenXored(k, i, kw4);
  }

  /** s is k with kw2 added to the groups before g; entry 1 is scratch. */
  ghost predicate Kw2Stage(s: seq<Half>, k: seq<Half>, g: nat)
    requires |s| == |k| && 8 * g + 2 <= |k|
  {
    && s[0] == k[0]
    && (forall h: nat | h < g :: OddAdded(s, k, h, Kw2At(k, h)))
    && (forall h: nat | h < g :: s[8 * h + 8] == k[8 * h + 8] && s[8 * h + 9] == k[8 * h + 9])
    && (forall m: nat | 8 * g + 2 <= m < |k| :: s[m] == k[m])
  }

  lemma Kw2StageStep(s: seq<Half>, s': seq<Half>, k: seq<Half>, g: nat)
    requires |s| == |s'| == |k| && 8 * g + 10 <= |k|
    requires Kw2Stage(s, k, g)
    requires OddAdded(s', s, g, Kw2At(k, g)) && SameOutside(s', s, 8 * g + 2, 8 * g + 8)
    ensures Kw2Stage(s', k, g + 1)
  {
    hide X, Kw2At;
    forall h: nat | h < g + 1 ensures OddAdded(s', k, h, Kw2At(k, h)) {
      if h < g {
        assert OddAdded(s, k, h, Kw2At(k, h));
      }
    }
  }

  /** s is k with kw4 added to the groups from g on. */
  ghost predicate Kw4Stage(s: seq<Half>, k: seq<Half>, groups: nat, g: nat)
    requires |s| == |k| == 8 * groups + 2 && g <= groups
  {
    && (forall h: nat | g <= h < groups :: EvenAdded(s, k, h, Kw4At(k, groups, h)))
    && (forall h: nat | g <= h < groups :: s[8 * h + 8] == k[8 * h + 8] && s[8 * h + 9] == k[8 * h + 9])
    && (forall m: nat | m < 8 * g + 2 && m != 1 :: s[m] == k[m])
  }

  lemma Kw4StageStep(s: seq<Half>, s': seq<Half>, k: seq<Half>, groups: nat, g: nat)
    requires |s| == |s'| == |k| == 8 * groups + 2 && g < groups
    requires Kw4Stage(s, k, groups, g + 1)
    requires EvenAdded(s', s, g, Kw4At(k, groups, g)) && SameOutside(s', s, 8 * g + 2, 8 * g + 8)
    ensures Kw4Stage(s', k, groups, g)
  {
    hide X, Kw4At;
    forall h: nat | g <= h < groups ensures EvenAdded(s', k, h, Kw4At(k, groups, h)) {
      if g < h {
        assert EvenAdded(s, k, h, Kw4At(k, groups, h));
      }
    }
  }

  /** Entry 1 is free in both stages, and so is kw3's entry while kw2 passes. */
  lemma Kw2StageScratch(s: seq<Half>, k: seq<Half>, g: nat, d: Half)
    requires |s| == |k| && 8 * g + 2 <= |k|
    ensures Kw2Stage(k, k, 0)
    ensures Kw2Stage(s, k, g) ==> Kw2Stage(s[1 := d], k, g) && s[8 * g] == k[8 * g]
  {
    hide X, Kw2At;
    if Kw2Stage(s, k, g) {
      forall h: nat | h < g ensures OddAdded(s[1 := d], k, h, Kw2At(k, h)) {
        assert OddAdded(s, k, h, Kw2At(k, h));
      }
      if 0 < g {
        assert s[8 * (g - 1) + 8] == k[8 * (g - 1) + 8];
      }
    }
  }

  /** The kw2 part of camellia_setup_tail. */
  method AbsorbKw2(sub: array<Half>, max: nat)
    requires (max == 24 || max == 32) && sub.Length == max + 2
    modifies sub
    ensures Kw2Stage(sub[..][max := old(sub[max])], old(sub[..]), max / 8)
    ensures sub[max] == X(old(sub[max]), Kw2At(old(sub[..]), max / 8 - 1))
  {
    hide X, FLDiff, OddAdded, SameOutside, Kw2Stage;
    ghost var k, s := sub[..], sub[..];
    Kw2StageScratch(k, k, 0, k[1]);
    XorOdd(sub, 0);
    Kw2StageStep(s, sub[..], k, 0);
    NextKw2(sub, 1, k);
    s := sub[..];
    XorOdd(sub, 1);
    Kw2StageStep(s, sub[..], k, 1);
    NextKw2(sub, 2, k);
    s := sub[..];
    XorOdd(sub, 2);
    Kw2StageStep(s, sub[..], k, 2);
    if max == 32 {
      NextKw2(sub, 3, k);
      s := sub[..];
      XorOdd(sub, 3);
      Kw2StageStep(s, sub[..], k, 3);
    }
    s := sub[..];
    Kw2StageScratch(s, k, max / 8, k[1]);
    sub[max] := X(sub[max], sub[1]);
    assert sub[..][max := k[max]] == s;
  }

  /** Takes kw2 in entry 1 through the FLINV layer in front of group g. */
  method NextKw2(sub: array<Half>, g: nat, ghost k: seq<Half>)
    requires 0 < g && sub.Length == |k| && 8 * g + 2 <= |k|
    requires Kw2Stage(sub[..], k, g) && sub[1] == Kw2At(k, g - 1)
    modifies sub
    ensures Kw2Stage(sub[..], k, g) && sub[1] == Kw2At(k, g)
  {
    ghost var s := sub[..];
    assert s[8 * (g - 1) + 9] == k[8 * (g - 1) + 9];
    hide X, FLDiff, OddAdded, Kw2Stage;
    Kw2StageScratch(s, k, g, FLDiff(sub[1], sub[8 * g + 1]));
    sub[1] := FLDiff(sub[1], sub[8 * g + 1]);
    assert sub[..] == s[1 := sub[1]];
  }

  /** The kw4 part of camellia_setup_tail, from the last round to the first. */
  method AbsorbKw4(sub: array<Half>, max: nat)
    requires (max == 24 || max == 32) && sub.Length == max + 2
    modifies sub
    ensures Kw4Stage(sub[..][0 := old(sub[0])], old(sub[..]), max / 8, 0)
    ensures sub[0] == X(old(sub[0]), Kw4At(old(sub[..]), max / 8, 0))
  {
    hide X, FLDiff, EvenAdded, SameOutside, Kw4Stage;
    ghost var k, groups, s := sub[..], max / 8, sub[..];
    var kw4 := sub[max + 1];
    assert Kw4Stage(k, k, groups, groups) by { Kw4StageStart(k, groups); }
    if max == 32 {
      XorEven(sub, 3, kw4);
      Kw4StageStep(s, sub[..], k, groups, 3);
      Kw4StageKeys(sub[..], k, groups, 3);
      kw4 := FLDiff(kw4, sub[24]);
      s := sub[..];
    }
    assert kw4 == Kw4At(k, groups, 2);
    XorEven(sub, 2, kw4);
    Kw4StageStep(s, sub[..], k, groups, 2);
    Kw4StageKeys(sub[..], k, groups, 2);
    kw4 := FLDiff(kw4, sub[16]);
    s := sub[..];
    assert kw4 == Kw4At(k, groups, 1);
    XorEven(sub, 1, kw4);
    Kw4StageStep(s, sub[..], k, groups, 1);
    Kw4StageKeys(sub[..], k, groups, 1);
    kw4 := FLDiff(kw4, sub[8]);
    s := sub[..];
    assert kw4 == Kw4At(k, groups, 0);
    XorEven(sub, 0, kw4);
    Kw4StageStep(s, sub[..], k, groups, 0);
    Kw4StageKeys(sub[..], k, groups, 0);
    s := sub[..];
    sub[0] := X(sub[0], kw4);
    assert sub[..][0 := k[0]] == s;
  }

  lemma Kw4StageStart(k: seq<Half>, groups: nat)
    requires |k| == 8 * groups + 2
    ensures Kw4Stage(k, k, groups, groups)
  {
  }

  lemma Kw4StageKeys(s: seq<Half>, k: seq<Half>, groups: nat, g: nat)
    requires |s| == |k| == 8 * groups + 2 && g <= groups && Kw4Stage(s, k, groups, g)
    ensures s[0] == k[0] && (0 < g ==> s[8 * g] == k[8 * g])
  {
  }

  /** sub once both whitening keys are absorbed, as camellia_setup_tail's last part reads it. */
  ghost predicate BothAbsorbed(s: seq<Half>, k: seq<Half>, groups: nat)
    requires 0 < groups && |s| == |k| == 8 * groups + 2
  {
    && s[0] == X(k[0], Kw4At(k, groups, 0))
    && s[8 * groups] == X(k[8 * groups], Kw2At(k, groups - 1))
    && (forall g: nat | g < groups :: GroupAbsorbed(s, k, groups, g))
    && (forall g: nat | g + 1 < groups :: s[8 * g + 8] == k[8 * g + 8] && s[8 * g + 9] == k[8 * g + 9])
  }

  ghost predicate GroupAbsorbed(s: seq<Half>, k: seq<Half>, groups: nat, g: nat)
    requires |s| == |k| == 8 * groups + 2 && g < groups
  {
    forall j: nat | j < 6 :: s[8 * g + 2 + j] == Absorbed(k, groups, g, j)
  }

  lemma {:induction false} Kw4AtSame(s: seq<Half>, k: seq<Half>, groups: nat, g: nat)
    requires g < groups && |s| == |k| == 8 * groups + 2
    requires s[8 * groups + 1] == k[8 * groups + 1]
    requires forall h: nat | h + 1 < groups :: s[8 * h + 8] == k[8 * h + 8]
    ensures Kw4At(s, groups, g) == Kw4At(k, groups, g)
    decreases groups - g
  {
    hide FLDiff;
    if g + 1 < groups {
      Kw4AtSame(s, k, groups, g + 1);
      assert s[8 * g + 8] == k[8 * g + 8];
    }
  }

  lemma GroupAbsorbedBoth(s: seq<Half>, m: seq<Half>, k: seq<Half>, groups: nat, g: nat)
    requires |s| == |m| == |k| == 8 * groups + 2 && g < groups
    requires OddAdded(m, k, g, Kw2At(k, g)) && EvenAdded(s, m, g, Kw4At(k, groups, g))
    ensures GroupAbsorbed(s, k, groups, g)
  {
    hide X, Kw2At, Kw4At;
    var i := 8 * g;
    forall j: nat | j < 6 ensures s[8 * g + 2 + j] == Absorbed(k, groups, g, j) {
      if j == 0 {} else if j == 1 {} else if j == 2 {} else if j == 3 {} else if j == 4 {} else {}
    }
  }

  /** m is the array between the two parts and s the one after both. */
  lemma AbsorbedBoth(s: seq<Half>, m: seq<Half>, k: seq<Half>, groups: nat)
    requires 0 < groups && |s| == |m| == |k| == 8 * groups + 2
    requires Kw2Stage(m[8 * groups := k[8 * groups]], k, groups)
    requires m[8 * groups] == X(k[8 * groups], Kw2At(k, groups - 1))
    requires Kw4Stage(s[0 := m[0]], m, groups, 0) && s[0] == X(m[0], Kw4At(m, groups, 0))
    ensures BothAbsorbed(s, k, groups)
  {
    hide X, Kw2At, Kw4At, OddAdded, EvenAdded, GroupAbsorbed;
    var m', s' := m[8 * groups := k[8 * groups]], s[0 := m[0]];
    assert m[8 * groups + 1] == k[8 * groups + 1] by {
      assert m'[8 * (groups - 1) + 9] == k[8 * (groups - 1) + 9];
    }
    forall h: nat | h + 1 < groups ensures m[8 * h + 8] == k[8 * h + 8] && m[8 * h + 9] == k[8 * h + 9] {
      assert m'[8 * h + 8] == k[8 * h + 8] && m'[8 * h + 9] == k[8 * h + 9];
    }
    assert s[8 * groups] == m[8 * groups] by {
      assert s'[8 * (groups - 1) + 8] == m[8 * (groups - 1) + 8];
    }
    Kw4AtSame(m, k, groups, 0);
    forall g: nat | g < groups ensures GroupAbsorbed(s, k, groups, g) {
      Kw4AtSame(m, k, groups, g);
      assert OddAdded(m', k, g, Kw2At(k, g)) && EvenAdded(s', m, g, Kw4At(m, groups, g));
      AddedSame(s', s, m', m, k, groups, g);
      GroupAbsorbedBoth(s, m, k, groups, g);
    }
    forall g: nat | g + 1 < groups ensures s[8 * g + 8] == k[8 * g + 8] && s[8 * g + 9] == k[8 * g + 9] {
      assert s'[8 * g + 8] == m[8 * g + 8] && s'[8 * g + 9] == m[8 * g + 9];
    }
  }

  lemma AddedSame(s': seq<Half>, s: seq<Half>, m': seq<Half>, m: seq<Half>, k: seq<Half>, groups: nat, g: nat)
    requires |s'| == |s| == |m| == |m'| == |k| == 8 * groups + 2 && g < groups
    requires s' == s[0 := m[0]] && m' == m[8 * groups := k[8 * groups]]
    requires OddAdded(m', k, g, Kw2At(k, g)) && EvenAdded(s', m, g, Kw4At(k, groups, g))
    ensures OddAdded(m, k, g, Kw2At(k, g)) && EvenAdded(s, m, g, Kw4At(k, groups, g))
  {
    hide X, Kw2At, Kw4At;
  }

  lemma ZeroX(a: Half)
    ensures X(ZERO, a) == a && X(a, ZERO) == a
  {
  }

  /** The round keys of group g in terms of what the lines of the last part read. */
  lemma TableEntries(s: seq<Half>, k: seq<Half>, groups: nat, g: nat)
    requires 0 < groups && |s| == |k| == 8 * groups + 2 && g < groups && BothAbsorbed(s, k, groups)
    ensures TailRoundKey(k, groups, g, 0) == (if g == 0 then s[3] else X(FLDiff(s[8 * g - 1], s[8 * g + 1]), s[8 * g + 3]))
    ensures TailRoundKey(k, groups, g, 1) == X(s[8 * g + 2], s[8 * g + 4])
    ensures TailRoundKey(k, groups, g, 2) == X(s[8 * g + 3], s[8 * g + 5])
    ensures TailRoundKey(k, groups, g, 3) == X(s[8 * g + 4], s[8 * g + 6])
    ensures TailRoundKey(k, groups, g, 4) == X(s[8 * g + 5], s[8 * g + 7])
    ensures TailRoundKey(k, groups, g, 5) ==
      (if g + 1 == groups then s[8 * g + 6] else X(s[8 * g + 6], FLDiff(s[8 * g + 10], s[8 * g + 8])))
    ensures g + 1 < groups ==> s[8 * g + 8] == k[8 * g + 8] && s[8 * g + 9] == k[8 * g + 9]
  {
    hide X, FLDiff, Kw2At, Kw4At, Absorbed;
    assert GroupAbsorbed(s, k, groups, g);
    assert s[8 * g + 2 + 0] == Absorbed(k, groups, g, 0) && s[8 * g + 2 + 1] == Absorbed(k, groups, g, 1);
    assert s[8 * g + 2 + 2] == Absorbed(k, groups, g, 2) && s[8 * g + 2 + 3] == Absorbed(k, groups, g, 3);
    assert s[8 * g + 2 + 4] == Absorbed(k, groups, g, 4) && s[8 * g + 2 + 5] == Absorbed(k, groups, g, 5);
    ZeroX(s[8 * g + 3]);
    ZeroX(s[8 * g + 6]);
    if 0 < g {
      assert GroupAbsorbed(s, k, groups, g - 1);
      assert s[8 * (g - 1) + 2 + 5] == Absorbed(k, groups, g - 1, 5);
      assert s[8 * (g - 1) + 9] == k[8 * (g - 1) + 9];
    }
    if g + 1 < groups {
      assert GroupAbsorbed(s, k, groups, g + 1);
      assert s[8 * (g + 1) + 2 + 0] == Absorbed(k, groups, g + 1, 0);
    }
  }

  /** The table lines for the round keys of group g, and for the FL keys after it. */
  method EmitGroup(sub: array<Half>, subkey: array<Half>, g: nat, last: bool, ghost k: seq<Half>, ghost groups: nat)
    requires 0 < groups && sub.Length == |k| == 8 * groups + 2 && 8 * groups < subkey.Length && sub != subkey
    requires g < groups && (last <==> g + 1 == groups) && BothAbsorbed(sub[..], k, groups)
    modifies subkey
    ensures TailGroup(subkey[..], k, groups, g)
    ensures !last ==> subkey[8 * g + 8] == k[8 * g + 8] && subkey[8 * g + 9] == k[8 * g + 9]
    ensures forall n: nat | n < 8 * g + 2 || (if last then 8 * g + 8 else 8 * g + 10) <= n < subkey.Length :: subkey[n] == old(subkey[n])
  {
    hide X, FLDiff, TailRoundKey, BothAbsorbed;
    TableEntries(sub[..], k, groups, g);
    var i := 8 * g;
    var tl := if g == 0 then sub[3] else X(FLDiff(sub[i - 1], sub[i + 1]), sub[i + 3]);
    var tr := if last then sub[i + 6] else X(sub[i + 6], FLDiff(sub[i + 10], sub[i + 8]));
    EmitRounds(sub, subkey, i, tl, tr);
    if !last {
      subkey[i + 8] := sub[i + 8];
      subkey[i + 9] := sub[i + 9];
    }
  }

  method EmitRounds(sub: array<Half>, subkey: array<Half>, i: nat, tl: Half, tr: Half)
    requires i + 8 <= sub.Length && i + 8 <= subkey.Length && sub != subkey
    modifies subkey
    ensures subkey[i + 2] == tl && subkey[i + 7] == tr
    ensures subkey[i + 3] == X(sub[i + 2], sub[i + 4]) && subkey[i + 4] == X(sub[i + 3], sub[i + 5])
    ensures subkey[i + 5] == X(sub[i + 4], sub[i + 6]) && subkey[i + 6] == X(sub[i + 5], sub[i + 7])
    ensures forall n: nat | n < i + 2 || i + 8 <= n < subkey.Length :: subkey[n] == old(subkey[n])
  {
    hide X;
    subkey[i + 2] := tl;
    subkey[i + 3] := X(sub[i + 2], sub[i + 4]);
    subkey[i + 4] := X(sub[i + 3], sub[i + 5]);
    subkey[i + 5] := X(sub[i + 4], sub[i + 6]);
    subkey[i + 6] := X(sub[i + 5], sub[i + 7]);
    subkey[i + 7] := tr;
  }

  /** Later lines of the last part do not touch the entries of an earlier group. */
  lemma TailGroupKept(t: seq<Half>, t': seq<Half>, k: seq<Half>, groups: nat, g: nat, n: nat)
    requires |k| == 8 * groups + 2 && g < groups && 8 * groups < |t| == |t'| && 8 * g + 8 <= n
    requires TailGroup(t, k, groups, g) && (forall m: nat | m < n && m < |t| :: t[m] == t'[m])
    ensures TailGroup(t', k, groups, g)
  {
    hide TailRoundKey;
  }

  /** camellia_setup_tail. */
  method SetupTail(subkey: array<Half>, sub: array<Half>, max: nat)
    requires (max == 24 || max == 32) && sub.Length == max + 2 && max < subkey.Length && sub != subkey
    modifies sub, subkey
    ensures IsTail(subkey[..], old(sub[..]), max / 8)
  {
    hide X, Kw2At, Kw4At, Absorbed, Kw2Stage, Kw4Stage, TailGroup, GroupAbsorbed, BothAbsorbed;
    ghost var k, groups := sub[..], max / 8;
    AbsorbKw2(sub, max);
    ghost var m := sub[..];
    AbsorbKw4(sub, max);
    AbsorbedBoth(sub[..], m, k, groups);
    EndEntries(sub[..], k, groups);
    subkey[0] := X(sub[0], sub[2]);
    EmitGroup(sub, subkey, 0, false, k, groups);
    ghost var t0 := subkey[..];
    EmitGroup(sub, subkey, 1, false, k, groups);
    ghost var t1 := subkey[..];
    EmitGroup(sub, subkey, 2, max == 24, k, groups);
    ghost var t2 := subkey[..];
    if max == 32 {
      EmitGroup(sub, subkey, 3, true, k, groups);
    }
    ghost var t3 := subkey[..];
    subkey[max] := X(sub[max], sub[max - 1]);
    TailGroupKept(t0, subkey[..], k, groups, 0, 10);
    TailGroupKept(t1, subkey[..], k, groups, 1, 18);
    TailGroupKept(t2, subkey[..], k, groups, 2, 24);
    if max == 32 {
      TailGroupKept(t3, subkey[..], k, groups, 3, 32);
    }
    TailOfGroups(subkey[..], k, groups);
  }

  lemma TailOfGroups(t: seq<Half>, k: seq<Half>, groups: nat)
    requires (groups == 3 || groups == 4) && |k| == 8 * groups + 2 && 8 * groups < |t|
    requires t[0] == X(X(k[0], Kw4At(k, groups, 0)), Absorbed(k, groups, 0, 0))
    requires t[8 * groups] == X(X(k[8 * groups], Kw2At(k, groups - 1)), Absorbed(k, groups, groups - 1, 5))
    requires TailGroup(t, k, groups, 0) && TailGroup(t, k, groups, 1) && TailGroup(t, k, groups, 2)
    requires t[8] == k[8] && t[9] == k[9] && t[16] == k[16] && t[17] == k[17]
    requires groups == 4 ==> TailGroup(t, k, groups, 3) && t[24] == k[24] && t[25] == k[25]
    ensures IsTail(t, k, groups)
  {
    hide X, Kw2At, Kw4At, Absorbed, TailGroup;
    forall g: nat | g + 1 < groups ensures t[8 * g + 8] == k[8 * g + 8] && t[8 * g + 9] == k[8 * g + 9] {
      if g == 0 {} else if g == 1 {} else {}
    }
    forall g: nat | g < groups ensures TailGroup(t, k, groups, g) {
      if g == 0 {} else if g == 1 {} else if g == 2 {} else {}
    }
  }

  lemma EndEntries(s: seq<Half>, k: seq<Half>, groups: nat)
    requires 0 < groups && |s| == |k| == 8 * groups + 2 && BothAbsorbed(s, k, groups)
    ensures X(s[0], s[2]) == X(X(k[0], Kw4At(k, groups, 0)), Absorbed(k, groups, 0, 0))
    ensures X(s[8 * groups], s[8 * groups - 1]) == X(X(k[8 * groups], Kw2At(k, groups - 1)), Absorbed(k, groups, groups - 1, 5))
  {
    hide X, Kw2At, Kw4At, Absorbed;
    assert GroupAbsorbed(s, k, groups, 0) && GroupAbsorbed(s, k, groups, groups - 1);
    assert s[8 * 0 + 2 + 0] == Absorbed(k, groups, 0, 0);
    assert s[8 * (groups - 1) + 2 + 5] == Absorbed(k, groups, groups - 1, 5);
  }
}
