/**
 AEGIS-128: the generic code, which updates five state blocks in place, against a recursive
 definition of encryption, decryption, associated data and tag over an unknown AES round.
 */
module Aegis {
  import opened Bytes
  import opened Numbers

  /** One AES round with a zero round key. */
  type Round = Bytes -> Bytes

  ghost predicate IsRound(R: Round) {
    forall b: Bytes :: |b| == 16 ==> |R(b)| == 16
  }

  predicate IsState(s: seq<Bytes>) {
    |s| == 5 && |s[0]| == |s[1]| == |s[2]| == |s[3]| == |s[4]| == 16
  }

  function AndByte(a: bv8, b: bv8): bv8 { a & b }

  function And(a: Bytes, b: Bytes): (r: Bytes)
    requires |a| == |b|
    ensures |r| == |a|
  {
    seq(|a|, i requires 0 <= i < |a| => AndByte(a[i], b[i]))
  }

  /** crypto_aegis_aesenc */
  function AesEnc(R: Round, src: Bytes, key: Bytes): (r: Bytes)
    requires IsRound(R) && |src| == |key| == 16
    ensures |r| == 16
  {
    Xor(R(src), key)
  }

  /** The state after absorbing the block m: every block from the old state. */
  function Update(R: Round, s: seq<Bytes>, m: Bytes): (t: seq<Bytes>)
    requires IsRound(R) && IsState(s) && |m| == 16
    ensures IsState(t)
  {
    [Xor(AesEnc(R, s[4], s[0]), m), AesEnc(R, s[0], s[1]), AesEnc(R, s[1], s[2]), AesEnc(R, s[2], s[3]), AesEnc(R, s[3], s[4])]
  }

  /** The key stream block of a state. */
  function KeyBlock(s: seq<Bytes>): (r: Bytes)
    requires IsState(s)
    ensures |r| == 16
  {
    Xor(Xor(And(s[2], s[3]), s[4]), s[1])
  }

  /** Every byte of it, from the bytes at that place: S1 xor S4 xor (S2 and S3). */
  lemma KeyBlockBytes(s: seq<Bytes>, i: nat)
    requires IsState(s) && i < 16
    ensures KeyBlock(s)[i] == s[1][i] ^ s[4][i] ^ (s[2][i] & s[3][i])
  {
    hide XorByte, AndByte;
    KeyByte(s[1][i], s[2][i], s[3][i], s[4][i]);
  }

  lemma KeyByte(a: bv8, b: bv8, c: bv8, d: bv8)
    ensures XorByte(XorByte(AndByte(b, c), d), a) == a ^ d ^ (b & c)
  {
  }

  function Pad(m: Bytes): (r: Bytes)
    requires |m| <= 16
    ensures |r| == 16
  {
    m + Zeros(16 - |m|)
  }

  function First(m: Bytes): (n: nat)
    ensures n <= |m| && n <= 16 && (|m| != 0 ==> 0 < n) && (n < 16 ==> n == |m|)
  {
    if |m| < 16 then |m| else 16
  }

  /** The state after a string cut in blocks, the last of them padded with zeros. */
  function Absorb(R: Round, s: seq<Bytes>, m: Bytes): (t: seq<Bytes>)
    requires IsRound(R) && IsState(s)
    ensures IsState(t)
    decreases |m|
  {
    if |m| == 0 then s else Absorb(R, Update(R, s, Pad(m[..First(m)])), m[First(m)..])
  }

  /** A piece of at most a block under the key stream of a state. */
  function Mask(s: seq<Bytes>, x: Bytes): (r: Bytes)
    requires IsState(s) && |x| <= 16
    ensures |r| == |x|
  {
    Xor(x, KeyBlock(s)[..|x|])
  }

  function Encrypted(R: Round, s: seq<Bytes>, p: Bytes): (c: Bytes)
    requires IsRound(R) && IsState(s)
    ensures |c| == |p|
    decreases |p|
  {
    if |p| == 0 then []
    else
      var x := p[..First(p)];
      Mask(s, x) + Encrypted(R, Update(R, s, Pad(x)), p[First(p)..])
  }

  function Decrypted(R: Round, s: seq<Bytes>, c: Bytes): (p: Bytes)
    requires IsRound(R) && IsState(s)
    ensures |p| == |c|
    decreases |c|
  {
    if |c| == 0 then []
    else
      var x := Mask(s, c[..First(c)]);
      x + Decrypted(R, Update(R, s, Pad(x)), c[First(c)..])
  }

  lemma MaskTwice(s: seq<Bytes>, x: Bytes)
    requires IsState(s) && |x| <= 16
    ensures Mask(s, Mask(s, x)) == x
  {
    hide Xor, KeyBlock;
    XorCancel(x, KeyBlock(s)[..|x|]);
  }

  lemma EncryptedCons(R: Round, s: seq<Bytes>, x: Bytes, p: Bytes)
    requires IsRound(R) && IsState(s) && 0 < |x| <= 16 && (|x| == 16 || |p| == 0)
    ensures Encrypted(R, s, x + p) == Mask(s, x) + Encrypted(R, Update(R, s, Pad(x)), p)
  {
    hide Mask, Update;
    assert (x + p)[..|x|] == x && (x + p)[|x|..] == p;
  }

  lemma DecryptedCons(R: Round, s: seq<Bytes>, y: Bytes, c: Bytes)
    requires IsRound(R) && IsState(s) && 0 < |y| <= 16 && (|y| == 16 || |c| == 0)
    ensures Decrypted(R, s, y + c) == Mask(s, y) + Decrypted(R, Update(R, s, Pad(Mask(s, y))), c)
  {
    hide Mask, Update;
    assert (y + c)[..|y|] == y && (y + c)[|y|..] == c;
  }

  lemma AbsorbCons(R: Round, s: seq<Bytes>, x: Bytes, m: Bytes)
    requires IsRound(R) && IsState(s) && 0 < |x| <= 16 && (|x| == 16 || |m| == 0)
    ensures Absorb(R, s, x + m) == Absorb(R, Update(R, s, Pad(x)), m)
  {
    hide Update;
    assert (x + m)[..|x|] == x && (x + m)[|x|..] == m;
  }

  lemma Nothing(R: Round, s: seq<Bytes>)
    requires IsRound(R) && IsState(s)
    ensures Encrypted(R, s, []) == [] && Decrypted(R, s, []) == [] && Absorb(R, s, []) == s
  {
  }

  /** Decryption recovers the plaintext, whatever its length. */
  lemma {:induction false} RoundTrip(R: Round, s: seq<Bytes>, p: Bytes)
    requires IsRound(R) && IsState(s)
    ensures Decrypted(R, s, Encrypted(R, s, p)) == p
    decreases |p|
  {
    hide Mask, Update, Encrypted, Decrypted;
    if |p| == 0 {
      Nothing(R, s);
    } else {
      var x, t := p[..First(p)], p[First(p)..];
      assert p == x + t;
      EncryptedCons(R, s, x, t);
      DecryptedCons(R, s, Mask(s, x), Encrypted(R, Update(R, s, Pad(x)), t));
      MaskTwice(s, x);
      RoundTrip(R, Update(R, s, Pad(x)), t);
    }
  }

  // ----- cutting at block boundaries -----

  lemma {:induction false} AbsorbConcat(R: Round, s: seq<Bytes>, a: Bytes, b: Bytes)
    requires IsRound(R) && IsState(s) && |a| % 16 == 0
    ensures Absorb(R, s, a + b) == Absorb(R, Absorb(R, s, a), b)
    decreases |a|
  {
    hide Update, Absorb;
    if |a| == 0 {
      Nothing(R, s);
      assert a == [] && a + b == b;
    } else {
      var x, t := a[..16], a[16..];
      assert a == x + t && a + b == x + (t + b);
      AbsorbCons(R, s, x, t);
      AbsorbCons(R, s, x, t + b);
      AbsorbConcat(R, Update(R, s, Pad(x)), t, b);
    }
  }

  lemma {:induction false} EncryptedConcat(R: Round, s: seq<Bytes>, a: Bytes, b: Bytes)
    requires IsRound(R) && IsState(s) && |a| % 16 == 0
    ensures Encrypted(R, s, a + b) == Encrypted(R, s, a) + Encrypted(R, Absorb(R, s, a), b)
    decreases |a|
  {
    hide Update, Absorb, Encrypted, Mask;
    if |a| == 0 {
      Nothing(R, s);
      assert a == [] && a + b == b;
    } else {
      var x, t := a[..16], a[16..];
      var s' := Update(R, s, Pad(x));
      assert a == x + t && a + b == x + (t + b);
      AbsorbCons(R, s, x, t);
      EncryptedCons(R, s, x, t);
      EncryptedCons(R, s, x, t + b);
      EncryptedConcat(R, s', t, b);
      ConcatAssoc(Mask(s, x), Encrypted(R, s', t), Encrypted(R, Absorb(R, s', t), b));
    }
  }

  lemma {:induction false} DecryptedConcat(R: Round, s: seq<Bytes>, a: Bytes, b: Bytes)
    requires IsRound(R) && IsState(s) && |a| % 16 == 0
    ensures Decrypted(R, s, a + b) == Decrypted(R, s, a) + Decrypted(R, Absorb(R, s, Decrypted(R, s, a)), b)
    decreases |a|
  {
    hide Update, Absorb, Decrypted, Mask;
    if |a| == 0 {
      Nothing(R, s);
      assert a == [] && a + b == b;
    } else {
      var y, t := a[..16], a[16..];
      var x := Mask(s, y);
      var s' := Update(R, s, Pad(x));
      assert a == y + t && a + b == y + (t + b);
      DecryptedCons(R, s, y, t);
      DecryptedCons(R, s, y, t + b);
      DecryptedConcat(R, s', t, b);
      var u := Decrypted(R, s', t);
      AbsorbCons(R, s, x, u);
      ConcatAssoc(x, u, Decrypted(R, Absorb(R, s', u), b));
    }
  }

  /** One more piece, of a block or less. */
  lemma OnePiece(R: Round, s: seq<Bytes>, x: Bytes)
    requires IsRound(R) && IsState(s) && 0 < |x| <= 16
    ensures Encrypted(R, s, x) == Mask(s, x) && Decrypted(R, s, x) == Mask(s, x)
    ensures Absorb(R, s, x) == Update(R, s, Pad(x))
  {
    hide Mask, Update;
    assert x[..|x|] == x && x[|x|..] == [];
    Nothing(R, Update(R, s, Pad(x)));
    Nothing(R, Update(R, s, Pad(Mask(s, x))));
  }

  lemma DecryptedSnoc(R: Round, s: seq<Bytes>, a: Bytes, x: Bytes)
    requires IsRound(R) && IsState(s) && |a| % 16 == 0 && 0 < |x| <= 16
    ensures var b := Absorb(R, s, Decrypted(R, s, a));
            && Decrypted(R, s, a + x) == Decrypted(R, s, a) + Mask(b, x)
            && Absorb(R, s, Decrypted(R, s, a) + Mask(b, x)) == Update(R, b, Pad(Mask(b, x)))
  {
    hide Update, Absorb, Encrypted, Decrypted, Mask, Pad;
    var b := Absorb(R, s, Decrypted(R, s, a));
    DecryptedConcat(R, s, a, x);
    OnePiece(R, b, x);
    AbsorbConcat(R, s, Decrypted(R, s, a), Mask(b, x));
    OnePiece(R, b, Mask(b, x));
  }

  // ----- the state in place -----

  class AegisState {
    var blocks: seq<Bytes>

    constructor () {
    }
  }

  /** crypto_aegis128_update, then the message block into block 0. */
  method UpdateInPlace(R: Round, state: AegisState, msg: Bytes)
    requires IsRound(R) && IsState(state.blocks) && |msg| == 16
    modifies state
    ensures state.blocks == Update(R, old(state.blocks), msg)
  {
    hide AesEnc, Xor;
    ghost var s := state.blocks;
    var tmp := state.blocks[4];
    var i := 4;
    while i > 0
      invariant 0 <= i <= 4 && |state.blocks| == 5
      invariant forall j :: 0 <= j <= i ==> state.blocks[j] == s[j]
      invariant forall j :: i < j < 5 ==> state.blocks[j] == AesEnc(R, s[j - 1], s[j])
    {
      state.blocks := state.blocks[i := AesEnc(R, state.blocks[i - 1], state.blocks[i])];
      i := i - 1;
    }
    state.blocks := state.blocks[0 := AesEnc(R, tmp, state.blocks[0])];
    state.blocks := state.blocks[0 := Xor(state.blocks[0], msg)];
  }

  /** aegis128_update_neon: the message goes in first, and the state is a value. */
  function UpdateNeon(R: Round, v: seq<Bytes>, m: Bytes): (t: seq<Bytes>)
    requires IsRound(R) && IsState(v) && |m| == 16
    ensures t == Update(R, v, m)
  {
    var m' := Xor(m, R(v[4]));
    var t := [Xor(v[0], m'), Xor(v[1], R(v[0])), Xor(v[2], R(v[1])), Xor(v[3], R(v[2])), Xor(v[4], R(v[3]))];
    UpdateNeonIsUpdate(R, v, m);
    t
  }

  lemma UpdateNeonIsUpdate(R: Round, v: seq<Bytes>, m: Bytes)
    requires IsRound(R) && IsState(v) && |m| == 16
    ensures var m' := Xor(m, R(v[4]));
            [Xor(v[0], m'), Xor(v[1], R(v[0])), Xor(v[2], R(v[1])), Xor(v[3], R(v[2])), Xor(v[4], R(v[3]))] == Update(R, v, m)
  {
    hide Xor;
    XorComm(m, R(v[4]));
    XorAssoc(v[0], R(v[4]), m);
    forall i | 0 <= i < 5 ensures i < 4 ==> Xor(v[i + 1], R(v[i])) == AesEnc(R, v[i], v[i + 1]) {
      if i < 4 {
        XorComm(v[i + 1], R(v[i]));
      }
    }
    XorComm(v[0], R(v[4]));
  }

  /** crypto_aegis128_update_a and _u, which go to the NEON code when told to. */
  method UpdateA(R: Round, state: AegisState, msg: Bytes, doSimd: bool)
    requires IsRound(R) && IsState(state.blocks) && |msg| == 16
    modifies state
    ensures state.blocks == Update(R, old(state.blocks), msg)
  {
    hide Update;
    if doSimd {
      state.blocks := UpdateNeon(R, state.blocks, msg);
    } else {
      UpdateInPlace(R, state, msg);
    }
  }

  // ----- a chunk of the message -----

  /** Destination d and state b after the first `at` bytes of p, from destination d0 and state s. */
  ghost predicate EncryptDone(R: Round, s: seq<Bytes>, d0: Bytes, dpos: nat, p: Bytes, at: nat, d: Bytes, b: seq<Bytes>)
    requires IsRound(R) && IsState(s)
  {
    && dpos + |p| <= |d0| && at <= |p| && at % 16 == 0
    && d == Splice(d0, dpos, Encrypted(R, s, p[..at]))
    && b == Absorb(R, s, p[..at])
  }

  lemma EncryptTurn(R: Round, s: seq<Bytes>, d0: Bytes, dpos: nat, p: Bytes, at: nat, n: nat, d: Bytes, b: seq<Bytes>)
    requires IsRound(R) && IsState(s) && EncryptDone(R, s, d0, dpos, p, at, d, b)
    requires 0 < n <= 16 && at + n <= |p|
    ensures IsState(b) && |d| == |d0| && dpos + |p| <= |d0|
    ensures var d', b' := Splice(d, dpos + at, Mask(b, p[at..at + n])), Update(R, b, Pad(p[at..at + n]));
            && (n == 16 ==> EncryptDone(R, s, d0, dpos, p, at + n, d', b'))
            && (at + n == |p| ==> d' == Splice(d0, dpos, Encrypted(R, s, p)) && b' == Absorb(R, s, p))
  {
    hide Update, Absorb, Encrypted, Decrypted, Mask, Splice, Pad;
    var a, x := p[..at], p[at..at + n];
    Cut(p, at, n);
    EncryptedConcat(R, s, a, x);
    AbsorbConcat(R, s, a, x);
    OnePiece(R, b, x);
    SpliceSnoc(d0, dpos, Encrypted(R, s, a), Mask(b, x));
    assert at + n == |p| ==> p[..at + n] == p;
    assert n == 16 ==> (at + n) % 16 == 0;
  }

  /** Destination d and state b after the first `at` bytes of c, from destination d0 and state s. */
  ghost predicate DecryptDone(R: Round, s: seq<Bytes>, d0: Bytes, dpos: nat, c: Bytes, at: nat, d: Bytes, b: seq<Bytes>)
    requires IsRound(R) && IsState(s)
  {
    && dpos + |c| <= |d0| && at <= |c| && at % 16 == 0
    && d == Splice(d0, dpos, Decrypted(R, s, c[..at]))
    && b == Absorb(R, s, Decrypted(R, s, c[..at]))
  }

  lemma DecryptTurn(R: Round, s: seq<Bytes>, d0: Bytes, dpos: nat, c: Bytes, at: nat, n: nat, d: Bytes, b: seq<Bytes>)
    requires IsRound(R) && IsState(s) && DecryptDone(R, s, d0, dpos, c, at, d, b)
    requires 0 < n <= 16 && at + n <= |c|
    ensures IsState(b) && |d| == |d0| && dpos + |c| <= |d0|
    ensures var d', b' := Splice(d, dpos + at, Mask(b, c[at..at + n])), Update(R, b, Pad(Mask(b, c[at..at + n])));
            && (n == 16 ==> DecryptDone(R, s, d0, dpos, c, at + n, d', b'))
            && (at + n == |c| ==> d' == Splice(d0, dpos, Decrypted(R, s, c)) && b' == Absorb(R, s, Decrypted(R, s, c)))
  {
    hide Update, Absorb, Encrypted, Decrypted, Mask, Splice, Pad;
    var a, x := c[..at], c[at..at + n];
    Cut(c, at, n);
    DecryptedSnoc(R, s, a, x);
    SpliceSnoc(d0, dpos, Decrypted(R, s, a), Mask(b, x));
    assert at + n == |c| ==> c[..at + n] == c;
    assert n == 16 ==> (at + n) % 16 == 0;
  }

  lemma PadWhole(x: Bytes)
    requires |x| == 16
    ensures Pad(x) == x
  {
  }

  lemma MaskBlock(s: seq<Bytes>, x: Bytes)
    requires IsState(s) && |x| == 16
    ensures Mask(s, x) == Xor(KeyBlock(s), x)
  {
    hide Xor;
    assert KeyBlock(s)[..16] == KeyBlock(s);
    XorComm(x, KeyBlock(s));
  }

  lemma MaskPadded(s: seq<Bytes>, x: Bytes)
    requires IsState(s) && |x| <= 16
    ensures Xor(Pad(x), KeyBlock(s))[..|x|] == Mask(s, x)
  {
    hide XorByte, KeyBlock;
  }

  /** One turn of the loop of crypto_aegis128_encrypt_chunk. */
  method EncryptBlock(R: Round, state: AegisState, dst: array<bv8>, dpos: nat, src: array<bv8>, spos: nat)
    requires IsRound(R) && IsState(state.blocks) && Placed(dst, dpos, src, spos, 16)
    modifies state, dst
    ensures var x := old(src[spos..spos + 16]);
            && dst[..] == Splice(old(dst[..]), dpos, Mask(old(state.blocks), x))
            && state.blocks == Update(R, old(state.blocks), Pad(x))
  {
    hide Update, Mask, Splice, KeyBlock, Xor, Pad;
    var x := src[spos..spos + 16];
    PadWhole(x);
    MaskBlock(state.blocks, x);
    var tmp := KeyBlock(state.blocks);
    tmp := Xor(tmp, x);
    UpdateA(R, state, x, false);
    Put(dst, dpos, tmp);
  }

  /** One turn of the loop of crypto_aegis128_decrypt_chunk. */
  method DecryptBlock(R: Round, state: AegisState, dst: array<bv8>, dpos: nat, src: array<bv8>, spos: nat)
    requires IsRound(R) && IsState(state.blocks) && Placed(dst, dpos, src, spos, 16)
    modifies state, dst
    ensures var x := Mask(old(state.blocks), old(src[spos..spos + 16]));
            && dst[..] == Splice(old(dst[..]), dpos, x)
            && state.blocks == Update(R, old(state.blocks), Pad(x))
  {
    hide Update, Mask, Splice, KeyBlock, Xor, Pad;
    MaskBlock(state.blocks, src[spos..spos + 16]);
    var tmp := KeyBlock(state.blocks);
    tmp := Xor(tmp, src[spos..spos + 16]);
    PadWhole(tmp);
    UpdateA(R, state, tmp, false);
    Put(dst, dpos, tmp);
  }

  /** The end of crypto_aegis128_encrypt_chunk, with less than a block left. */
  method EncryptTail(R: Round, state: AegisState, dst: array<bv8>, dpos: nat, src: array<bv8>, spos: nat, size: nat)
    requires IsRound(R) && IsState(state.blocks) && Placed(dst, dpos, src, spos, size) && size < 16
    modifies state, dst
    ensures var x := old(src[spos..spos + size]);
            && dst[..] == Splice(old(dst[..]), dpos, Mask(old(state.blocks), x))
            && state.blocks == Update(R, old(state.blocks), Pad(x))
  {
    hide Update, Mask, Splice, KeyBlock, Xor, Pad;
    ghost var x := src[spos..spos + size];
    MaskPadded(state.blocks, x);
    var msg := Pad(src[spos..spos + size]);
    var tmp := KeyBlock(state.blocks);
    UpdateA(R, state, msg, false);
    msg := Xor(msg, tmp);
    Put(dst, dpos, msg[..size]);
  }

  /** The end of crypto_aegis128_decrypt_chunk. */
  method DecryptTail(R: Round, state: AegisState, dst: array<bv8>, dpos: nat, src: array<bv8>, spos: nat, size: nat)
    requires IsRound(R) && IsState(state.blocks) && Placed(dst, dpos, src, spos, size) && size < 16
    modifies state, dst
    ensures var x := Mask(old(state.blocks), old(src[spos..spos + size]));
            && dst[..] == Splice(old(dst[..]), dpos, x)
            && state.blocks == Update(R, old(state.blocks), Pad(x))
  {
    hide Update, Mask, Splice, KeyBlock, Xor, Pad;
    ghost var x := Mask(state.blocks, src[spos..spos + size]);
    MaskPadded(state.blocks, src[spos..spos + size]);
    var msg := Pad(src[spos..spos + size]);
    var tmp := KeyBlock(state.blocks);
    msg := Xor(msg, tmp);
    msg := Pad(msg[..size]);
    PadTake(msg, x);
    UpdateA(R, state, msg, false);
    Put(dst, dpos, msg[..size]);
  }

  /** The loop of crypto_aegis128_encrypt_chunk. */
  method EncryptBlocks(R: Round, state: AegisState, dst: array<bv8>, dpos: nat, src: array<bv8>, spos: nat, size: nat) returns (left: nat)
    requires IsRound(R) && IsState(state.blocks) && Placed(dst, dpos, src, spos, size)
    modifies state, dst
    ensures left < 16 && left <= size
    ensures EncryptDone(R, old(state.blocks), old(dst[..]), dpos, old(src[spos..spos + size]), size - left, dst[..], state.blocks)
    ensures Ahead(src[..], spos, old(src[spos..spos + size]), size - left)
  {
    hide Update, Mask, Splice, Pad, EncryptDone, Ahead;
    ghost var s, d0, p := state.blocks, dst[..], src[spos..spos + size];
    var at: nat := 0;
    left := size;
    EncryptStart(R, s, d0, dpos, src[..], spos, p);
    while left >= 16
      invariant at + left == size
      invariant EncryptDone(R, s, d0, dpos, p, at, dst[..], state.blocks)
      invariant Ahead(src[..], spos, p, at)
    {
      AheadNext(src[..], spos, p, at, 16);
      EncryptTurn(R, s, d0, dpos, p, at, 16, dst[..], state.blocks);
      if src == dst {
        AheadSplice(src[..], spos, p, at, 16, Mask(state.blocks, p[at..at + 16]));
      }
      EncryptBlock(R, state, dst, dpos + at, src, spos + at);
      left, at := left - 16, at + 16;
    }
  }

  lemma EncryptStart(R: Round, s: seq<Bytes>, d0: Bytes, dpos: nat, b: Bytes, spos: nat, p: Bytes)
    requires IsRound(R) && IsState(s) && dpos + |p| <= |d0| && spos + |p| <= |b| && p == b[spos..spos + |p|]
    ensures EncryptDone(R, s, d0, dpos, p, 0, d0, s) && Ahead(b, spos, p, 0)
  {
    Nothing(R, s);
    SpliceNone(d0, dpos);
    assert p[..0] == [] && p[0..] == p;
  }

  lemma EncryptEnd(R: Round, s: seq<Bytes>, d0: Bytes, dpos: nat, p: Bytes, d: Bytes, b: seq<Bytes>)
    requires IsRound(R) && IsState(s) && EncryptDone(R, s, d0, dpos, p, |p|, d, b)
    ensures dpos + |p| <= |d0| && d == Splice(d0, dpos, Encrypted(R, s, p)) && b == Absorb(R, s, p)
  {
    assert p[..|p|] == p;
  }

  /** crypto_aegis128_encrypt_chunk */
  method EncryptChunk(R: Round, state: AegisState, dst: array<bv8>, dpos: nat, src: array<bv8>, spos: nat, size: nat)
    requires IsRound(R) && IsState(state.blocks) && Placed(dst, dpos, src, spos, size)
    modifies state, dst
    ensures var p := old(src[spos..spos + size]);
            && dst[..] == Splice(old(dst[..]), dpos, Encrypted(R, old(state.blocks), p))
            && state.blocks == Absorb(R, old(state.blocks), p)
  {
    hide Update, Absorb, Encrypted, Mask, Splice, Pad, EncryptDone, Ahead;
    ghost var s, d0, p := state.blocks, dst[..], src[spos..spos + size];
    var left := EncryptBlocks(R, state, dst, dpos, src, spos, size);
    var at := size - left;
    if left > 0 {
      AheadNext(src[..], spos, p, at, left);
      EncryptTurn(R, s, d0, dpos, p, at, left, dst[..], state.blocks);
      EncryptTail(R, state, dst, dpos + at, src, spos + at, left);
    } else {
      EncryptEnd(R, s, d0, dpos, p, dst[..], state.blocks);
    }
  }

  /** The loop of crypto_aegis128_decrypt_chunk. */
  method DecryptBlocks(R: Round, state: AegisState, dst: array<bv8>, dpos: nat, src: array<bv8>, spos: nat, size: nat) returns (left: nat)
    requires IsRound(R) && IsState(state.blocks) && Placed(dst, dpos, src, spos, size)
    modifies state, dst
    ensures left < 16 && left <= size
    ensures DecryptDone(R, old(state.blocks), old(dst[..]), dpos, old(src[spos..spos + size]), size - left, dst[..], state.blocks)
    ensures Ahead(src[..], spos, old(src[spos..spos + size]), size - left)
  {
    hide Update, Mask, Splice, Pad, DecryptDone, Ahead;
    ghost var s, d0, c := state.blocks, dst[..], src[spos..spos + size];
    var at: nat := 0;
    left := size;
    DecryptStart(R, s, d0, dpos, src[..], spos, c);
    while left >= 16
      invariant at + left == size
      invariant DecryptDone(R, s, d0, dpos, c, at, dst[..], state.blocks)
      invariant Ahead(src[..], spos, c, at)
    {
      AheadNext(src[..], spos, c, at, 16);
      DecryptTurn(R, s, d0, dpos, c, at, 16, dst[..], state.blocks);
      if src == dst {
        AheadSplice(src[..], spos, c, at, 16, Mask(state.blocks, c[at..at + 16]));
      }
      DecryptBlock(R, state, dst, dpos + at, src, spos + at);
      left, at := left - 16, at + 16;
    }
  }

  lemma DecryptStart(R: Round, s: seq<Bytes>, d0: Bytes, dpos: nat, b: Bytes, spos: nat, c: Bytes)
    requires IsRound(R) && IsState(s) && dpos + |c| <= |d0| && spos + |c| <= |b| && c == b[spos..spos + |c|]
    ensures DecryptDone(R, s, d0, dpos, c, 0, d0, s) && Ahead(b, spos, c, 0)
  {
    Nothing(R, s);
    SpliceNone(d0, dpos);
    assert c[..0] == [] && c[0..] == c;
  }

  lemma DecryptEnd(R: Round, s: seq<Bytes>, d0: Bytes, dpos: nat, c: Bytes, d: Bytes, b: seq<Bytes>)
    requires IsRound(R) && IsState(s) && DecryptDone(R, s, d0, dpos, c, |c|, d, b)
    ensures dpos + |c| <= |d0| && d == Splice(d0, dpos, Decrypted(R, s, c)) && b == Absorb(R, s, Decrypted(R, s, c))
  {
    assert c[..|c|] == c;
  }

  /** crypto_aegis128_decrypt_chunk */
  method DecryptChunk(R: Round, state: AegisState, dst: array<bv8>, dpos: nat, src: array<bv8>, spos: nat, size: nat)
    requires IsRound(R) && IsState(state.blocks) && Placed(dst, dpos, src, spos, size)
    modifies state, dst
    ensures var c := old(src[spos..spos + size]);
            && dst[..] == Splice(old(dst[..]), dpos, Decrypted(R, old(state.blocks), c))
            && state.blocks == Absorb(R, old(state.blocks), Decrypted(R, old(state.blocks), c))
  {
    hide Update, Absorb, Decrypted, Mask, Splice, Pad, DecryptDone, Ahead;
    ghost var s, d0, c := state.blocks, dst[..], src[spos..spos + size];
    var left := DecryptBlocks(R, state, dst, dpos, src, spos, size);
    var at := size - left;
    if left > 0 {
      AheadNext(src[..], spos, c, at, left);
      DecryptTurn(R, s, d0, dpos, c, at, left, dst[..], state.blocks);
      DecryptTail(R, state, dst, dpos + at, src, spos + at, left);
    } else {
      DecryptEnd(R, s, d0, dpos, c, dst[..], state.blocks);
    }
  }

  lemma PadTake(msg: Bytes, x: Bytes)
    requires |x| <= 16 && msg == Pad(x)
    ensures msg[..|x|] == x
  {
  }
}
