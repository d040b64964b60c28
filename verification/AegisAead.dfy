/**
 AEGIS-128 as an AEAD: initialisation, associated data in whatever segments it comes, the walk
 over the text, the tag, and the check of a received tag, in generic and NEON form.
 */
module AegisAead {
  import opened Bytes
  import opened Numbers
  import opened Aegis
  import opened AegisNeon

  const EBADMSG := 74

  function Repeat(R: Round, s: seq<Bytes>, m: Bytes, n: nat): (t: seq<Bytes>)
    requires IsRound(R) && IsState(s) && |m| == 16
    ensures IsState(t)
  {
    if n == 0 then s else Update(R, Repeat(R, s, m, n - 1), m)
  }

  // ----- initialisation -----

  const CONST0: Bytes := [0x00, 0x01, 0x01, 0x02, 0x03, 0x05, 0x08, 0x0d, 0x15, 0x22, 0x37, 0x59, 0x90, 0xe9, 0x79, 0x62]
  const CONST1: Bytes := [0xdb, 0x3d, 0x18, 0x55, 0x6d, 0xc2, 0x2f, 0xf1, 0x20, 0x11, 0x31, 0x42, 0x73, 0xb5, 0x28, 0xdd]

  /** An element is the sum of the two before it. */
  predicate AddsAt(f: Bytes, i: nat) {
    2 <= i < |f| && f[i] == f[i - 1] + f[i - 2]
  }

  lemma Const0Adds(i: nat)
    requires 2 <= i < 16
    ensures AddsAt(CONST0, i)
  {
  }

  lemma Const1Adds(i: nat)
    requires 2 <= i < 16
    ensures AddsAt(CONST1, i)
  {
  }

  /** The two constants are the first 32 Fibonacci numbers modulo 256. */
  lemma ConstantsAreFibonacci()
    ensures CONST0[0] == 0 && CONST0[1] == 1 && forall i :: 2 <= i < 16 ==> AddsAt(CONST0, i)
    ensures CONST1[0] == CONST0[15] + CONST0[14] && CONST1[1] == CONST1[0] + CONST0[15] && forall i :: 2 <= i < 16 ==> AddsAt(CONST1, i)
  {
    hide AddsAt;
    forall i | 2 <= i < 16 ensures AddsAt(CONST0, i) && AddsAt(CONST1, i) {
      Const0Adds(i);
      Const1Adds(i);
    }
  }

  function Rounds(R: Round, s: seq<Bytes>, key: Bytes, kiv: Bytes, n: nat): (t: seq<Bytes>)
    requires IsRound(R) && IsState(s) && |key| == |kiv| == 16
    ensures IsState(t)
  {
    if n == 0 then s else Update(R, Update(R, Rounds(R, s, key, kiv, n - 1), key), kiv)
  }

  function Initial(R: Round, key: Bytes, iv: Bytes): (s: seq<Bytes>)
    requires IsRound(R) && |key| == |iv| == 16
    ensures IsState(s)
  {
    Rounds(R, [Xor(key, iv), CONST1, CONST0, Xor(key, CONST0), Xor(key, CONST1)], key, Xor(key, iv), 5)
  }

  /** crypto_aegis128_init, or crypto_aegis128_init_neon with its state in registers. */
  method Init(R: Round, state: AegisState, key: Bytes, iv: Bytes, doSimd: bool)
    requires IsRound(R) && |key| == |iv| == 16
    modifies state
    ensures state.blocks == Initial(R, key, iv)
  {
    hide Update, Xor;
    var kiv := Xor(key, iv);
    state.blocks := [kiv, CONST1, CONST0, Xor(key, CONST0), Xor(key, CONST1)];
    ghost var s := state.blocks;
    for i := 0 to 5
      invariant state.blocks == Rounds(R, s, key, kiv, i)
    {
      UpdateA(R, state, key, doSimd);
      UpdateA(R, state, kiv, doSimd);
    }
  }

  // ----- associated data -----

  /** One more block. */
  lemma AbsorbBlock(R: Round, s: seq<Bytes>, w: Bytes, x: Bytes)
    requires IsRound(R) && IsState(s) && |w| % 16 == 0 && |x| == 16
    ensures Absorb(R, s, w + x) == Update(R, Absorb(R, s, w), x)
  {
    hide Update, Absorb, Pad;
    AbsorbConcat(R, s, w, x);
    OnePiece(R, Absorb(R, s, w), x);
    PadWhole(x);
  }

  /** The data end with `part`, short of a block. */
  lemma AbsorbEnd(R: Round, s: seq<Bytes>, w: Bytes, part: Bytes)
    requires IsRound(R) && IsState(s) && |w| % 16 == 0 && |part| < 16
    ensures var b := Absorb(R, s, w);
            Absorb(R, s, w + part) == if |part| > 0 then Update(R, b, Pad(part)) else b
  {
    hide Update, Absorb, Pad;
    if |part| > 0 {
      AbsorbConcat(R, s, w, part);
      OnePiece(R, Absorb(R, s, w), part);
    } else {
      assert w + part == w;
    }
  }

  /** crypto_aegis128_ad: the whole blocks of src. */
  method Ad(R: Round, state: AegisState, src: Bytes, doSimd: bool)
    requires IsRound(R) && IsState(state.blocks)
    modifies state
    ensures state.blocks == Absorb(R, old(state.blocks), src[..|src| / 16 * 16])
  {
    hide Update, Absorb, Pad;
    ghost var s := state.blocks;
    var at, size := 0, |src|;
    Nothing(R, s);
    assert src[..0] == [];
    while size >= 16
      invariant 0 <= size && at + size == |src| && at % 16 == 0 && 0 <= at
      invariant state.blocks == Absorb(R, s, src[..at])
    {
      Cut(src, at, 16);
      AbsorbBlock(R, s, src[..at], src[at..at + 16]);
      UpdateA(R, state, src[at..at + 16], doSimd);
      size, at := size - 16, at + 16;
    }
  }

  /**
   The branch of crypto_aegis128_process_ad for a segment x that completes a block: `buf` holds
   `part`, which follows the absorbed data w; `at` bytes of x are used up.
   */
  method AdWhole(R: Round, state: AegisState, buf: array<bv8>, pos: nat, x: Bytes, doSimd: bool, ghost s: seq<Bytes>, ghost w: Bytes)
    returns (at: nat, ghost w': Bytes)
    requires IsRound(R) && IsState(s) && buf.Length == 16 && pos < 16 <= pos + |x|
    requires |w| % 16 == 0 && state.blocks == Absorb(R, s, w)
    modifies state, buf
    ensures at <= |x| < at + 16 && |w'| % 16 == 0 && w' == w + old(buf[..pos]) + x[..at]
    ensures state.blocks == Absorb(R, s, w')
  {
    hide Update, Absorb;
    at := 0;
    ghost var part := buf[..pos];
    w' := w;
    if pos > 0 {
      at := 16 - pos;
      Put(buf, pos, x[..at]);
      assert buf[..] == part + x[..at];
      AbsorbBlock(R, s, w, part + x[..at]);
      UpdateA(R, state, buf[..], doSimd);
      w' := w + (part + x[..at]);
    }
    assert w' == w + part + x[..at];
    var y := x[at..];
    ghost var z := y[..|y| / 16 * 16];
    AbsorbConcat(R, s, w', z);
    Ad(R, state, y, doSimd);
    assert w + part + x[..at] + z == w + part + x[..at + |z|];
    w' := w' + z;
    at := at + |y| / 16 * 16;
  }

  /** One turn of the loop of crypto_aegis128_process_ad. */
  method AdSegment(R: Round, state: AegisState, buf: array<bv8>, pos0: nat, x: Bytes, doSimd: bool, ghost s: seq<Bytes>, ghost w: Bytes)
    returns (pos: nat, ghost w': Bytes)
    requires IsRound(R) && IsState(s) && buf.Length == 16 && pos0 < 16
    requires |w| % 16 == 0 && state.blocks == Absorb(R, s, w)
    modifies state, buf
    ensures pos < 16 && |w'| % 16 == 0 && state.blocks == Absorb(R, s, w')
    ensures w' + buf[..pos] == w + old(buf[..pos0]) + x
  {
    hide Update, Absorb;
    ghost var part0 := buf[..pos0];
    pos, w' := pos0, w;
    var at: nat := 0;
    if pos + |x| >= 16 {
      at, w' := AdWhole(R, state, buf, pos, x, doSimd, s, w);
      pos := 0;
    }
    ghost var part := buf[..pos];
    assert w' + part + x[at..] == w + part0 + x;
    Put(buf, pos, x[at..]);
    pos := pos + |x[at..]|;
    assert buf[..pos] == part + x[at..];
  }

  /** crypto_aegis128_process_ad: the state depends on the data only, not on the segments it lies in. */
  method ProcessAd(R: Round, state: AegisState, segs: seq<Bytes>, assoclen: nat, doSimd: bool)
    requires IsRound(R) && IsState(state.blocks) && assoclen <= |Joined(segs)|
    modifies state
    ensures state.blocks == Absorb(R, old(state.blocks), Joined(segs)[..assoclen])
  {
    hide Update, Absorb;
    ghost var s, m := state.blocks, Joined(segs)[..assoclen];
    var buf := new bv8[16];
    var pos: nat, left: nat, i: nat := 0, assoclen, 0;
    ghost var w: Bytes := [];
    Nothing(R, s);
    assert w + buf[..0] == [] && segs[0..] == segs;
    while left != 0
      invariant i <= |segs| && left <= assoclen && pos < 16 && buf.Length == 16
      invariant left <= |Joined(segs[i..])| && w + buf[..pos] + Joined(segs[i..])[..left] == m
      invariant |w| % 16 == 0 && state.blocks == Absorb(R, s, w)
      decreases |segs| - i
    {
      assert i < |segs|;
      JoinedNext(segs, i);
      var size := if |segs[i]| < left then |segs[i]| else left;
      JoinedSplit(w + buf[..pos], segs[i], Joined(segs[i + 1..]), left, m);
      pos, w := AdSegment(R, state, buf, pos, segs[i][..size], doSimd, s, w);
      if size == left {
        left := 0;
        break;
      }
      left, i := left - size, i + 1;
    }
    assert w + buf[..pos] == m;
    AbsorbEnd(R, s, w, buf[..pos]);
    if pos > 0 {
      ghost var part := buf[..pos];
      Put(buf, pos, Zeros(16 - pos));
      assert buf[..] == Pad(part);
      UpdateA(R, state, buf[..], doSimd);
    }
  }

  // ----- the text, in the pieces the walk gives -----

  function Out(R: Round, s: seq<Bytes>, m: Bytes, dec: bool): (r: Bytes)
    requires IsRound(R) && IsState(s)
    ensures |r| == |m|
  {
    if dec then Decrypted(R, s, m) else Encrypted(R, s, m)
  }

  function After(R: Round, s: seq<Bytes>, m: Bytes, dec: bool): (t: seq<Bytes>)
    requires IsRound(R) && IsState(s)
    ensures IsState(t)
  {
    Absorb(R, s, if dec then Decrypted(R, s, m) else m)
  }

  lemma OutConcat(R: Round, s: seq<Bytes>, a: Bytes, b: Bytes, dec: bool)
    requires IsRound(R) && IsState(s) && |a| % 16 == 0
    ensures Out(R, s, a + b, dec) == Out(R, s, a, dec) + Out(R, After(R, s, a, dec), b, dec)
    ensures After(R, s, a + b, dec) == After(R, After(R, s, a, dec), b, dec)
  {
    hide Absorb, Encrypted, Decrypted;
    if dec {
      DecryptedConcat(R, s, a, b);
      var x := Decrypted(R, s, a);
      AbsorbConcat(R, s, x, Decrypted(R, Absorb(R, s, x), b));
    } else {
      EncryptedConcat(R, s, a, b);
      AbsorbConcat(R, s, a, b);
    }
  }

  /** What skcipher_walk offers when t bytes are left: all of them, or at least a stride. */
  ghost predicate IsWalk(walk: nat -> nat) {
    forall t: nat :: 0 < t ==> 0 < walk(t) <= t && (walk(t) < t ==> 16 <= walk(t))
  }

  method Chunk(R: Round, state: AegisState, dst: array<bv8>, dpos: nat, src: array<bv8>, spos: nat, size: nat, dec: bool, doSimd: bool)
    requires IsRound(R) && IsState(state.blocks) && Placed(dst, dpos, src, spos, size)
    modifies state, dst
    ensures var m := old(src[spos..spos + size]);
            && dst[..] == Splice(old(dst[..]), dpos, Out(R, old(state.blocks), m, dec))
            && state.blocks == After(R, old(state.blocks), m, dec)
  {
    hide Absorb, Encrypted, Decrypted, Splice;
    if dec {
      if doSimd {
        DecryptChunkNeon(R, state, dst, dpos, src, spos, size);
      } else {
        DecryptChunk(R, state, dst, dpos, src, spos, size);
      }
    } else {
      if doSimd {
        EncryptChunkNeon(R, state, dst, dpos, src, spos, size);
      } else {
        EncryptChunk(R, state, dst, dpos, src, spos, size);
      }
    }
  }

  ghost predicate CryptDone(R: Round, s: seq<Bytes>, d0: Bytes, dpos: nat, m: Bytes, at: nat, d: Bytes, b: seq<Bytes>, dec: bool)
    requires IsRound(R) && IsState(s)
  {
    && dpos + |m| <= |d0| && at <= |m| && (at % 16 == 0 || at == |m|)
    && d == Splice(d0, dpos, Out(R, s, m[..at], dec))
    && b == After(R, s, m[..at], dec)
  }

  lemma CryptTurn(R: Round, s: seq<Bytes>, d0: Bytes, dpos: nat, m: Bytes, at: nat, n: nat, d: Bytes, b: seq<Bytes>, dec: bool)
    requires IsRound(R) && IsState(s) && CryptDone(R, s, d0, dpos, m, at, d, b, dec)
    requires 0 < n && at + n <= |m| && (n % 16 == 0 || at + n == |m|)
    ensures IsState(b) && |d| == |d0| && dpos + |m| <= |d0|
    ensures var x := m[at..at + n];
            CryptDone(R, s, d0, dpos, m, at + n, Splice(d, dpos + at, Out(R, b, x, dec)), After(R, b, x, dec), dec)
  {
    hide Out, After, Splice;
    Cut(m, at, n);
    OutConcat(R, s, m[..at], m[at..at + n], dec);
    SpliceSnoc(d0, dpos, Out(R, s, m[..at], dec), Out(R, b, m[at..at + n], dec));
  }

  lemma CryptStart(R: Round, s: seq<Bytes>, d0: Bytes, dpos: nat, src: Bytes, spos: nat, m: Bytes, dec: bool)
    requires IsRound(R) && IsState(s) && dpos + |m| <= |d0| && spos + |m| <= |src| && m == src[spos..spos + |m|]
    ensures CryptDone(R, s, d0, dpos, m, 0, d0, s, dec) && Ahead(src, spos, m, 0)
  {
    Nothing(R, s);
    SpliceNone(d0, dpos);
    assert m[..0] == [] && m[0..] == m;
  }

  lemma CryptEnd(R: Round, s: seq<Bytes>, d0: Bytes, dpos: nat, m: Bytes, d: Bytes, b: seq<Bytes>, dec: bool)
    requires IsRound(R) && IsState(s) && CryptDone(R, s, d0, dpos, m, |m|, d, b, dec)
    ensures dpos + |m| <= |d0| && d == Splice(d0, dpos, Out(R, s, m, dec)) && b == After(R, s, m, dec)
  {
    assert m[..|m|] == m;
  }

  /** One turn of the walk. */
  method CryptPiece(R: Round, state: AegisState, dst: array<bv8>, dpos: nat, src: array<bv8>, spos: nat, total: nat, at: nat, n: nat,
                    dec: bool, doSimd: bool, ghost s: seq<Bytes>, ghost d0: Bytes, ghost m: Bytes)
    requires IsRound(R) && IsState(s) && IsState(state.blocks) && Placed(dst, dpos, src, spos, total) && |m| == total && |d0| == dst.Length
    requires CryptDone(R, s, d0, dpos, m, at, dst[..], state.blocks, dec) && Ahead(src[..], spos, m, at)
    requires 0 < n && at + n <= total && (n % 16 == 0 || at + n == total)
    modifies state, dst
    ensures IsState(state.blocks) && CryptDone(R, s, d0, dpos, m, at + n, dst[..], state.blocks, dec) && Ahead(src[..], spos, m, at + n)
  {
    hide Out, After, Splice, CryptDone, Ahead;
    AheadNext(src[..], spos, m, at, n);
    CryptTurn(R, s, d0, dpos, m, at, n, dst[..], state.blocks, dec);
    if src == dst {
      AheadSplice(src[..], spos, m, at, n, Out(R, state.blocks, m[at..at + n], dec));
    }
    Chunk(R, state, dst, dpos + at, src, spos + at, n, dec, doSimd);
  }

  /** crypto_aegis128_process_crypt: a chunk that is not the last is rounded down to the stride. */
  method ProcessCrypt(R: Round, state: AegisState, dst: array<bv8>, dpos: nat, src: array<bv8>, spos: nat, total: nat,
                      walk: nat -> nat, dec: bool, doSimd: bool)
    requires IsRound(R) && IsState(state.blocks) && IsWalk(walk) && Placed(dst, dpos, src, spos, total)
    modifies state, dst
    ensures var m := old(src[spos..spos + total]);
            && dst[..] == Splice(old(dst[..]), dpos, Out(R, old(state.blocks), m, dec))
            && state.blocks == After(R, old(state.blocks), m, dec)
  {
    hide Out, After, Splice, CryptDone, Ahead;
    ghost var s, d0, m := state.blocks, dst[..], src[spos..spos + total];
    var at: nat, left: nat := 0, total;
    CryptStart(R, s, d0, dpos, src[..], spos, m, dec);
    while left != 0
      invariant at + left == total
      invariant IsState(state.blocks) && CryptDone(R, s, d0, dpos, m, at, dst[..], state.blocks, dec)
      invariant Ahead(src[..], spos, m, at)
    {
      var nbytes := walk(left);
      if nbytes < left {
        nbytes := nbytes / 16 * 16;
      }
      CryptPiece(R, state, dst, dpos, src, spos, total, at, nbytes, dec, doSimd, s, d0, m);
      at, left := at + nbytes, left - nbytes;
    }
    CryptEnd(R, s, d0, dpos, m, dst[..], state.blocks, dec);
  }

  // ----- the tag -----

  function Sum(s: seq<Bytes>): (r: Bytes)
    requires IsState(s)
    ensures |r| == 16
  {
    Xor(Xor(Xor(Xor(s[0], s[1]), s[2]), s[3]), s[4])
  }

  function Lengths(assoclen: nat, cryptlen: nat): (r: Bytes)
    ensures |r| == 16
  {
    LePut(8 * assoclen, 8) + LePut(8 * cryptlen, 8)
  }

  /** Two little-endian numbers of 64 bits: how many bits there are of data and of text. */
  lemma LengthsAreBits(assoclen: nat, cryptlen: nat)
    ensures var l := Lengths(assoclen, cryptlen);
            Le(l[..8]) == 8 * assoclen % 0x1_0000_0000_0000_0000 && Le(l[8..]) == 8 * cryptlen % 0x1_0000_0000_0000_0000
  {
    hide Le, LePut;
    assert Pow256(4) == 0x1_0000_0000;
    LeOfPutModulo(8 * assoclen, 8);
    LeOfPutModulo(8 * cryptlen, 8);
    var l := Lengths(assoclen, cryptlen);
    assert l[..8] == LePut(8 * assoclen, 8) && l[8..] == LePut(8 * cryptlen, 8);
  }

  function Tag(R: Round, s: seq<Bytes>, assoclen: nat, cryptlen: nat): (r: Bytes)
    requires IsRound(R) && IsState(s)
    ensures |r| == 16
  {
    Sum(Repeat(R, s, Xor(Lengths(assoclen, cryptlen), s[3]), 7))
  }

  lemma XorBlocks(t: Bytes, s: seq<Bytes>)
    requires IsState(s) && |t| == 16
    ensures Xor(Xor(Xor(Xor(Xor(t, s[0]), s[1]), s[2]), s[3]), s[4]) == Xor(t, Sum(s))
  {
    hide Xor;
    var a := Xor(s[0], s[1]);
    XorAssoc(t, s[0], s[1]);
    XorAssoc(t, a, s[2]);
    XorAssoc(t, Xor(a, s[2]), s[3]);
    XorAssoc(t, Xor(Xor(a, s[2]), s[3]), s[4]);
  }

  /** crypto_aegis128_final: the tag is XORed into what tag_xor holds. */
  method Final(R: Round, state: AegisState, tagXor: Bytes, assoclen: nat, cryptlen: nat) returns (tag: Bytes)
    requires IsRound(R) && IsState(state.blocks) && |tagXor| == 16
    modifies state
    ensures tag == Xor(tagXor, Tag(R, old(state.blocks), assoclen, cryptlen))
  {
    hide Update, Xor, Lengths;
    ghost var s := state.blocks;
    var tmp := Xor(Lengths(assoclen, cryptlen), state.blocks[3]);
    for i := 0 to 7
      invariant state.blocks == Repeat(R, s, tmp, i)
    {
      UpdateA(R, state, tmp, false);
    }
    XorBlocks(tagXor, state.blocks);
    tag := tagXor;
    tag := Xor(tag, state.blocks[0]);
    tag := Xor(tag, state.blocks[1]);
    tag := Xor(tag, state.blocks[2]);
    tag := Xor(tag, state.blocks[3]);
    tag := Xor(tag, state.blocks[4]);
  }

  /** ~vceqq_u8 */
  function Unequal(a: Bytes, b: Bytes): (r: Bytes)
    requires |a| == |b|
    ensures |r| == |a|
  {
    seq(|a|, i requires 0 <= i < |a| => if a[i] == b[i] then 0 else 0xff)
  }

  function Signed(b: bv8): int {
    if b < 0x80 then b as int else b as int - 0x100
  }

  /** vminvq_s8 */
  function MinSigned(v: Bytes): int
    requires |v| > 0
  {
    if |v| == 1 then Signed(v[0])
    else
      var m := MinSigned(v[..|v| - 1]);
      if Signed(v[|v| - 1]) < m then Signed(v[|v| - 1]) else m
  }

  lemma {:induction false} MinOfMask(v: Bytes)
    requires |v| > 0 && forall i :: 0 <= i < |v| ==> v[i] == 0 || v[i] == 0xff
    ensures MinSigned(v) == if exists i :: 0 <= i < |v| && v[i] == 0xff then -1 else 0
  {
    assert Signed(0) == 0 && Signed(0xff) == -1;
    if |v| > 1 {
      MinOfMask(v[..|v| - 1]);
    }
  }

  /** The check: -1 when one of the first n bytes differs, 0 otherwise. */
  lemma CheckMeaning(a: Bytes, b: Bytes, n: nat)
    requires |a| == |b| == 16 && 0 < n <= 16
    ensures MinSigned(Tbl(Unequal(a, b), Permute()[n..n + 16])) == if a[..n] == b[..n] then 0 else -1
  {
    hide Tbl, Permute, MinSigned;
    var u := Unequal(a, b);
    RightAligned(u, n);
    var v := Zeros(16 - n) + u[..n];
    MinOfMask(v);
    if a[..n] != b[..n] {
      var i :| 0 <= i < n && a[..n][i] != b[..n][i];
      assert v[16 - n + i] == 0xff;
    } else {
      forall i | 0 <= i < 16 ensures v[i] != 0xff {
        if 16 - n <= i {
          assert a[..n][i - (16 - n)] == b[..n][i - (16 - n)];
        }
      }
    }
  }

  /** crypto_aegis128_final_neon: writes the tag, or checks its first authsize bytes. */
  method FinalNeon(R: Round, state: AegisState, tagXor: Bytes, assoclen: nat, cryptlen: nat, authsize: nat) returns (ret: int, tag: Bytes)
    requires IsRound(R) && IsState(state.blocks) && |tagXor| == 16 && authsize <= 16
    ensures var t := Tag(R, state.blocks, assoclen, cryptlen);
            && (authsize == 0 ==> ret == 0 && tag == t)
            && (authsize > 0 ==> tag == tagXor && (ret != 0 <==> t[..authsize] != tagXor[..authsize]))
  {
    hide Update, Xor, Lengths, Tbl, MinSigned, Unequal;
    var st := state.blocks;
    XorComm(st[3], Lengths(assoclen, cryptlen));
    var v := Xor(st[3], Lengths(assoclen, cryptlen));
    for i := 0 to 7
      invariant st == Repeat(R, state.blocks, v, i)
    {
      st := UpdateNeon(R, st, v);
    }
    v := Xor(Xor(Xor(Xor(st[0], st[1]), st[2]), st[3]), st[4]);
    if authsize > 0 {
      CheckMeaning(v, tagXor, authsize);
      ret, tag := MinSigned(Tbl(Unequal(v, tagXor), Permute()[authsize..authsize + 16])), tagXor;
    } else {
      ret, tag := 0, v;
    }
  }

  // ----- the AEAD -----

  function Start(R: Round, key: Bytes, iv: Bytes, ad: Bytes): (s: seq<Bytes>)
    requires IsRound(R) && |key| == |iv| == 16
    ensures IsState(s)
  {
    Absorb(R, Initial(R, key, iv), ad)
  }

  /** The ciphertext followed by the tag. */
  function Seal(R: Round, key: Bytes, iv: Bytes, ad: Bytes, p: Bytes, authsize: nat): (r: Bytes)
    requires IsRound(R) && |key| == |iv| == 16 && authsize <= 16
    ensures |r| == |p| + authsize
  {
    var s := Start(R, key, iv, ad);
    Encrypted(R, s, p) + Tag(R, Absorb(R, s, p), |ad|, |p|)[..authsize]
  }

  datatype Opened = Accepted(text: Bytes) | Rejected

  function Open(R: Round, key: Bytes, iv: Bytes, ad: Bytes, m: Bytes, authsize: nat): (r: Opened)
    requires IsRound(R) && |key| == |iv| == 16 && authsize <= 16 && authsize <= |m|
    ensures r.Accepted? ==> |r.text| == |m| - authsize
  {
    var s := Start(R, key, iv, ad);
    var c := m[..|m| - authsize];
    var p := Decrypted(R, s, c);
    if Tag(R, Absorb(R, s, p), |ad|, |c|)[..authsize] == m[|m| - authsize..] then Accepted(p) else Rejected
  }

  /** Every sealed message is accepted and opens to its text. */
  lemma OpenUndoesSeal(R: Round, key: Bytes, iv: Bytes, ad: Bytes, p: Bytes, authsize: nat)
    requires IsRound(R) && |key| == |iv| == 16 && authsize <= 16
    ensures Open(R, key, iv, ad, Seal(R, key, iv, ad, p, authsize), authsize) == Accepted(p)
  {
    hide Start, Encrypted, Decrypted, Tag, Absorb;
    var s := Start(R, key, iv, ad);
    var m := Seal(R, key, iv, ad, p, authsize);
    assert m[..|m| - authsize] == Encrypted(R, s, p);
    RoundTrip(R, s, p);
  }

  /** Only the tag that Seal gives is accepted with a ciphertext. */
  lemma OnlySealedOpens(R: Round, key: Bytes, iv: Bytes, ad: Bytes, m: Bytes, authsize: nat)
    requires IsRound(R) && |key| == |iv| == 16 && authsize <= 16 && authsize <= |m|
    ensures var r := Open(R, key, iv, ad, m, authsize);
            r.Accepted? ==> Seal(R, key, iv, ad, r.text, authsize) == m
  {
    hide Start, Encrypted, Decrypted, Tag, Absorb, Mask, Update;
    var s := Start(R, key, iv, ad);
    var c := m[..|m| - authsize];
    RoundTripBack(R, s, c);
    assert m == c + m[|m| - authsize..];
  }

  lemma {:induction false} RoundTripBack(R: Round, s: seq<Bytes>, c: Bytes)
    requires IsRound(R) && IsState(s)
    ensures Encrypted(R, s, Decrypted(R, s, c)) == c
    decreases |c|
  {
    hide Mask, Update, Encrypted, Decrypted;
    if |c| == 0 {
      Nothing(R, s);
    } else {
      var y, t := c[..First(c)], c[First(c)..];
      var x := Mask(s, y);
      assert c == y + t;
      DecryptedCons(R, s, y, t);
      EncryptedCons(R, s, x, Decrypted(R, Update(R, s, Pad(x)), t));
      MaskTwice(s, y);
      RoundTripBack(R, Update(R, s, Pad(x)), t);
    }
  }

  /** The segments hold the associated data and perhaps more; the text follows it in src and in dst. */
  method Encrypt(R: Round, key: Bytes, iv: Bytes, segs: seq<Bytes>, assoclen: nat, src: array<bv8>, dst: array<bv8>, cryptlen: nat,
                 authsize: nat, walk: nat -> nat, doSimd: bool)
    requires IsRound(R) && |key| == |iv| == 16 && IsWalk(walk) && assoclen <= |Joined(segs)| && authsize <= 16
    requires assoclen + cryptlen <= src.Length && assoclen + cryptlen + authsize <= dst.Length
    modifies dst
    ensures dst[..] == Splice(old(dst[..]), assoclen,
                              Seal(R, key, iv, Joined(segs)[..assoclen], old(src[assoclen..assoclen + cryptlen]), authsize))
  {
    hide Initial, Absorb, Encrypted, Decrypted, Splice, Tag;
    ghost var d0 := dst[..];
    var state := new AegisState();
    Init(R, state, key, iv, doSimd);
    ProcessAd(R, state, segs, assoclen, doSimd);
    ghost var s := state.blocks;
    ProcessCrypt(R, state, dst, assoclen, src, assoclen, cryptlen, walk, false, doSimd);
    var tag := Zeros(16);
    if doSimd {
      var _, t := FinalNeon(R, state, tag, assoclen, cryptlen, 0);
      tag := t;
    } else {
      XorZeros(Tag(R, state.blocks, assoclen, cryptlen));
      tag := Final(R, state, tag, assoclen, cryptlen);
    }
    SpliceSnoc(d0, assoclen, Out(R, s, old(src[assoclen..assoclen + cryptlen]), false), tag[..authsize]);
    Put(dst, assoclen + cryptlen, tag[..authsize]);
  }

  lemma MemneqZeros(a: Bytes, t: Bytes, n: nat)
    requires |a| == |t| && n <= |a|
    ensures Xor(a, t)[..n] == Zeros(n) <==> t[..n] == a[..n]
  {
    hide XorByte;
    if Xor(a, t)[..n] == Zeros(n) {
      forall i | 0 <= i < n ensures a[i] == t[i] {
        assert Xor(a, t)[..n][i] == 0;
        XorByteZero(a[i], t[i]);
      }
    } else if t[..n] == a[..n] {
      forall i | 0 <= i < n ensures Xor(a, t)[..n][i] == 0 {
        assert a[..n][i] == t[..n][i];
        XorByteZero(a[i], t[i]);
      }
    }
  }

  lemma XorByteZero(a: bv8, b: bv8)
    ensures XorByte(a, b) == 0 <==> a == b
  {
  }

  /** Decryption; on a wrong tag the text is wiped.  `rest` is what the tag block holds past authsize. */
  method Decrypt(R: Round, key: Bytes, iv: Bytes, segs: seq<Bytes>, assoclen: nat, src: array<bv8>, dst: array<bv8>, cryptlen0: nat,
                 authsize: nat, rest: Bytes, walk: nat -> nat, doSimd: bool) returns (err: int)
    requires IsRound(R) && |key| == |iv| == 16 && IsWalk(walk) && assoclen <= |Joined(segs)|
    requires 8 <= authsize <= 16 && authsize <= cryptlen0 && |rest| == 16 - authsize
    requires assoclen + cryptlen0 <= src.Length && assoclen + cryptlen0 <= dst.Length + authsize
    modifies dst
    ensures var r := Open(R, key, iv, Joined(segs)[..assoclen], old(src[assoclen..assoclen + cryptlen0]), authsize);
            && err == (if r.Accepted? then 0 else -EBADMSG)
            && dst[..] == Splice(old(dst[..]), assoclen, if r.Accepted? then r.text else Zeros(cryptlen0 - authsize))
  {
    hide Initial, Absorb, Encrypted, Decrypted, Splice, Tag, Xor, Zeros;
    ghost var d0, m := dst[..], src[assoclen..assoclen + cryptlen0];
    var cryptlen := cryptlen0 - authsize;
    var tag := src[assoclen + cryptlen..assoclen + cryptlen0] + rest;
    assert tag[..authsize] == m[cryptlen..] && m[..cryptlen] == src[assoclen..assoclen + cryptlen];
    var state := new AegisState();
    Init(R, state, key, iv, doSimd);
    ProcessAd(R, state, segs, assoclen, doSimd);
    ghost var s := state.blocks;
    ProcessCrypt(R, state, dst, assoclen, src, assoclen, cryptlen, walk, true, doSimd);
    var wrong;
    if doSimd {
      var ret, _ := FinalNeon(R, state, tag, assoclen, cryptlen, authsize);
      wrong := ret != 0;
    } else {
      MemneqZeros(tag, Tag(R, state.blocks, assoclen, cryptlen), authsize);
      var t := Final(R, state, tag, assoclen, cryptlen);
      wrong := t[..authsize] != Zeros(authsize);
    }
    if wrong {
      SpliceTwice(d0, assoclen, Out(R, s, m[..cryptlen], true), Zeros(cryptlen));
      Put(dst, assoclen, Zeros(cryptlen));
      return -EBADMSG;
    }
    err := 0;
  }
}
