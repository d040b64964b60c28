/**
 Adiantum: a hash, a block cipher and a stream cipher around the last 16 bytes.  Decryption
 undoes encryption for any hash, any invertible block cipher and any keystream whose longer
 outputs extend its shorter ones.
 */
module Adiantum {
  import opened Bytes
  import opened Numbers
  import Arith

  const W: nat := 0x1_0000_0000_0000_0000

  type u64 = x: nat | x < W

  /** The C operators + and - on u64. */
  function Plus(x: u64, y: u64): u64 { if x + y < W then x + y else x + y - W }
  function Minus(x: u64, y: u64): u64 { if y <= x then x - y else x - y + W }

  /** le128 with its words in CPU order: `a` is the high word, `b` the low one. */
  datatype Le128 = Le128(a: u64, b: u64) {
    function Value(): (n: nat)
      ensures n < W * W
    {
      a * W + b
    }
  }

  lemma ValueInjective(x: Le128, y: Le128)
    requires x.Value() == y.Value()
    ensures x == y
  {
  }

  /** le128_add */
  function Add(v1: Le128, v2: Le128): (r: Le128)
    ensures r.Value() == if v1.Value() + v2.Value() < W * W then v1.Value() + v2.Value() else v1.Value() + v2.Value() - W * W
  {
    var x, y := v1.b, v2.b;
    Le128(Plus(Plus(v1.a, v2.a), if Plus(x, y) < x then 1 else 0), Plus(x, y))
  }

  /** le128_sub */
  function Sub(v1: Le128, v2: Le128): (r: Le128)
    ensures r.Value() == if v2.Value() <= v1.Value() then v1.Value() - v2.Value() else v1.Value() - v2.Value() + W * W
  {
    var x, y := v1.b, v2.b;
    Le128(Minus(Minus(v1.a, v2.a), if Minus(x, y) > x then 1 else 0), Minus(x, y))
  }

  /** Both are exact in Z/(2^128 Z). */
  lemma ExactMod128(x: Le128, y: Le128)
    ensures Add(x, y).Value() == (x.Value() + y.Value()) % (W * W)
    ensures Sub(x, y).Value() == (x.Value() - y.Value()) % (W * W)
  {
    hide Add, Sub, Le128.Value;
    var p, q := x.Value() + y.Value(), x.Value() - y.Value();
    Arith.ModUnique(p, if p < W * W then 0 else 1, W * W, Add(x, y).Value());
    Arith.ModUnique(q, if 0 <= q then 0 else -1, W * W, Sub(x, y).Value());
  }

  /** Two additions and two subtractions of the same numbers, in the order of the hash steps. */
  lemma SubUndoesAdd(x: Le128, h: Le128, d: Le128)
    ensures Sub(Sub(Add(Add(x, h), d), h), d) == x
    ensures Add(Add(Sub(Sub(x, h), d), h), d) == x
  {
    hide Add, Sub, Le128.Value;
    ValueInjective(Sub(Sub(Add(Add(x, h), d), h), d), x);
    ValueInjective(Add(Add(Sub(Sub(x, h), d), h), d), x);
  }

  // ----- the union rbuf: 16 bytes, or a le128 -----

  lemma Pow8()
    ensures Pow256(8) == W
  {
    assert Pow256(4) == 0x1_0000_0000;
  }

  function Bignum(s: Bytes): Le128
    requires |s| == 16
  {
    Pow8();
    LeBound(s[..8]);
    LeBound(s[8..]);
    Le128(Le(s[8..]), Le(s[..8]))
  }

  function BytesOf(x: Le128): (s: Bytes)
    ensures |s| == 16
  {
    LePut(x.b, 8) + LePut(x.a, 8)
  }

  lemma UnionRoundTrip(s: Bytes, x: Le128)
    requires |s| == 16
    ensures BytesOf(Bignum(s)) == s && Bignum(BytesOf(x)) == x
  {
    hide Le, LePut;
    Pow8();
    PutOfLe(s[..8]);
    PutOfLe(s[8..]);
    LeOfPut(x.a, 8);
    LeOfPut(x.b, 8);
    assert BytesOf(x)[..8] == LePut(x.b, 8) && BytesOf(x)[8..] == LePut(x.a, 8);
  }

  /** The bytes are the number, little endian. */
  lemma BignumIsLe(s: Bytes)
    requires |s| == 16
    ensures Bignum(s).Value() == Le(s) && Pow256(16) == W * W
  {
    hide Le;
    Pow8();
    assert Pow256(9) == 0x100 * W && Pow256(12) == 0x1_0000_0000 * W;
    LeConcat(s[..8], s[8..]);
    assert s == s[..8] + s[8..];
  }

  // ----- the mode -----

  /**
   The keyed parts: the block cipher, Poly1305 of (bulk length, tweak), NHPoly1305 of the bulk,
   and the keystream for an IV and a length.
   */
  datatype Keys = Keys(cipher: Cipher, header: (nat, Bytes) -> Le128, hash: Bytes -> Le128,
                       stream: (Bytes, nat) -> Bytes) {
    ghost predicate Valid() {
      && cipher.size == 16 && cipher.Valid()
      && (forall iv, n: nat :: |stream(iv, n)| == n)
      && (forall iv, n: nat, m: nat :: m <= n ==> stream(iv, n)[..m] == stream(iv, m))
    }
  }

  const EINVAL := 22
  const BLOCKCIPHER_BLOCK_SIZE := 16
  const CHACHA_BLOCK_SIZE := 64

  /** The rest of the XChaCha IV: the little-endian words 1, 0, 0, 0. */
  const IV_REST: Bytes := [1, 0, 0, 0, 0, 0, 0, 0, 0, 0, 0, 0, 0, 0, 0, 0]

  /** First hash step, and the block cipher when encrypting: the 16 bytes that start the IV. */
  function Middle(k: Keys, tweak: Bytes, bulk: Bytes, right: Bytes, enc: bool): (s: Bytes)
    requires k.Valid() && |right| == 16
    ensures |s| == 16
  {
    var x := BytesOf(Add(Add(Bignum(right), k.header(|bulk|, tweak)), k.hash(bulk)));
    if enc then k.cipher.enc(x) else x
  }

  /** The second hash step, over the bulk already passed through the stream cipher. */
  function Last(k: Keys, tweak: Bytes, bulk: Bytes, middle: Bytes, enc: bool): (s: Bytes)
    requires k.Valid() && |middle| == 16
    ensures |s| == 16
  {
    var x := if enc then middle else k.cipher.dec(middle);
    BytesOf(Sub(Sub(Bignum(x), k.header(|bulk|, tweak)), k.hash(bulk)))
  }

  /** The hash of tweak and bulk, as a number. */
  function HashValue(k: Keys, tweak: Bytes, bulk: Bytes): nat {
    k.header(|bulk|, tweak).Value() + k.hash(bulk).Value()
  }

  /** The first hash step adds the hash to the block modulo 2^128, and encryption enciphers the sum. */
  lemma MiddleIs(k: Keys, tweak: Bytes, bulk: Bytes, right: Bytes)
    requires k.Valid() && |right| == 16
    ensures var sum := Middle(k, tweak, bulk, right, false);
            && Le(sum) == (Le(right) + HashValue(k, tweak, bulk)) % Pow256(16)
            && Middle(k, tweak, bulk, right, true) == k.cipher.enc(sum)
  {
    hide Add, Sub, BytesOf, Bignum, Le128.Value, Le, Pow256;
    var h, d := k.header(|bulk|, tweak), k.hash(bulk);
    var b := Bignum(right);
    BignumIsLe(right);
    ExactMod128(b, h);
    ExactMod128(Add(b, h), d);
    Arith.ModOfSum(b.Value() + h.Value(), d.Value(), Pow256(16));
    var sum := Middle(k, tweak, bulk, right, false);
    UnionRoundTrip(sum, Add(Add(b, h), d));
    BignumIsLe(sum);
  }

  /** The second one subtracts the hash of the new bulk, and decryption has deciphered the block before. */
  lemma LastIs(k: Keys, tweak: Bytes, bulk: Bytes, middle: Bytes)
    requires k.Valid() && |middle| == 16
    ensures Le(Last(k, tweak, bulk, middle, true)) == (Le(middle) - HashValue(k, tweak, bulk)) % Pow256(16)
    ensures Last(k, tweak, bulk, middle, false) == Last(k, tweak, bulk, k.cipher.dec(middle), true)
  {
    hide Add, Sub, BytesOf, Bignum, Le128.Value, Le, Pow256;
    var h, d := k.header(|bulk|, tweak), k.hash(bulk);
    var b := Bignum(middle);
    BignumIsLe(middle);
    ExactMod128(b, h);
    ExactMod128(Sub(b, h), d);
    var e: int := d.Value();
    Arith.ModOfSum(b.Value() - h.Value(), -e, Pow256(16));
    var r := Last(k, tweak, bulk, middle, true);
    UnionRoundTrip(r, Sub(Sub(b, h), d));
    BignumIsLe(r);
  }

  /** What a message becomes. */
  function Crypt(k: Keys, tweak: Bytes, m: Bytes, enc: bool): (r: Bytes)
    requires k.Valid() && 16 <= |m|
    ensures |r| == |m|
  {
    var n := |m| - 16;
    var middle := Middle(k, tweak, m[..n], m[n..], enc);
    var bulk := Xor(m[..n], k.stream(middle + IV_REST, n));
    bulk + Last(k, tweak, bulk, middle, enc)
  }

  /** Hash step, cipher, and the two undone. */
  lemma MiddleBack(k: Keys, tweak: Bytes, bulk: Bytes, right: Bytes, bulk': Bytes)
    requires k.Valid() && k.cipher.Invertible() && |right| == 16 && |bulk| == |bulk'|
    ensures var c := Middle(k, tweak, bulk, right, true);
            && Middle(k, tweak, bulk', Last(k, tweak, bulk', c, true), false) == c
            && Last(k, tweak, bulk, c, false) == right
  {
    hide Add, Sub, BytesOf, Bignum;
    var h, d, d' := k.header(|bulk|, tweak), k.hash(bulk), k.hash(bulk');
    var x := Add(Add(Bignum(right), h), d);
    var c := k.cipher.enc(BytesOf(x));
    var z := Sub(Sub(Bignum(c), h), d');
    UnionRoundTrip(c, z);
    UnionRoundTrip(right, x);
    SubUndoesAdd(Bignum(c), h, d');
    SubUndoesAdd(Bignum(right), h, d);
  }

  /** Decryption undoes encryption, for every tweak and every length of at least one block. */
  lemma RoundTrip(k: Keys, tweak: Bytes, m: Bytes)
    requires k.Valid() && k.cipher.Invertible() && 16 <= |m|
    ensures Crypt(k, tweak, Crypt(k, tweak, m, true), false) == m
  {
    hide Xor, Middle, Last;
    var n := |m| - 16;
    var c := Middle(k, tweak, m[..n], m[n..], true);
    var ks := k.stream(c + IV_REST, n);
    var bulk := Xor(m[..n], ks);
    var z := Last(k, tweak, bulk, c, true);
    assert (bulk + z)[..n] == bulk && (bulk + z)[n..] == z;
    MiddleBack(k, tweak, m[..n], m[n..], bulk);
    XorCancel(m[..n], ks);
    assert m[..n] + m[n..] == m;
  }

  // ----- the driver -----

  function RoundUp(n: nat, m: nat): (r: nat)
    requires 0 < m
    ensures n <= r < n + m && r % m == 0
  {
    var q := (n + m - 1) / m;
    Arith.ModUnique(q * m, q, m, 0);
    q * m
  }

  /** The stream cipher over the first len bytes of src, into dst. */
  method StreamCrypt(k: Keys, src: array<bv8>, dst: array<bv8>, len: nat, iv: Bytes)
    requires k.Valid() && len <= src.Length && len <= dst.Length
    modifies dst
    ensures dst[..] == Splice(old(dst[..]), 0, Xor(old(src[..len]), k.stream(iv, len)))
  {
    hide Xor;
    var out := Xor(src[..len], k.stream(iv, len));
    Put(dst, 0, out);
  }

  /**
   Rounding the stream step up writes over bytes that the second hash step replaces: the bulk it
   leaves is the same.
   */
  lemma RoundedUp(k: Keys, d: Bytes, m: Bytes, iv: Bytes, len: nat, last: Bytes)
    requires k.Valid() && |last| == 16 <= |m| <= |d| && |m| - 16 <= len <= |m|
    ensures var n := |m| - 16;
            var d' := Splice(d, 0, Xor(m[..len], k.stream(iv, len)));
            var bulk := Xor(m[..n], k.stream(iv, n));
            d'[..n] == bulk && Splice(d', n, last) == Splice(d, 0, bulk + last)
  {
    hide XorByte;
    var n := |m| - 16;
    var ks := k.stream(iv, len);
    XorSlice(m[..len], ks, 0, n);
    assert m[..len][0..n] == m[..n] && ks[0..n] == k.stream(iv, n);
    RoundedSplice(d, Xor(m[..len], ks), n, last);
  }

  lemma RoundedSplice(d: Bytes, x: Bytes, n: nat, last: Bytes)
    requires n <= |x| <= n + |last| <= |d|
    ensures Splice(d, 0, x)[..n] == x[0..n]
    ensures Splice(Splice(d, 0, x), n, last) == Splice(d, 0, x[0..n] + last)
  {
  }

  /** adiantum_crypt and adiantum_finish, the stream step completing at once; src and dst may be the same buffer. */
  method AdiantumCrypt(k: Keys, tweak: Bytes, src: array<bv8>, dst: array<bv8>, cryptlen: nat, enc: bool) returns (err: int)
    requires k.Valid() && cryptlen <= src.Length && cryptlen <= dst.Length
    modifies dst
    ensures err == if cryptlen < BLOCKCIPHER_BLOCK_SIZE then -EINVAL else 0
    ensures dst[..] == if cryptlen < BLOCKCIPHER_BLOCK_SIZE then old(dst[..])
                       else Splice(old(dst[..]), 0, Crypt(k, tweak, old(src[..cryptlen]), enc))
  {
    hide Xor, Splice, Add, Sub, BytesOf, Bignum, RoundUp;
    if cryptlen < BLOCKCIPHER_BLOCK_SIZE {
      return -EINVAL;
    }
    ghost var d, m := dst[..], src[..cryptlen];
    var bulkLen := cryptlen - BLOCKCIPHER_BLOCK_SIZE;
    var headerHash := k.header(bulkLen, tweak);
    var digest := k.hash(src[..bulkLen]);
    var rbuf := src[bulkLen..cryptlen];
    assert rbuf == m[bulkLen..] && src[..bulkLen] == m[..bulkLen];
    UnionRoundTrip(rbuf, Add(Bignum(rbuf), headerHash));
    rbuf := BytesOf(Add(Bignum(rbuf), headerHash));
    rbuf := BytesOf(Add(Bignum(rbuf), digest));
    if enc {
      rbuf := k.cipher.enc(rbuf);
    }
    ghost var middle := rbuf;
    assert middle == Middle(k, tweak, m[..bulkLen], m[bulkLen..], enc);
    var streamLen := bulkLen;
    if RoundUp(streamLen, CHACHA_BLOCK_SIZE) <= cryptlen {
      streamLen := RoundUp(streamLen, CHACHA_BLOCK_SIZE);
    }
    ghost var streamed := src[..streamLen];
    StreamCrypt(k, src, dst, streamLen, rbuf + IV_REST);
    if !enc {
      rbuf := k.cipher.dec(rbuf);
    }
    UnionRoundTrip(rbuf, Sub(Bignum(rbuf), headerHash));
    rbuf := BytesOf(Sub(Bignum(rbuf), headerHash));
    rbuf := BytesOf(Sub(Bignum(rbuf), k.hash(dst[..bulkLen])));
    RoundedUp(k, d, m, middle + IV_REST, streamLen, rbuf);
    assert m[..streamLen] == streamed;
    Put(dst, bulkLen, rbuf);
    err := 0;
  }
}
