/**
 Counter mode: crypto_inc adds one to a big-endian number of any length, word by word and then
 byte by byte; the three loops that make the keystream give the same bytes and counter.
 */
module Ctr {
  import opened Bytes
  import opened Numbers
  import Arith
  import Cbc

  /** One added from the last byte on. */
  function Inc(s: Bytes): (r: Bytes)
    ensures |r| == |s|
  {
    if |s| == 0 then []
    else
      var n := |s| - 1;
      if s[n] == 0xff then Inc(s[..n]) + [0] else s[..n] + [ByteOf(ByteVal(s[n]) + 1)]
  }

  lemma ByteMax(b: bv8)
    ensures b == 0xff <==> ByteVal(b) == 0xff
    ensures b != 0xff ==> ByteVal(b) < 0xff && ByteOf(ByteVal(b) + 1) != 0
  {
    hide ByteVal, ByteOf;
    MaxByte();
    ByteOfVal(b);
    if b != 0xff {
      NotZero(ByteVal(b) + 1);
    }
  }

  lemma MaxByte()
    ensures ByteVal(0xff) == 0xff && ByteOf(0xff) == 0xff
  {
  }

  lemma NotZero(n: nat)
    requires 0 < n < 0x100
    ensures ByteOf(n) != 0
  {
    ByteValOf(n);
    ZeroByte();
  }

  /** The last byte takes the carry, unless it is 0xff. */
  lemma IncSnoc(t: Bytes, b: bv8)
    ensures b == 0xff ==> Inc(t + [b]) == Inc(t) + [0]
    ensures b != 0xff ==> ByteVal(b) < 0xff && Inc(t + [b]) == t + [ByteOf(ByteVal(b) + 1)] && ByteOf(ByteVal(b) + 1) != 0
  {
    hide ByteVal, ByteOf;
    ByteMax(b);
    assert (t + [b])[..|t|] == t;
  }

  lemma BeSnoc(t: Bytes, b: bv8)
    ensures Be(t + [b]) == Be(t) * 0x100 + ByteVal(b) && Pow256(|t + [b]|) == 0x100 * Pow256(|t|)
  {
    hide ByteVal;
    assert (t + [b])[..|t|] == t;
  }

  /** The meaning of Inc: addition modulo 256^|s|. */
  lemma {:induction false} IncIsPlusOne(s: Bytes)
    ensures Be(Inc(s)) == if Be(s) + 1 == Pow256(|s|) then 0 else Be(s) + 1
  {
    hide Inc, Be, Pow256, ByteVal, ByteOf;
    if |s| == 0 {
      IncNone();
      assert s == [];
    } else {
      var t, b := s[..|s| - 1], s[|s| - 1];
      assert s == t + [b];
      IncIsPlusOne(t);
      IncSnoc(t, b);
      ByteMax(b);
      BeBound(t);
      BeSnoc(t, b);
      if b == 0xff {
        ZeroByte();
        BeSnoc(Inc(t), 0);
      } else {
        ByteValOf(ByteVal(b) + 1);
        BeSnoc(t, ByteOf(ByteVal(b) + 1));
      }
    }
  }

  lemma IncNone()
    ensures Inc([]) == [] && Be([]) == 0 && Pow256(0) == 1
  {
  }

  lemma ZeroByte()
    ensures ByteVal(0) == 0
  {
  }

  lemma IncModulo(s: Bytes)
    ensures Be(Inc(s)) == (Be(s) + 1) % Pow256(|s|)
  {
    hide Inc, Be, Pow256;
    IncIsPlusOne(s);
    BeBound(s);
    Arith.ModUnique(Be(s) + 1, if Be(s) + 1 == Pow256(|s|) then 1 else 0, Pow256(|s|), Be(Inc(s)));
  }

  /** The last bytes q take the carry, or pass it on and become zero. */
  lemma {:induction false} IncSplit(p: Bytes, q: Bytes)
    ensures if Inc(q) == Zeros(|q|) then Inc(p + q) == Inc(p) + Zeros(|q|) else Inc(p + q) == p + Inc(q)
  {
    hide Inc, ByteVal, ByteOf;
    if |q| == 0 {
      IncEmpty();
      assert p + q == p && Inc(p) + Zeros(0) == Inc(p);
    } else {
      var n := |q| - 1;
      var t, b := q[..n], q[n];
      assert q == t + [b] && p + q == p + t + [b];
      IncSnoc(t, b);
      IncSnoc(p + t, b);
      IncSplit(p, t);
      ZerosSnoc(n);
      if b == 0xff {
        if Inc(t) == Zeros(n) {
          ConcatAssoc(Inc(p), Zeros(n), [0]);
        } else {
          SnocDiffers(Inc(t), Zeros(n), 0, 0);
          ConcatAssoc(p, Inc(t), [0]);
        }
      } else {
        SnocDiffers(t, Zeros(n), ByteOf(ByteVal(b) + 1), 0);
        ConcatAssoc(p, t, [ByteOf(ByteVal(b) + 1)]);
      }
    }
  }

  lemma IncEmpty()
    ensures Inc([]) == []
  {
  }

  lemma ZerosSnoc(n: nat)
    ensures Zeros(n + 1) == Zeros(n) + [0]
  {
  }

  lemma SnocDiffers(x: Bytes, y: Bytes, a: bv8, b: bv8)
    requires |x| == |y| && (x != y || a != b)
    ensures x + [a] != y + [b]
  {
    assert (x + [a])[..|x|] == x && (y + [b])[..|y|] == y && (x + [a])[|x|] == a && (y + [b])[|y|] == b;
  }

  /** The word loaded, incremented modulo 2^32 and stored. */
  function IncWord(w: Bytes): (r: Bytes)
    requires |w| == 4
    ensures |r| == 4
  {
    BePut((Be(w) + 1) % 0x1_0000_0000, 4)
  }

  lemma Pow4()
    ensures Pow256(4) == 0x1_0000_0000
  {
  }

  lemma IncWordIsInc(w: Bytes)
    requires |w| == 4
    ensures IncWord(w) == Inc(w)
    ensures (Be(w) + 1) % 0x1_0000_0000 == 0 <==> Inc(w) == Zeros(4)
  {
    hide Inc, Be, BePut, Pow256;
    Pow4();
    IncModulo(w);
    PutOfBe(Inc(w));
    BeZeros(4);
    PutOfBe(Zeros(4));
  }

  function IncByte(b: bv8): bv8 { b + 1 }

  lemma IncByteIsInc(b: bv8)
    ensures Inc([b]) == [IncByte(b)] && (IncByte(b) == 0 <==> Inc([b]) == Zeros(1))
  {
    assert [b][..0] == [];
    IncByteValue(b);
    assert Zeros(1) == [0];
  }

  lemma IncByteValue(b: bv8)
    ensures if b == 0xff then IncByte(b) == 0 else IncByte(b) == ByteOf(ByteVal(b) + 1) && IncByte(b) != 0
  {
    if b != 0xff {
      assert (b + 1) as nat == b as nat + 1;
      ByteOfVal(b + 1);
    }
  }

  /** What the loops have left to do: bytes up to i still carry one, the rest are zero. */
  lemma Carried(s: Bytes, i: nat, k: nat)
    requires k <= i <= |s| && Inc(s) == Inc(s[..i]) + Zeros(|s| - i)
    ensures var q := s[i - k..i];
            if Inc(q) == Zeros(k) then Inc(s) == Inc(s[..i - k]) + Zeros(|s| - (i - k))
            else Inc(s) == Splice(s[..i] + Zeros(|s| - i), i - k, Inc(q))
  {
    hide Inc;
    var p, q := s[..i - k], s[i - k..i];
    assert s[..i] == p + q;
    IncSplit(p, q);
    if Inc(q) == Zeros(k) {
      assert Inc(p) + Zeros(k) + Zeros(|s| - i) == Inc(p) + Zeros(|s| - (i - k));
    } else {
      assert Splice(s[..i] + Zeros(|s| - i), i - k, Inc(q)) == p + Inc(q) + Zeros(|s| - i);
    }
  }

  /** crypto_inc_byte on the first `size` bytes; those after them have passed the carry on. */
  method CryptoIncByte(a: array<bv8>, size: nat, ghost s: Bytes)
    requires size <= a.Length && |s| == a.Length && a[..] == s[..size] + Zeros(|s| - size)
    requires Inc(s) == Inc(s[..size]) + Zeros(|s| - size)
    modifies a
    ensures a[..] == Inc(s)
  {
    hide Inc, IncByte;
    var i := size;
    while i > 0
      invariant 0 <= i <= size && a[..] == s[..i] + Zeros(|s| - i)
      invariant Inc(s) == Inc(s[..i]) + Zeros(|s| - i)
    {
      assert a[i - 1] == s[i - 1] && s[i - 1..i] == [s[i - 1]];
      IncByteIsInc(s[i - 1]);
      Carried(s, i, 1);
      ghost var d := a[..];
      var c := IncByte(a[i - 1]);
      i := i - 1;
      a[i] := c;
      assert a[..] == Splice(d, i, [c]);
      if c != 0 {
        return;
      }
    }
    IncNothing(s);
  }

  lemma IncNothing(s: Bytes)
    ensures Inc(s[..0]) == [] && [] + Zeros(|s|) == Zeros(|s|)
  {
  }

  /** The word in front of `size`; `done` when it passes no carry on. */
  method CryptoIncWord(a: array<bv8>, size: nat, ghost s: Bytes) returns (done: bool)
    requires 4 <= size <= a.Length && |s| == a.Length && a[..] == s[..size] + Zeros(|s| - size)
    requires Inc(s) == Inc(s[..size]) + Zeros(|s| - size)
    modifies a
    ensures if done then a[..] == Inc(s)
            else a[..] == s[..size - 4] + Zeros(|s| - size + 4) && Inc(s) == Inc(s[..size - 4]) + Zeros(|s| - size + 4)
  {
    hide Inc, IncWord, Be;
    var w := a[size - 4..size];
    assert w == s[size - 4..size];
    IncWordIsInc(w);
    Carried(s, size, 4);
    Put(a, size - 4, IncWord(w));
    done := (Be(w) + 1) % 0x1_0000_0000 != 0;
  }

  /** crypto_inc: by words from the end when they can be accessed as such. */
  method CryptoInc(a: array<bv8>, words: bool)
    modifies a
    ensures a[..] == Inc(old(a[..]))
  {
    hide Inc, IncWord, Be;
    ghost var s := a[..];
    var size := a.Length;
    assert s[..size] == s && s + Zeros(0) == s && Inc(s) + Zeros(0) == Inc(s);
    if words {
      while size >= 4
        invariant 0 <= size <= |s| && a.Length == |s| && a[..] == s[..size] + Zeros(|s| - size)
        invariant Inc(s) == Inc(s[..size]) + Zeros(|s| - size)
      {
        var done := CryptoIncWord(a, size, s);
        size := size - 4;
        if done {
          return;
        }
      }
    }
    CryptoIncByte(a, size, s);
  }

  // ----- the mode -----

  /** The first n bytes of keystream from a counter block on. */
  function Stream(c: Cipher, iv: Bytes, n: nat): (r: Bytes)
    requires c.Valid() && |iv| == c.size
    ensures |r| == n
    decreases n
  {
    if n <= c.size then c.enc(iv)[..n] else c.enc(iv) + Stream(c, Inc(iv), n - c.size)
  }

  /** The counter after n bytes: one step for each block begun. */
  function NextIv(size: nat, iv: Bytes, n: nat): (r: Bytes)
    requires 0 < size && |iv| == size
    ensures |r| == size
    decreases n
  {
    if n == 0 then iv else if n <= size then Inc(iv) else NextIv(size, Inc(iv), n - size)
  }

  function Crypted(c: Cipher, iv: Bytes, p: Bytes): (r: Bytes)
    requires c.Valid() && |iv| == c.size
    ensures |r| == |p|
  {
    Xor(p, Stream(c, iv, |p|))
  }

  /** Encryption and decryption are the same function, its own inverse. */
  lemma CryptedTwice(c: Cipher, iv: Bytes, p: Bytes)
    requires c.Valid() && |iv| == c.size
    ensures Crypted(c, iv, Crypted(c, iv, p)) == p
  {
    hide Stream, Xor;
    XorCancel(p, Stream(c, iv, |p|));
  }

  lemma {:induction false} StreamConcat(c: Cipher, iv: Bytes, a: nat, b: nat)
    requires c.Valid() && |iv| == c.size && Cbc.Whole(a, c.size) == a
    ensures Stream(c, iv, a + b) == Stream(c, iv, a) + Stream(c, NextIv(c.size, iv, a), b)
    ensures NextIv(c.size, iv, a + b) == NextIv(c.size, NextIv(c.size, iv, a), b)
    decreases a
  {
    hide Inc;
    if a != 0 {
      Cbc.WholeIsSmall(a, c.size);
      if a == c.size {
        assert c.enc(iv)[..c.size] == c.enc(iv);
        if b == 0 {
          assert Stream(c, Inc(iv), 0) == [];
        }
      } else {
        StreamConcat(c, Inc(iv), a - c.size, b);
        ConcatAssoc(c.enc(iv), Stream(c, Inc(iv), a - c.size), Stream(c, NextIv(c.size, iv, a), b));
      }
    } else {
      assert Stream(c, iv, 0) == [];
    }
  }

  /** The keystream of a longer text starts with that of a shorter one. */
  lemma {:induction false} StreamPrefix(c: Cipher, iv: Bytes, m: nat, n: nat)
    requires c.Valid() && |iv| == c.size && m <= n
    ensures Stream(c, iv, n)[..m] == Stream(c, iv, m)
    decreases n
  {
    hide Inc;
    if c.size < n {
      if c.size < m {
        StreamPrefix(c, Inc(iv), m - c.size, n - c.size);
      }
    }
  }

  lemma StreamShort(c: Cipher, v: Bytes, n: nat)
    requires c.Valid() && |v| == c.size && 0 < n <= c.size
    ensures Stream(c, v, n) == c.enc(v)[..n] && NextIv(c.size, v, n) == Inc(v)
  {
  }

  lemma BeInjective(v: Bytes, w: Bytes)
    requires |v| == |w| && Be(v) == Be(w)
    ensures v == w
  {
    PutOfBe(v);
    PutOfBe(w);
  }

  /** Byte j of keystream block i is that of the encrypted counter iv + i, modulo 256^size. */
  lemma {:induction false} StreamAt(c: Cipher, iv: Bytes, n: nat, i: nat, j: nat, v: Bytes)
    requires c.Valid() && |iv| == |v| == c.size && Be(v) == (Be(iv) + i) % Pow256(c.size)
    requires j < c.size && i * c.size + j < n
    ensures 0 <= i * c.size && Stream(c, iv, n)[i * c.size + j] == c.enc(v)[j]
    decreases i
  {
    hide Inc, Be, Pow256;
    BeBound(iv);
    if i == 0 {
      Arith.ModUnique(Be(iv), 0, Pow256(c.size), Be(iv));
      BeInjective(v, iv);
    } else {
      IncModulo(iv);
      Arith.ModOfSum(Be(iv) + 1, i - 1, Pow256(c.size));
      Arith.MulMinus(i, 1, c.size);
      StreamAt(c, Inc(iv), n - c.size, i - 1, j, v);
    }
  }

  /** The counter moves on by k when k blocks have been begun. */
  lemma {:induction false} NextIvIs(size: nat, iv: Bytes, n: nat, k: nat)
    requires 0 < size == |iv| && n <= k * size < n + size
    ensures Be(NextIv(size, iv, n)) == (Be(iv) + k) % Pow256(size)
    decreases n
  {
    hide Inc, Be, Pow256, NextIv;
    BlocksOf(k, size);
    NextIvTurn(size, iv, n);
    if n == 0 {
      BeBound(iv);
      Arith.ModUnique(Be(iv), 0, Pow256(size), Be(iv));
    } else {
      IncModulo(iv);
      BlocksOf(k - 1, size);
      if n > size {
        NextIvIs(size, Inc(iv), n - size, k - 1);
        Arith.ModOfSum(Be(iv) + 1, k - 1, Pow256(size));
      }
    }
  }

  lemma NextIvTurn(size: nat, iv: Bytes, n: nat)
    requires 0 < size == |iv|
    ensures NextIv(size, iv, n) == if n == 0 then iv else if n <= size then Inc(iv) else NextIv(size, Inc(iv), n - size)
  {
  }

  lemma BlocksOf(k: nat, size: nat)
    requires 0 < size
    ensures k * size < size <==> k == 0
    ensures k > 0 ==> (k - 1) * size == k * size - size
  {
    if k >= 1 {
      Arith.MulAtLeast(k, size);
      Arith.MulMinus(k, 1, size);
    }
  }

  /** One piece of at most a block more. */
  lemma CryptedSnoc(c: Cipher, iv: Bytes, p: Bytes, x: Bytes)
    requires c.Valid() && |iv| == c.size && Cbc.Whole(|p|, c.size) == |p| && 0 < |x| <= c.size
    ensures var v := NextIv(c.size, iv, |p|);
            && Crypted(c, iv, p + x) == Crypted(c, iv, p) + Xor(x, c.enc(v)[..|x|])
            && NextIv(c.size, iv, |p + x|) == Inc(v)
  {
    hide Xor, Inc, Stream, NextIv, Cbc.Whole;
    var n, k := |p|, |x|;
    assert |p + x| == n + k;
    StreamConcat(c, iv, n, k);
    var v := NextIv(c.size, iv, n);
    StreamShort(c, v, k);
    XorConcat(p, Stream(c, iv, n), x, Stream(c, v, k));
  }

  /** Destination d and counter v after the first `at` bytes of p. */
  ghost predicate CtrDone(c: Cipher, iv: Bytes, d0: Bytes, dpos: nat, p: Bytes, at: nat, d: Bytes, v: Bytes)
    requires c.Valid() && |iv| == c.size
  {
    && dpos + |p| <= |d0| && at <= |p| && (Cbc.Whole(at, c.size) == at || at == |p|)
    && d == Splice(d0, dpos, Crypted(c, iv, p[..at]))
    && v == NextIv(c.size, iv, at)
  }

  /** The pieces and the bytes they become, without the predicate. */
  lemma CtrTurnBytes(c: Cipher, iv: Bytes, d0: Bytes, dpos: nat, p: Bytes, at: nat, n: nat)
    requires c.Valid() && |iv| == c.size && dpos + |p| <= |d0| && Cbc.Whole(at, c.size) == at
    requires 0 < n <= c.size && at + n <= |p|
    ensures var v := NextIv(c.size, iv, at);
            && Splice(Splice(d0, dpos, Crypted(c, iv, p[..at])), dpos + at, Xor(p[at..at + n], c.enc(v)[..n]))
               == Splice(d0, dpos, Crypted(c, iv, p[..at + n]))
            && NextIv(c.size, iv, at + n) == Inc(v)
  {
    hide Crypted, NextIv, Xor, Inc, Splice, Stream, Cbc.Whole;
    Cut(p, at, n);
    CryptedSnoc(c, iv, p[..at], p[at..at + n]);
    SpliceSnoc(d0, dpos, Crypted(c, iv, p[..at]), Xor(p[at..at + n], c.enc(NextIv(c.size, iv, at))[..n]));
  }

  lemma CtrTurn(c: Cipher, iv: Bytes, d0: Bytes, dpos: nat, p: Bytes, at: nat, n: nat, d: Bytes, v: Bytes)
    requires c.Valid() && |iv| == c.size && CtrDone(c, iv, d0, dpos, p, at, d, v)
    requires 0 < n <= c.size && at + n <= |p| && (n == c.size || at + n == |p|)
    ensures |v| == c.size && |d| == |d0| && dpos + |p| <= |d0|
    ensures CtrDone(c, iv, d0, dpos, p, at + n, Splice(d, dpos + at, Xor(p[at..at + n], c.enc(v)[..n])), Inc(v))
  {
    hide Crypted, NextIv, Xor, Inc, Splice, Stream, Cbc.Whole;
    WholeOneMore(at, n, c.size);
    CtrTurnBytes(c, iv, d0, dpos, p, at, n);
  }

  lemma WholeOneMore(at: nat, n: nat, size: nat)
    requires 0 < n <= size && Cbc.Whole(at, size) == at
    ensures n == size ==> Cbc.Whole(at + n, size) == at + n
  {
    Cbc.WholePlus(at, n, size);
  }

  lemma CtrStart(c: Cipher, iv: Bytes, d0: Bytes, dpos: nat, src: Bytes, spos: nat, p: Bytes)
    requires c.Valid() && |iv| == c.size && dpos + |p| <= |d0| && spos + |p| <= |src| && p == src[spos..spos + |p|]
    ensures CtrDone(c, iv, d0, dpos, p, 0, d0, iv) && Ahead(src, spos, p, 0)
  {
    SpliceNone(d0, dpos);
    assert p[..0] == [] && p[0..] == p && Crypted(c, iv, []) == [];
  }

  lemma CtrEnd(c: Cipher, iv: Bytes, d0: Bytes, dpos: nat, p: Bytes, d: Bytes, v: Bytes)
    requires c.Valid() && |iv| == c.size && CtrDone(c, iv, d0, dpos, p, |p|, d, v)
    ensures dpos + |p| <= |d0| && d == Splice(d0, dpos, Crypted(c, iv, p)) && v == NextIv(c.size, iv, |p|)
  {
    assert p[..|p|] == p;
  }

  /**
   One turn of crypto_ctr_crypt_segment (keystream made in dst, then the source XORed in) or of
   crypto_ctr_crypt_inplace (keystream made aside).
   */
  method CtrBlock(c: Cipher, ctrblk: array<bv8>, dst: array<bv8>, dpos: nat, src: array<bv8>, spos: nat)
    requires c.Valid() && ctrblk.Length == c.size && ctrblk != dst && ctrblk != src && Placed(dst, dpos, src, spos, c.size)
    modifies dst, ctrblk
    ensures dst[..] == Splice(old(dst[..]), dpos, Xor(old(src[spos..spos + c.size]), c.enc(old(ctrblk[..]))[..c.size]))
    ensures ctrblk[..] == Inc(old(ctrblk[..]))
  {
    hide Xor, Inc, Splice;
    ghost var d, x, k := dst[..], src[spos..spos + c.size], c.enc(ctrblk[..]);
    assert k[..c.size] == k;
    XorComm(x, k);
    if src == dst {
      XorPut(dst, dpos, c.enc(ctrblk[..]));
    } else {
      Put(dst, dpos, c.enc(ctrblk[..]));
      SpliceTwice(d, dpos, k, Xor(k, x));
      XorInto(dst, dpos, src, spos, c.size);
    }
    CryptoInc(ctrblk, true);
  }

  /** crypto_ctr_crypt_segment and crypto_ctr_crypt_inplace on nbytes from src to dst; what is short of a block is left. */
  method CtrBlocks(c: Cipher, ctrblk: array<bv8>, dst: array<bv8>, dpos: nat, src: array<bv8>, spos: nat, nbytes: nat,
                   ghost iv: Bytes, ghost d0: Bytes, ghost p: Bytes, at0: nat)
    returns (left: nat)
    requires c.Valid() && |iv| == ctrblk.Length == c.size <= nbytes && ctrblk != dst && ctrblk != src
    requires at0 + nbytes <= |p| && Placed(dst, dpos, src, spos, |p|) && Cbc.Whole(at0, c.size) == at0
    requires CtrDone(c, iv, d0, dpos, p, at0, dst[..], ctrblk[..]) && Ahead(src[..], spos, p, at0)
    modifies dst, ctrblk
    ensures left < c.size && left <= nbytes && Cbc.Whole(at0 + nbytes - left, c.size) == at0 + nbytes - left
    ensures CtrDone(c, iv, d0, dpos, p, at0 + nbytes - left, dst[..], ctrblk[..]) && Ahead(src[..], spos, p, at0 + nbytes - left)
  {
    hide CtrDone, Ahead, Xor, Inc, Splice, Cbc.Whole;
    left := nbytes;
    var at: nat := at0;
    while true
      invariant c.size <= left <= nbytes && at == at0 + nbytes - left && Cbc.Whole(at, c.size) == at
      invariant CtrDone(c, iv, d0, dpos, p, at, dst[..], ctrblk[..]) && Ahead(src[..], spos, p, at)
      decreases left
    {
      AheadNext(src[..], spos, p, at, c.size);
      CtrTurn(c, iv, d0, dpos, p, at, c.size, dst[..], ctrblk[..]);
      WholeOneMore(at, c.size, c.size);
      if src == dst {
        AheadSplice(src[..], spos, p, at, c.size, Xor(p[at..at + c.size], c.enc(ctrblk[..])[..c.size]));
      }
      CtrBlock(c, ctrblk, dst, dpos + at, src, spos + at);
      at, left := at + c.size, left - c.size;
      if left < c.size {
        break;
      }
    }
  }

  /** What skcipher_walk offers when t bytes are left: all of them, or at least a block. */
  ghost predicate IsWalk(walk: nat -> nat, size: nat) {
    forall t: nat :: 0 < t ==> 0 < walk(t) <= t && (walk(t) < t ==> size <= walk(t))
  }

  /** crypto_ctr_crypt and crypto_ctr_crypt_final: the text under the keystream, the counter moved on by the blocks begun. */
  method CtrCrypt(c: Cipher, ctrblk: array<bv8>, dst: array<bv8>, dpos: nat, src: array<bv8>, spos: nat, total: nat, walk: nat -> nat)
    requires c.Valid() && ctrblk.Length == c.size && ctrblk != dst && ctrblk != src
    requires IsWalk(walk, c.size) && Placed(dst, dpos, src, spos, total)
    modifies dst, ctrblk
    ensures dst[..] == Splice(old(dst[..]), dpos, Crypted(c, old(ctrblk[..]), old(src[spos..spos + total])))
    ensures ctrblk[..] == NextIv(c.size, old(ctrblk[..]), total)
  {
    hide CtrDone, Ahead, Xor, Inc, Splice, Crypted, NextIv;
    ghost var iv, d0, p := ctrblk[..], dst[..], src[spos..spos + total];
    var at: nat := 0;
    CtrStart(c, iv, d0, dpos, src[..], spos, p);
    var nbytes: nat := if total == 0 then 0 else walk(total);
    while nbytes >= c.size
      invariant at <= total && Cbc.Whole(at, c.size) == at && nbytes == if at == total then 0 else walk(total - at)
      invariant CtrDone(c, iv, d0, dpos, p, at, dst[..], ctrblk[..]) && Ahead(src[..], spos, p, at)
      decreases total - at
    {
      var left := CtrBlocks(c, ctrblk, dst, dpos, src, spos, nbytes, iv, d0, p, at);
      at := at + nbytes - left;
      nbytes := if at == total then 0 else walk(total - at);
    }
    if nbytes > 0 {
      AheadNext(src[..], spos, p, at, nbytes);
      CtrTurn(c, iv, d0, dpos, p, at, nbytes, dst[..], ctrblk[..]);
      var keystream := c.enc(ctrblk[..]);
      XorComm(src[spos + at..spos + at + nbytes], keystream[..nbytes]);
      Put(dst, dpos + at, Xor(keystream[..nbytes], src[spos + at..spos + at + nbytes]));
      CryptoInc(ctrblk, true);
      at := at + nbytes;
    }
    CtrEnd(c, iv, d0, dpos, p, dst[..], ctrblk[..]);
  }
}
