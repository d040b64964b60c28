/**
 Cipher block chaining: the four loops of the C code, which chain through a separate buffer or
 in place (backwards when decrypting), against the recursive definition of the mode.
 */
module Cbc {
  import opened Bytes
  import Arith

  /** The whole blocks in n bytes, in bytes; the loops leave the rest alone. */
  function Whole(n: nat, size: nat): (w: nat)
    requires 0 < size
    ensures w <= n < w + size
  {
    if n < size then 0 else size + Whole(n - size, size)
  }

  function Encrypted(c: Cipher, iv: Bytes, p: Bytes): (r: Bytes)
    requires c.Valid() && |iv| == c.size
    ensures |r| == Whole(|p|, c.size)
    decreases |p|
  {
    if |p| < c.size then []
    else
      var b := c.enc(Xor(p[..c.size], iv));
      b + Encrypted(c, b, p[c.size..])
  }

  function Decrypted(c: Cipher, iv: Bytes, q: Bytes): (r: Bytes)
    requires c.Valid() && |iv| == c.size
    ensures |r| == Whole(|q|, c.size)
    decreases |q|
  {
    if |q| < c.size then []
    else Xor(c.dec(q[..c.size]), iv) + Decrypted(c, q[..c.size], q[c.size..])
  }

  /** The chaining value after ciphertext q: its last block, or iv when there is none. */
  function Chain(size: nat, iv: Bytes, q: Bytes): (r: Bytes)
    requires |iv| == size
    ensures |r| == size
  {
    if |q| < size then iv else q[|q| - size..]
  }

  /** As `nbytes - (nbytes & (bsize - 1))`, since block sizes are powers of two, and rounddown(). */
  lemma {:induction false} WholeIsMod(n: nat, size: nat)
    requires 0 < size
    ensures Whole(n, size) == n - n % size
  {
    if size <= n {
      WholeIsMod(n - size, size);
      Arith.ModMinus(n, size);
    }
  }

  // Both functions on a block in front of some bytes.

  lemma EncryptedCons(c: Cipher, iv: Bytes, b: Bytes, p: Bytes)
    requires c.Valid() && |iv| == |b| == c.size
    ensures Encrypted(c, iv, b + p) == c.enc(Xor(b, iv)) + Encrypted(c, c.enc(Xor(b, iv)), p)
    ensures Whole(|b + p|, c.size) == c.size + Whole(|p|, c.size)
  {
    hide Xor;
    assert (b + p)[..c.size] == b && (b + p)[c.size..] == p;
  }

  lemma DecryptedCons(c: Cipher, iv: Bytes, b: Bytes, q: Bytes)
    requires c.Valid() && |iv| == |b| == c.size
    ensures Decrypted(c, iv, b + q) == Xor(c.dec(b), iv) + Decrypted(c, b, q)
    ensures Whole(|b + q|, c.size) == c.size + Whole(|q|, c.size)
  {
    hide Xor;
    assert (b + q)[..c.size] == b && (b + q)[c.size..] == q;
  }

  lemma NothingYet(c: Cipher, iv: Bytes)
    requires c.Valid() && |iv| == c.size
    ensures Encrypted(c, iv, []) == [] && Decrypted(c, iv, []) == [] && Chain(c.size, iv, []) == iv
  {
  }

  lemma ChainCons(size: nat, iv: Bytes, b: Bytes, t: Bytes)
    requires |iv| == |b| == size && (|t| == 0 || size <= |t|)
    ensures Chain(size, iv, b + t) == Chain(size, b, t)
  {
    if |t| == 0 {
      assert b + t == b;
    }
  }

  /** Decryption undoes encryption of whole blocks. */
  lemma {:induction false} RoundTrip(c: Cipher, iv: Bytes, p: Bytes)
    requires c.Invertible() && |iv| == c.size
    ensures Decrypted(c, iv, Encrypted(c, iv, p)) == p[..Whole(|p|, c.size)]
    decreases |p|
  {
    hide Xor, Encrypted, Decrypted;
    if c.size <= |p| {
      var a, t := p[..c.size], p[c.size..];
      var b := c.enc(Xor(a, iv));
      assert p == a + t;
      EncryptedCons(c, iv, a, t);
      DecryptedCons(c, iv, b, Encrypted(c, b, t));
      XorCancel(a, iv);
      RoundTrip(c, b, t);
    } else {
      RoundTripNone(c, iv, p);
    }
  }

  lemma RoundTripNone(c: Cipher, iv: Bytes, p: Bytes)
    requires c.Valid() && |iv| == c.size && |p| < c.size
    ensures Encrypted(c, iv, p) == [] && Decrypted(c, iv, p) == [] && Decrypted(c, iv, []) == []
  {
  }

  /** Encrypting in two parts, chaining through the last block of the first. */
  lemma {:induction false} EncryptedConcat(c: Cipher, iv: Bytes, p: Bytes, p': Bytes)
    requires c.Valid() && |iv| == c.size && Whole(|p|, c.size) == |p|
    ensures Encrypted(c, iv, p + p') == Encrypted(c, iv, p) + Encrypted(c, Chain(c.size, iv, Encrypted(c, iv, p)), p')
    decreases |p|
  {
    hide Xor, Encrypted, Chain;
    if |p| == 0 {
      NothingYet(c, iv);
      assert p == [] && p + p' == p';
    } else {
      var a, t := p[..c.size], p[c.size..];
      var b := c.enc(Xor(a, iv));
      assert p == a + t && p + p' == a + (t + p');
      EncryptedCons(c, iv, a, t);
      EncryptedCons(c, iv, a, t + p');
      EncryptedConcat(c, b, t, p');
      var e := Encrypted(c, b, t);
      ChainCons(c.size, iv, b, e);
      ConcatAssoc(b, e, Encrypted(c, Chain(c.size, b, e), p'));
    }
  }

  lemma {:induction false} DecryptedConcat(c: Cipher, iv: Bytes, q: Bytes, q': Bytes)
    requires c.Valid() && |iv| == c.size && Whole(|q|, c.size) == |q|
    ensures Decrypted(c, iv, q + q') == Decrypted(c, iv, q) + Decrypted(c, Chain(c.size, iv, q), q')
    decreases |q|
  {
    hide Xor, Decrypted, Chain;
    if |q| == 0 {
      NothingYet(c, iv);
      assert q == [] && q + q' == q';
    } else {
      var a, t := q[..c.size], q[c.size..];
      assert q == a + t && q + q' == a + (t + q');
      DecryptedCons(c, iv, a, t);
      DecryptedCons(c, iv, a, t + q');
      DecryptedConcat(c, a, t, q');
      ChainCons(c.size, iv, a, t);
      ConcatAssoc(Xor(c.dec(a), iv), Decrypted(c, a, t), Decrypted(c, Chain(c.size, a, t), q'));
    }
  }

  lemma OneBlock(c: Cipher, iv: Bytes, b: Bytes)
    requires c.Valid() && |iv| == |b| == c.size
    ensures Encrypted(c, iv, b) == c.enc(Xor(b, iv))
    ensures Decrypted(c, iv, b) == Xor(c.dec(b), iv)
  {
    hide Xor;
    assert b[..c.size] == b && b[c.size..] == [];
    assert Encrypted(c, c.enc(Xor(b, iv)), []) == [] && Decrypted(c, b, []) == [];
  }

  lemma {:induction false} WholePlus(n: nat, m: nat, size: nat)
    requires 0 < size && Whole(n, size) == n
    ensures Whole(n + m, size) == n + Whole(m, size)
  {
    if n != 0 {
      WholePlus(n - size, m, size);
    }
  }

  // ----- the loops -----

  /** One more block at the end of what is encrypted so far. */
  lemma EncryptedSnoc(c: Cipher, iv: Bytes, p: Bytes, b: Bytes)
    requires c.Valid() && |iv| == |b| == c.size && Whole(|p|, c.size) == |p|
    ensures Whole(|p + b|, c.size) == |p + b|
    ensures var e := Encrypted(c, iv, p); var x := c.enc(Xor(b, Chain(c.size, iv, e)));
            Encrypted(c, iv, p + b) == e + x && Chain(c.size, iv, e + x) == x
  {
    hide Xor;
    WholePlus(|p|, c.size, c.size);
    EncryptedConcat(c, iv, p, b);
    OneBlock(c, Chain(c.size, iv, Encrypted(c, iv, p)), b);
  }

  lemma DecryptedSnoc(c: Cipher, iv: Bytes, q: Bytes, b: Bytes)
    requires c.Valid() && |iv| == |b| == c.size && Whole(|q|, c.size) == |q|
    ensures Whole(|q + b|, c.size) == |q + b|
    ensures Decrypted(c, iv, q + b) == Decrypted(c, iv, q) + Xor(c.dec(b), Chain(c.size, iv, q))
    ensures Chain(c.size, iv, q + b) == b
  {
    hide Xor;
    WholePlus(|q|, c.size, c.size);
    DecryptedConcat(c, iv, q, b);
    OneBlock(c, Chain(c.size, iv, q), b);
  }

  lemma EncryptedTail(c: Cipher, iv: Bytes, p: Bytes, t: Bytes)
    requires c.Valid() && |iv| == c.size && Whole(|p|, c.size) == |p| && |t| < c.size
    ensures Encrypted(c, iv, p + t) == Encrypted(c, iv, p) && Decrypted(c, iv, p + t) == Decrypted(c, iv, p)
  {
    hide Encrypted, Decrypted, Chain;
    RoundTripNone(c, Chain(c.size, iv, Encrypted(c, iv, p)), t);
    RoundTripNone(c, Chain(c.size, iv, p), t);
    EncryptedConcat(c, iv, p, t);
    DecryptedConcat(c, iv, p, t);
  }

  /** One turn: the block is XORed into the IV, encrypted to the destination and copied back to the IV. */
  method EncryptBlock(c: Cipher, src: array<bv8>, dst: array<bv8>, done: nat, iv: array<bv8>, ghost iv0: Bytes, ghost d0: Bytes)
    requires c.Valid() && |iv0| == iv.Length == c.size && done + c.size <= src.Length && done + c.size <= dst.Length == |d0|
    requires src != dst && iv != src && iv != dst && Whole(done, c.size) == done
    requires dst[..] == Splice(d0, 0, Encrypted(c, iv0, src[..done])) && iv[..] == Chain(c.size, iv0, Encrypted(c, iv0, src[..done]))
    modifies dst, iv
    ensures Whole(done + c.size, c.size) == done + c.size
    ensures dst[..] == Splice(d0, 0, Encrypted(c, iv0, src[..done + c.size]))
    ensures iv[..] == Chain(c.size, iv0, Encrypted(c, iv0, src[..done + c.size]))
  {
    hide Xor, Encrypted, Chain, Splice, Whole;
    ghost var e, b, v := Encrypted(c, iv0, src[..done]), src[done..done + c.size], iv[..];
    EncryptedSnoc(c, iv0, src[..done], b);
    assert src[..done] + b == src[..done + c.size];
    XorInto(iv, 0, src, done, c.size);
    SpliceAll(v, Xor(v, b));
    XorComm(v, b);
    Put(dst, done, c.enc(iv[..]));
    ghost var x := c.enc(Xor(b, v));
    SpliceSnoc(d0, 0, e, x);
    SpliceTwice(Splice(d0, 0, e), done, x, x);
    Put(iv, 0, dst[done..done + c.size]);
    SpliceAll(Xor(b, v), x);
  }

  /** crypto_cbc_encrypt_segment. */
  method EncryptSegment(c: Cipher, src: array<bv8>, dst: array<bv8>, nbytes: nat, iv: array<bv8>) returns (rem: nat)
    requires c.Valid() && iv.Length == c.size && nbytes <= src.Length && nbytes <= dst.Length
    requires src != dst && iv != src && iv != dst
    modifies dst, iv
    ensures rem == nbytes - Whole(nbytes, c.size)
    ensures dst[..] == Splice(old(dst[..]), 0, Encrypted(c, old(iv[..]), src[..nbytes]))
    ensures iv[..] == Chain(c.size, old(iv[..]), Encrypted(c, old(iv[..]), src[..nbytes]))
  {
    hide Xor, Encrypted, Chain, Splice, Whole;
    ghost var iv0, d0, s := iv[..], dst[..], src[..];
    var done: nat, left: nat := 0, nbytes;
    NothingYet(c, iv0);
    SpliceNone(d0, 0);
    while left >= c.size
      invariant done + left == nbytes && Whole(done, c.size) == done
      invariant dst[..] == Splice(d0, 0, Encrypted(c, iv0, s[..done]))
      invariant iv[..] == Chain(c.size, iv0, Encrypted(c, iv0, s[..done]))
    {
      EncryptBlock(c, src, dst, done, iv, iv0, d0);
      done, left := done + c.size, left - c.size;
    }
    rem := left;
    LoopEnd(c, iv0, s[..nbytes], done);
    assert s[..nbytes][..done] == s[..done];
  }

  /** The loops stop when less than a block is left. */
  lemma LoopEnd(c: Cipher, iv: Bytes, p: Bytes, done: nat)
    requires c.Valid() && |iv| == c.size && done <= |p| < done + c.size && Whole(done, c.size) == done
    ensures Encrypted(c, iv, p) == Encrypted(c, iv, p[..done]) && Decrypted(c, iv, p) == Decrypted(c, iv, p[..done])
    ensures Whole(|p|, c.size) == done
  {
    hide Encrypted, Decrypted, Whole;
    EncryptedTail(c, iv, p[..done], p[done..]);
    assert p[..done] + p[done..] == p;
    WholePlus(done, |p| - done, c.size);
    WholeSmall(|p| - done, c.size);
  }

  lemma WholeSmall(n: nat, size: nat)
    requires n < size
    ensures Whole(n, size) == 0
  {
  }

  /** The first two lines of the loop of crypto_cbc_encrypt_inplace. */
  method EncryptInplaceStep(c: Cipher, buf: array<bv8>, at: nat, iv: array<bv8>, ivAt: nat)
    requires c.Valid() && at + c.size <= buf.Length && ivAt + c.size <= iv.Length
    requires buf != iv || ivAt + c.size <= at
    modifies buf
    ensures buf[..] == Splice(old(buf[..]), at, c.enc(Xor(old(buf[at..at + c.size]), old(iv[ivAt..ivAt + c.size]))))
  {
    hide Xor, Splice;
    ghost var d, x := buf[..], Xor(buf[at..at + c.size], iv[ivAt..ivAt + c.size]);
    XorInto(buf, at, iv, ivAt, c.size);
    SpliceTwice(d, at, x, c.enc(x));
    Put(buf, at, c.enc(buf[at..at + c.size]));
  }

  /** What one turn of that loop adds to the part of the buffer already encrypted. */
  lemma InplaceTurn(c: Cipher, iv: Bytes, d0: Bytes, off: nat, nbytes: nat, at: nat)
    requires c.Valid() && |iv| == c.size && off <= at && at + c.size <= off + nbytes <= |d0|
    requires Whole(at - off, c.size) == at - off
    ensures var p, n := d0[off..off + nbytes], at - off;
            var e := Encrypted(c, iv, p[..n]);
            var d := Splice(d0, off, e);
            var x := c.enc(Xor(d[at..at + c.size], Chain(c.size, iv, e)));
            var e' := Encrypted(c, iv, p[..n + c.size]);
            && Whole(n + c.size, c.size) == n + c.size
            && Splice(d, at, x) == Splice(d0, off, e') && Splice(d, at, x)[at..at + c.size] == x == Chain(c.size, iv, e')
  {
    hide Xor, Encrypted, Chain, Splice, Whole;
    var p, n := d0[off..off + nbytes], at - off;
    var e, b := Encrypted(c, iv, p[..n]), p[n..n + c.size];
    EncryptedSnoc(c, iv, p[..n], b);
    assert p[..n] + b == p[..n + c.size];
    SpliceOutside(d0, off, e, at, c.size);
    SubSlice(d0, off, off + nbytes, n, n + c.size);
    var x := c.enc(Xor(b, Chain(c.size, iv, e)));
    SpliceSnoc(d0, off, e, x);
    SpliceTwice(Splice(d0, off, e), at, x, b);
  }

  /** crypto_cbc_encrypt_inplace on the nbytes from off on; `iv` moves into the buffer itself. */
  method EncryptInplace(c: Cipher, buf: array<bv8>, off: nat, nbytes: nat, oiv: array<bv8>) returns (rem: nat)
    requires c.Valid() && oiv.Length == c.size && off + nbytes <= buf.Length && oiv != buf
    modifies buf, oiv
    ensures rem == nbytes - Whole(nbytes, c.size)
    ensures var e := Encrypted(c, old(oiv[..]), old(buf[off..off + nbytes]));
            buf[..] == Splice(old(buf[..]), off, e) && oiv[..] == Chain(c.size, old(oiv[..]), e)
  {
    hide Xor, Encrypted, Chain, Splice, Whole;
    ghost var iv0, d0, p := oiv[..], buf[..], buf[off..off + nbytes];
    rem := nbytes;
    NothingYet(c, iv0);
    SpliceNone(d0, off);
    WholeSmall(0, c.size);
    if nbytes < c.size {
      LoopEnd(c, iv0, p, 0);
      assert p[..0] == [];
      return;
    }
    var iv, ivAt, at := oiv, 0, off;
    while rem >= c.size
      invariant off <= at && at + rem == off + nbytes && Whole(at - off, c.size) == at - off
      invariant if at == off then iv == oiv && ivAt == 0 else iv == buf && ivAt + c.size == at && off <= ivAt
      invariant oiv[..] == iv0
      invariant buf[..] == Splice(d0, off, Encrypted(c, iv0, p[..at - off]))
      invariant iv[ivAt..ivAt + c.size] == Chain(c.size, iv0, Encrypted(c, iv0, p[..at - off]))
    {
      InplaceTurn(c, iv0, d0, off, nbytes, at);
      EncryptInplaceStep(c, buf, at, iv, ivAt);
      iv, ivAt := buf, at;
      at, rem := at + c.size, rem - c.size;
    }
    ghost var v := iv[ivAt..ivAt + c.size];
    Put(oiv, 0, iv[ivAt..ivAt + c.size]);
    SpliceAll(iv0, v);
    LoopEnd(c, iv0, p, at - off);
  }

  /** What one turn of the loop of crypto_cbc_decrypt_segment adds to the destination. */
  lemma DecryptTurn(c: Cipher, iv: Bytes, q: Bytes, d0: Bytes, at: nat)
    requires c.Valid() && |iv| == c.size && at + c.size <= |q| && at + c.size <= |d0| && Whole(at, c.size) == at
    ensures var d := Splice(d0, 0, Decrypted(c, iv, q[..at]));
            var b := q[at..at + c.size];
            && Whole(at + c.size, c.size) == at + c.size
            && Splice(d, at, Xor(c.dec(b), Chain(c.size, iv, q[..at]))) == Splice(d0, 0, Decrypted(c, iv, q[..at + c.size]))
            && Chain(c.size, iv, q[..at + c.size]) == b
  {
    hide Xor, Decrypted, Chain, Splice, Whole;
    var b := q[at..at + c.size];
    DecryptedSnoc(c, iv, q[..at], b);
    assert q[..at] + b == q[..at + c.size];
    SpliceSnoc(d0, 0, Decrypted(c, iv, q[..at]), Xor(c.dec(b), Chain(c.size, iv, q[..at])));
  }

  /** One turn of the loop: the block is decrypted into the destination and the chaining value XORed in. */
  method DecryptBlock(c: Cipher, src: array<bv8>, at: nat, dst: array<bv8>, iv: array<bv8>, ivAt: nat)
    requires c.Valid() && at + c.size <= src.Length && at + c.size <= dst.Length && ivAt + c.size <= iv.Length
    requires src != dst && iv != dst
    modifies dst
    ensures dst[..] == Splice(old(dst[..]), at, Xor(c.dec(src[at..at + c.size]), iv[ivAt..ivAt + c.size]))
  {
    hide Xor, Splice;
    ghost var d, y := dst[..], c.dec(src[at..at + c.size]);
    SpliceTwice(d, at, y, Xor(y, iv[ivAt..ivAt + c.size]));
    Put(dst, at, c.dec(src[at..at + c.size]));
    XorInto(dst, at, iv, ivAt, c.size);
  }

  /** crypto_cbc_decrypt_segment; `iv` moves along the ciphertext. */
  method DecryptSegment(c: Cipher, src: array<bv8>, dst: array<bv8>, nbytes: nat, oiv: array<bv8>) returns (rem: nat)
    requires c.Valid() && oiv.Length == c.size && nbytes <= src.Length && nbytes <= dst.Length
    requires src != dst && oiv != src && oiv != dst
    modifies dst, oiv
    ensures rem == nbytes - Whole(nbytes, c.size)
    ensures dst[..] == Splice(old(dst[..]), 0, Decrypted(c, old(oiv[..]), src[..nbytes]))
    ensures oiv[..] == Chain(c.size, old(oiv[..]), src[..nbytes - rem])
  {
    hide Xor, Decrypted, Chain, Splice, Whole;
    ghost var iv0, d0, s := oiv[..], dst[..], src[..nbytes];
    rem := nbytes;
    NothingYet(c, iv0);
    SpliceNone(d0, 0);
    WholeSmall(0, c.size);
    assert s[..0] == [];
    if nbytes < c.size {
      LoopEnd(c, iv0, s, 0);
      return;
    }
    var iv, ivAt, at: nat := oiv, 0, 0;
    while rem >= c.size
      invariant at + rem == nbytes && Whole(at, c.size) == at
      invariant if at == 0 then iv == oiv && ivAt == 0 else iv == src && ivAt + c.size == at && 0 <= ivAt
      invariant oiv[..] == iv0 && src[..nbytes] == s
      invariant dst[..] == Splice(d0, 0, Decrypted(c, iv0, s[..at]))
      invariant iv[ivAt..ivAt + c.size] == Chain(c.size, iv0, s[..at])
    {
      assert src[at..at + c.size] == s[at..at + c.size];
      DecryptTurn(c, iv0, s, d0, at);
      DecryptBlock(c, src, at, dst, iv, ivAt);
      iv, ivAt := src, at;
      at, rem := at + c.size, rem - c.size;
    }
    ghost var v := iv[ivAt..ivAt + c.size];
    Put(oiv, 0, iv[ivAt..ivAt + c.size]);
    SpliceAll(iv0, v);
    LoopEnd(c, iv0, s, at);
    assert s[..at] == src[..nbytes - rem];
  }

  /** The buffer while crypto_cbc_decrypt_inplace works backwards: blocks after `at` are done. */
  ghost function DoneAfter(c: Cipher, d0: Bytes, off: nat, end: nat, at: nat): Bytes
    requires c.Valid() && off <= at && at + c.size <= end <= |d0| && Whole(end - at, c.size) == end - at
  {
    WholeDown(end - at, c.size);
    Splice(d0, at + c.size, Decrypted(c, d0[at..at + c.size], d0[at + c.size..end]))
  }

  lemma WholeDown(n: nat, size: nat)
    requires 0 < size <= n
    ensures Whole(n, size) == size + Whole(n - size, size)
  {
  }

  /** The block at `at` finished with chaining block v in front of it. */
  lemma BackwardTurn(c: Cipher, d0: Bytes, off: nat, end: nat, at: nat, v: Bytes)
    requires c.Valid() && |v| == c.size && off <= at && at + c.size <= end <= |d0| && Whole(end - at, c.size) == end - at
    ensures var d := DoneAfter(c, d0, off, end, at);
            && d[at..at + c.size] == d0[at..at + c.size] && d[..at] == d0[..at]
            && Whole(end - (at + c.size), c.size) == end - (at + c.size)
            && Splice(d, at, Xor(c.dec(d0[at..at + c.size]), v)) == Splice(d0, at, Decrypted(c, v, d0[at..end]))
  {
    hide Xor, Decrypted, Whole;
    var b, t := d0[at..at + c.size], d0[at + c.size..end];
    WholeDown(end - at, c.size);
    DecryptedCons(c, v, b, t);
    assert d0[at..end] == b + t;
    var x, y := Xor(c.dec(b), v), Decrypted(c, b, t);
    assert Splice(Splice(d0, at + c.size, y), at, x) == Splice(d0, at, x + y);
    assert Splice(d0, at + c.size, y)[..at] == d0[..at];
    SpliceOutside(d0, at + c.size, y, at, c.size);
  }

  /** One turn of the backward loop: decrypt the block at `at`, then XOR in what precedes it. */
  lemma BackwardLoop(c: Cipher, iv: Bytes, d0: Bytes, off: nat, end: nat, at: nat)
    requires c.Valid() && |iv| == c.size && off <= at && at + c.size <= end <= |d0|
    requires Whole(end - at, c.size) == end - at && Whole(at - off, c.size) == at - off
    ensures var d := DoneAfter(c, d0, off, end, at);
            var y := c.dec(d[at..at + c.size]);
            var d' := Splice(d, at, y);
            && d'[at..at + c.size] == y
            && (at - off < c.size ==> at == off && Splice(d', at, Xor(y, iv)) == Splice(d0, off, Decrypted(c, iv, d0[off..end])))
            && (c.size <= at - off ==>
                && Whole(end - at + c.size, c.size) == end - at + c.size
                && Whole(at - c.size - off, c.size) == at - c.size - off
                && Splice(d', at, Xor(y, d'[at - c.size..at])) == DoneAfter(c, d0, off, end, at - c.size))
  {
    hide Xor, Decrypted, Splice, DoneAfter, Whole;
    WholeIsSmall(at - off, c.size);
    var d, b := DoneAfter(c, d0, off, end, at), d0[at..at + c.size];
    var y := c.dec(b);
    var v := if at == off then iv else PriorBlock(d0, off, at, c.size);
    BackwardTurn(c, d0, off, end, at, v);
    SpliceTwice(d, at, y, Xor(y, v));
    if at != off {
      BackwardKeeps(c, d0, off, end, at, Splice(d, at, y));
    }
  }

  lemma LastBlock(d0: Bytes, off: nat, end: nat, size: nat, iv: Bytes)
    requires off + size <= end <= |d0| && |iv| == size
    ensures Chain(size, iv, d0[off..end]) == d0[end - size..end]
  {
  }

  lemma WholePart(d: Bytes, off: nat, n: nat, w: nat)
    requires w <= n && off + n <= |d|
    ensures d[off..off + n][..w] == d[off..off + w]
  {
  }

  /** crypto_cbc_decrypt_inplace: from the last whole block back to the first. */
  method DecryptInplace(c: Cipher, buf: array<bv8>, off: nat, nbytes: nat, iv: array<bv8>) returns (rem: nat)
    requires c.Valid() && iv.Length == c.size && off + nbytes <= buf.Length && iv != buf
    modifies buf, iv
    ensures rem == nbytes - Whole(nbytes, c.size)
    ensures var q := old(buf[off..off + nbytes]);
            && buf[..] == Splice(old(buf[..]), off, Decrypted(c, old(iv[..]), q))
            && iv[..] == Chain(c.size, old(iv[..]), q[..nbytes - rem])
  {
    hide Xor, Decrypted, Chain, Splice, DoneAfter, Whole;
    ghost var iv0, d0, q := iv[..], buf[..], buf[off..off + nbytes];
    rem := nbytes;
    WholeIsMod(nbytes, c.size);
    if nbytes < c.size {
      NothingYet(c, iv0);
      SpliceNone(d0, off);
      LoopEnd(c, iv0, q, 0);
      assert q[..0] == [];
      return;
    }
    ghost var end := off + Whole(nbytes, c.size);
    WholeWhole(nbytes, c.size);
    WholeDown(nbytes, c.size);
    var at: nat := off + nbytes - nbytes % c.size - c.size;
    BackwardStart(c, d0, off, end, at);
    WholePart(d0, off, nbytes, end - off);
    var lastIv := buf[at..at + c.size];
    rem := BackwardBlocks(c, buf, off, nbytes, at, iv);
    Put(iv, 0, lastIv);
    SpliceAll(iv0, lastIv);
    LoopEnd(c, iv0, q, end - off);
    LastBlock(d0, off, end, c.size, iv0);
  }

  /** The loop of crypto_cbc_decrypt_inplace and the XOR after it. */
  method BackwardBlocks(c: Cipher, buf: array<bv8>, off: nat, nbytes: nat, last: nat, iv: array<bv8>) returns (rem: nat)
    requires c.Valid() && iv.Length == c.size && iv != buf
    requires off <= last && last + c.size <= off + nbytes <= buf.Length
    requires last + c.size == off + Whole(nbytes, c.size) && Whole(last - off, c.size) == last - off
    modifies buf
    ensures rem == off + nbytes - (last + c.size)
    ensures buf[..] == Splice(old(buf[..]), off, Decrypted(c, iv[..], old(buf[off..last + c.size])))
  {
    hide Xor, Decrypted, Chain, Splice, DoneAfter, Whole;
    ghost var iv0, d0, end := iv[..], buf[..], last + c.size;
    WholeWhole(nbytes, c.size);
    BackwardStart(c, d0, off, end, last);
    var at: nat := last;
    rem := nbytes;
    while true
      invariant off <= at && at + c.size <= end && rem == at - off + c.size + (off + nbytes - end)
      invariant Whole(end - at, c.size) == end - at && Whole(at - off, c.size) == at - off
      invariant buf[..] == DoneAfter(c, d0, off, end, at)
      decreases at
    {
      BackwardLoop(c, iv0, d0, off, end, at);
      Put(buf, at, c.dec(buf[at..at + c.size]));
      rem := rem - c.size;
      if rem < c.size {
        break;
      }
      XorInto(buf, at, buf, at - c.size, c.size);
      at := at - c.size;
    }
    assert iv0[0..c.size] == iv0;
    XorInto(buf, at, iv, 0, c.size);
  }

  lemma WholeIsSmall(n: nat, size: nat)
    requires 0 < size && Whole(n, size) == n
    ensures n < size ==> n == 0
    ensures size <= n ==> Whole(n - size, size) == n - size
  {
  }

  function PriorBlock(d: Bytes, off: nat, at: nat, size: nat): Bytes
    requires off <= at <= |d| && size <= at - off
  {
    d[at - size..at]
  }

  lemma {:induction false} WholeWhole(n: nat, size: nat)
    requires 0 < size
    ensures Whole(Whole(n, size), size) == Whole(n, size)
  {
    if size <= n {
      WholeWhole(n - size, size);
    }
  }

  lemma BackwardStart(c: Cipher, d0: Bytes, off: nat, end: nat, at: nat)
    requires c.Valid() && off <= at && at + c.size == end <= |d0|
    requires Whole(end - off, c.size) == end - off
    ensures Whole(end - at, c.size) == end - at && Whole(at - off, c.size) == at - off
    ensures DoneAfter(c, d0, off, end, at) == d0
  {
    hide Xor;
    WholeDown(end - off, c.size);
    assert d0[at + c.size..end] == [];
  }

  /** Decrypting a block in place leaves the block in front of it as it was. */
  lemma BackwardKeeps(c: Cipher, d0: Bytes, off: nat, end: nat, at: nat, d: Bytes)
    requires c.Valid() && off + c.size <= at && at + c.size <= end <= |d0| && Whole(end - at, c.size) == end - at
    requires d == Splice(DoneAfter(c, d0, off, end, at), at, c.dec(d0[at..at + c.size]))
    requires Whole(at - off, c.size) == at - off
    ensures d[at - c.size..at] == PriorBlock(d0, off, at, c.size)
    ensures Whole(end - (at - c.size), c.size) == end - (at - c.size)
    ensures Whole(at - c.size - off, c.size) == at - c.size - off
    ensures Splice(d0, at, Decrypted(c, PriorBlock(d0, off, at, c.size), d0[at..end])) == DoneAfter(c, d0, off, end, at - c.size)
  {
    hide Xor, Decrypted, Whole;
    WholeIsSmall(at - off, c.size);
    var prev, b := at - c.size, c.dec(d0[at..at + c.size]);
    SpliceOutside(DoneAfter(c, d0, off, end, at), at, b, prev, c.size);
    WholeDown(end - at, c.size);
    SpliceOutside(d0, at + c.size, Decrypted(c, d0[at..at + c.size], d0[at + c.size..end]), prev, c.size);
    WholePlus(end - at, c.size, c.size);
    WholeDown(c.size, c.size);
    WholeNone(c.size);
    assert prev + c.size == at;
  }

  lemma WholeNone(size: nat)
    requires 0 < size
    ensures Whole(0, size) == 0
  {
  }

  const EINVAL := 22

  /** crypto_cbc_encrypt: in place when source and destination are the same buffer. */
  method Encrypt(c: Cipher, src: array<bv8>, dst: array<bv8>, len: nat, iv: array<bv8>, final: bool) returns (err: int)
    requires c.Valid() && iv.Length == c.size && len <= src.Length && len <= dst.Length && iv != src && iv != dst
    modifies dst, iv
    ensures var e := Encrypted(c, old(iv[..]), old(src[..len]));
            && dst[..] == Splice(old(dst[..]), 0, e) && iv[..] == Chain(c.size, old(iv[..]), e)
    ensures err == if final && Whole(len, c.size) != len then -EINVAL else len - Whole(len, c.size)
  {
    hide Encrypted, Splice, Chain, Whole;
    var rem;
    assert src[0..0 + len] == src[..len];
    if src == dst {
      rem := EncryptInplace(c, dst, 0, len, iv);
    } else {
      rem := EncryptSegment(c, src, dst, len, iv);
    }
    err := if rem != 0 && final then -EINVAL else rem;
  }

  /** crypto_cbc_decrypt. */
  method Decrypt(c: Cipher, src: array<bv8>, dst: array<bv8>, len: nat, iv: array<bv8>, final: bool) returns (err: int)
    requires c.Valid() && iv.Length == c.size && len <= src.Length && len <= dst.Length && iv != src && iv != dst
    modifies dst, iv
    ensures var q := old(src[..len]);
            && dst[..] == Splice(old(dst[..]), 0, Decrypted(c, old(iv[..]), q))
            && iv[..] == Chain(c.size, old(iv[..]), q[..Whole(len, c.size)])
    ensures err == if final && Whole(len, c.size) != len then -EINVAL else len - Whole(len, c.size)
  {
    hide Decrypted, Splice, Chain, Whole;
    var rem;
    ghost var q := src[..len];
    assert src[0..0 + len] == q && q[..Whole(len, c.size)] == src[..Whole(len, c.size)];
    if src == dst {
      rem := DecryptInplace(c, dst, 0, len, iv);
    } else {
      rem := DecryptSegment(c, src, dst, len, iv);
    }
    err := if rem != 0 && final then -EINVAL else rem;
  }
}
