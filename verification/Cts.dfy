/**
 Ciphertext stealing on top of CBC.  The reference is the form of section 8 of RFC 2040, as
 used by RFC 3962: pad the last block with zeros, encrypt with CBC, exchange the last two
 blocks and cut the last one to the length of what was left over.
 */
module Cts {
  import opened Bytes
  import opened Cbc

  /** rounddown(n - 1, size): where the last, possibly partial, block of n bytes starts. */
  function LastStart(n: nat, size: nat): (o: nat)
    requires 0 < size <= n
    ensures o < n <= o + size && Whole(o, size) == o
  {
    WholeWhole(n - 1, size);
    Whole(n - 1, size)
  }

  /** The ciphertext of p. */
  function Stolen(c: Cipher, iv: Bytes, p: Bytes): (r: Bytes)
    requires c.Valid() && |iv| == c.size <= |p|
    ensures |r| == |p|
  {
    var o := LastStart(|p|, c.size);
    if o == 0 then
      WholeOne(|p|, c.size);
      Encrypted(c, iv, p)
    else
      WholePlus(o, c.size, c.size);
      WholeOne(c.size, c.size);
      WholeAtLeast(o, c.size);
      var q := Encrypted(c, iv, p + Zeros(o + c.size - |p|));
      q[..o - c.size] + q[o..] + q[o - c.size..o][..|p| - o]
  }

  /** The plaintext of q: put the stolen bytes back, undo the exchange, and decrypt with CBC. */
  function Restored(c: Cipher, iv: Bytes, q: Bytes): (r: Bytes)
    requires c.Valid() && |iv| == c.size <= |q|
    ensures |r| == |q|
  {
    var o := LastStart(|q|, c.size);
    if o == 0 then
      WholeOne(|q|, c.size);
      Decrypted(c, iv, q)
    else
      WholePlus(o, c.size, c.size);
      WholeOne(c.size, c.size);
      WholeAtLeast(o, c.size);
      var last := q[o - c.size..o];
      var e := q[o..] + c.dec(last)[|q| - o..];
      Decrypted(c, iv, q[..o - c.size] + e + last)[..|q|]
  }

  lemma WholeOne(n: nat, size: nat)
    requires 0 < size <= n
    ensures LastStart(n, size) == 0 ==> n == size
    ensures n == size ==> Whole(n, size) == n && LastStart(n, size) == 0
  {
  }

  lemma WholeAtLeast(n: nat, size: nat)
    requires 0 < size && Whole(n, size) == n
    ensures n == 0 || size <= n
  {
  }

  /** The last two blocks of the padded message, x.0 and x.1, and its ciphertext before the exchange. */
  lemma Pieces(c: Cipher, iv: Bytes, p: Bytes) returns (x: Bytes, a: Bytes, b: Bytes)
    requires c.Valid() && |iv| == c.size < |p|
    ensures var o := LastStart(|p|, c.size);
            && c.size <= o && |x| == o - c.size && |a| == |b| == c.size
            && x + a == Encrypted(c, iv, p[..o]) && a == Chain(c.size, iv, x + a)
            && b == c.enc(Xor(p[o..] + Zeros(o + c.size - |p|), a))
            && x + a + b == Encrypted(c, iv, p + Zeros(o + c.size - |p|))
            && Stolen(c, iv, p) == x + b + a[..|p| - o]
  {
    hide Xor, Encrypted, Chain;
    var o := LastStart(|p|, c.size);
    WholeOne(|p|, c.size);
    WholeAtLeast(o, c.size);
    var z, w := Zeros(o + c.size - |p|), p[o..] + Zeros(o + c.size - |p|);
    WholeLess(o, c.size);
    var y := p[..o];
    EncryptedSnoc(c, iv, y[..o - c.size], y[o - c.size..]);
    assert y[..o - c.size] + y[o - c.size..] == y;
    x := Encrypted(c, iv, y[..o - c.size]);
    a := Encrypted(c, iv, y)[o - c.size..];
    assert x + a == Encrypted(c, iv, y);
    EncryptedSnoc(c, iv, y, w);
    assert y + w == p + z;
    b := c.enc(Xor(w, a));
    var q := Encrypted(c, iv, p + z);
    assert q == x + a + b;
    LastTwo(x, a, b);
  }

  lemma LastTwo(x: Bytes, a: Bytes, b: Bytes)
    ensures var q := x + a + b; var i := |x| + |a|;
            q[..|x|] == x && q[|x|..i] == a && q[i..] == b
  {
  }

  lemma WholeLess(n: nat, size: nat)
    requires 0 < size <= n && Whole(n, size) == n
    ensures Whole(n - size, size) == n - size
  {
  }

  /** What decryption makes of the blocks encryption leaves: the missing bytes come back. */
  lemma Unsteal(c: Cipher, a: Bytes, t: Bytes)
    requires c.Invertible() && |a| == c.size && |t| <= c.size
    ensures var d := c.dec(c.enc(Xor(t + Zeros(c.size - |t|), a)));
            |d| == c.size && a[..|t|] + d[|t|..] == a && Xor(d[..|t|], a[..|t|]) == t
  {
    hide Xor, Zeros;
    var z := Zeros(c.size - |t|);
    var a1, a2 := a[..|t|], a[|t|..];
    assert a == a1 + a2;
    XorConcat(t, a1, z, a2);
    XorZeros(a2);
    XorCancel(t, a1);
    var d := Xor(t, a1) + a2;
    assert d[|t|..] == a2 && d[..|t|] == Xor(t, a1);
  }

  /** Decryption of a ciphertext given in pieces. */
  lemma RestoredPieces(c: Cipher, iv: Bytes, x: Bytes, b: Bytes, t: Bytes)
    requires c.Valid() && |iv| == |b| == c.size && 0 < |t| <= c.size && Whole(|x|, c.size) == |x|
    ensures var q := x + b + t; var e := t + c.dec(b)[|t|..];
            && Whole(|x + e + b|, c.size) == |x + e + b|
            && Restored(c, iv, q) == Decrypted(c, iv, x + e + b)[..|q|]
  {
    hide Decrypted;
    var q, e := x + b + t, t + c.dec(b)[|t|..];
    LastStartOf(|x|, |t|, c.size);
    var o := |x| + c.size;
    assert q[o - c.size..o] == b && q[o..] == t && q[..o - c.size] == x;
    WholePlus(o, c.size, c.size);
  }

  lemma LastStartOf(n: nat, t: nat, size: nat)
    requires 0 < t <= size && Whole(n, size) == n
    ensures LastStart(n + size + t, size) == n + size && Whole(n + size, size) == n + size
  {
    WholePlus(n, size, size);
    WholePlus(n + size, t - 1, size);
  }

  /** Decryption undoes encryption for every length of at least a block. */
  lemma StolenRoundTrip(c: Cipher, iv: Bytes, p: Bytes)
    requires c.Invertible() && |iv| == c.size <= |p|
    ensures Restored(c, iv, Stolen(c, iv, p)) == p
  {
    hide Xor, Encrypted, Decrypted, Chain, Stolen, Restored, Whole, LastStart, Zeros;
    if |p| == c.size {
      OneBlockRoundTrip(c, iv, p);
    } else {
      var o := LastStart(|p|, c.size);
      var x, a, b := Pieces(c, iv, p);
      WholeLess(o, c.size);
      RestoredBack(c, iv, p, x, a, b, p[o..], Zeros(o + c.size - |p|));
    }
  }

  /** Decryption of the pieces that encryption of p left, the last of them cut to the length of t. */
  lemma RestoredBack(c: Cipher, iv: Bytes, p: Bytes, x: Bytes, a: Bytes, b: Bytes, t: Bytes, z: Bytes)
    requires c.Invertible() && |iv| == |a| == |b| == c.size && 0 < |t| && z == Zeros(|z|) && |t| + |z| == c.size
    requires Whole(|x|, c.size) == |x| && |p| == |x| + c.size + |t|
    requires b == c.enc(Xor(t + z, a)) && x + a + b == Encrypted(c, iv, p + z)
    ensures Restored(c, iv, x + b + a[..|t|]) == p
  {
    hide Xor, Encrypted, Decrypted, Restored, Whole, Zeros;
    var t' := a[..|t|];
    RestoredPieces(c, iv, x, b, t');
    Unsteal(c, a, t);
    assert t' + c.dec(b)[|t'|..] == a;
    RoundTrip(c, iv, p + z);
    PaddedBack(p, z);
  }

  lemma PaddedBack(p: Bytes, z: Bytes)
    ensures (p + z)[..|p + z|] == p + z && (p + z)[..|p|] == p
  {
  }

  lemma OneBlockRoundTrip(c: Cipher, iv: Bytes, p: Bytes)
    requires c.Invertible() && |iv| == c.size == |p|
    ensures Restored(c, iv, Stolen(c, iv, p)) == p
  {
    hide Xor, Encrypted, Decrypted;
    WholeOne(|p|, c.size);
    RoundTrip(c, iv, p);
  }

  /** When the length is a multiple of the block size, CTS is CBC with its last two blocks exchanged. */
  lemma StolenOfWholeBlocks(c: Cipher, iv: Bytes, p: Bytes)
    requires c.Valid() && |iv| == c.size < |p| && Whole(|p|, c.size) == |p|
    ensures var q := Encrypted(c, iv, p); var n := |p|;
            2 * c.size <= n && Stolen(c, iv, p) == q[..n - 2 * c.size] + q[n - c.size..] + q[n - 2 * c.size..n - c.size]
  {
    hide Xor, Encrypted, Chain, Stolen, Whole, LastStart;
    var o := LastStart(|p|, c.size);
    LastStartWhole(|p|, c.size);
    var x, a, b := Pieces(c, iv, p);
    NoPadding(p, a);
    var q, n := Encrypted(c, iv, p), |p|;
    assert q == x + a + b;
    assert n == |x| + c.size + c.size;
    LastTwo(x, a, b);
  }

  lemma NoPadding(p: Bytes, a: Bytes)
    ensures p + Zeros(0) == p && a[..|a|] == a
  {
  }

  lemma LastStartWhole(n: nat, size: nat)
    requires 0 < size <= n && Whole(n, size) == n
    ensures LastStart(n, size) == n - size
  {
    WholeLess(n, size);
    WholePlus(n - size, size - 1, size);
  }

  // ----- the C functions -----

  /** Source and destination are two buffers or one; the IV is its own. */
  ghost predicate Buffers(c: Cipher, src: array<bv8>, dst: array<bv8>, nbytes: nat, iv: array<bv8>) {
    c.Valid() && nbytes <= src.Length && nbytes <= dst.Length && iv.Length == c.size && iv != src && iv != dst
  }

  /** The destination after cts_cbc_encrypt, step by step. */
  lemma TailSteps(d0: Bytes, x: Bytes, a: Bytes, w: Bytes, t: Bytes, b: Bytes)
    requires |a| == |w| == |b| && |x| + |a| + |t| <= |d0|
    ensures var o := |x|;
            var d1 := Splice(d0, 0, x + a);
            var d2 := Splice(d1, o, w + t);
            d1[o..o + |a|] == a && d2[o..o + |w|] == w && Splice(d2, o, b) == Splice(d0, 0, x + b + t)
  {
  }

  /** cts_cbc_encrypt: the second half of the work, after CBC on everything up to `offset`. */
  method CbcEncryptTail(c: Cipher, src: array<bv8>, dst: array<bv8>, nbytes: nat, offset: nat, iv: array<bv8>,
                        ghost d0: Bytes, ghost x: Bytes, ghost a: Bytes, ghost t: Bytes, ghost b: Bytes)
    requires Buffers(c, src, dst, nbytes, iv)
    requires c.size <= offset < nbytes <= offset + c.size && nbytes <= |d0|
    requires |x| == offset - c.size && |a| == |b| == c.size && t == src[offset..nbytes]
    requires dst[..] == Splice(d0, 0, x + a) && iv[..] == a
    requires b == c.enc(Xor(t + Zeros(c.size - |t|), a))
    modifies dst, iv
    ensures dst[..] == Splice(d0, 0, x + b + a[..|t|]) && iv[..] == b
  {
    hide Xor, Splice;
    var lastn := nbytes - offset;
    var d := new bv8[2 * c.size];
    ghost var w, j := t + Zeros(c.size - lastn), d[..];
    TailSteps(d0, x, a, w, a[..lastn], b);
    Scratch(j, a, t, c.size);
    Put(d, c.size, dst[offset - c.size..offset]);
    Put(d, 0, Zeros(c.size));
    Put(d, 0, src[offset..nbytes]);
    Put(dst, offset - c.size, d[..c.size + lastn]);
    EncryptOne(c, dst, offset - c.size, iv);
  }

  /** The scratch buffer d of cts_cbc_encrypt: the padded last block, then the stolen one. */
  lemma Scratch(j: Bytes, a: Bytes, t: Bytes, size: nat)
    requires |j| == 2 * size && |a| == size && |t| <= size
    ensures var d := Splice(Splice(Splice(j, size, a), 0, Zeros(size)), 0, t);
            d[..size + |t|] == t + Zeros(size - |t|) + a[..|t|]
  {
    assert Splice(j, size, a) == j[..size] + a;
    assert Splice(j[..size] + a, 0, Zeros(size)) == Zeros(size) + a;
    assert Zeros(size)[|t|..] == Zeros(size - |t|);
    assert Splice(Zeros(size) + a, 0, t) == t + Zeros(size - |t|) + a;
    assert (t + Zeros(size - |t|) + a)[..size + |t|] == t + Zeros(size - |t|) + a[..|t|];
  }

  lemma ChainOne(iv: Bytes, b: Bytes)
    requires |b| == |iv|
    ensures Chain(|iv|, iv, b) == b
  {
  }

  /** The child's request for a single block in place. */
  method EncryptOne(c: Cipher, buf: array<bv8>, at: nat, iv: array<bv8>)
    requires c.Valid() && at + c.size <= buf.Length && iv.Length == c.size && iv != buf
    modifies buf, iv
    ensures iv[..] == c.enc(Xor(old(buf[at..at + c.size]), old(iv[..])))
    ensures buf[..] == Splice(old(buf[..]), at, iv[..])
  {
    hide Xor, Splice, Encrypted, Chain, Whole;
    OneBlock(c, iv[..], buf[at..at + c.size]);
    ChainOne(iv[..], c.enc(Xor(buf[at..at + c.size], iv[..])));
    var rem := EncryptInplace(c, buf, at, c.size, iv);
  }

  /** crypto_cts_encrypt; the result is 0 or a negative error number. */
  method CtsEncrypt(c: Cipher, src: array<bv8>, dst: array<bv8>, nbytes: nat, iv: array<bv8>) returns (err: int)
    requires Buffers(c, src, dst, nbytes, iv)
    modifies dst, iv
    ensures err == if nbytes < c.size then -EINVAL else 0
    ensures nbytes < c.size ==> dst[..] == old(dst[..])
    ensures c.size <= nbytes ==> dst[..] == Splice(old(dst[..]), 0, Stolen(c, old(iv[..]), old(src[..nbytes])))
  {
    hide Xor, Splice, Stolen, Encrypted, Chain, Whole;
    if nbytes < c.size {
      return -EINVAL;
    }
    ghost var iv0, p, d0 := iv[..], src[..nbytes], dst[..];
    if nbytes == c.size {
      assert Stolen(c, iv0, p) == Encrypted(c, iv0, p) && Whole(nbytes, c.size) == nbytes by { StolenOneBlock(c, iv0, p); }
      err := Encrypt(c, src, dst, nbytes, iv, true);
      return;
    }
    WholeIsMod(nbytes - 1, c.size);
    var offset := (nbytes - 1) - (nbytes - 1) % c.size;
    ghost var x, a, b := Pieces(c, iv0, p);
    assert offset == LastStart(nbytes, c.size);
    assert p[..offset] == src[..offset];
    ghost var t := p[offset..];
    err := Encrypt(c, src, dst, offset, iv, true);
    assert err == 0;
    assert src[offset..nbytes] == t by {
      if src == dst {
        SpliceOutside(d0, 0, x + a, offset, nbytes - offset);
        assert d0[offset..nbytes] == t;
      }
    }
    CbcEncryptTail(c, src, dst, nbytes, offset, iv, d0, x, a, t, b);
  }

  lemma StolenOneBlock(c: Cipher, iv: Bytes, p: Bytes)
    requires c.Valid() && |iv| == c.size == |p|
    ensures Whole(|p|, c.size) == |p|
    ensures Stolen(c, iv, p) == Encrypted(c, iv, p) && Restored(c, iv, p) == Decrypted(c, iv, p)
  {
    WholeOne(|p|, c.size);
  }

  /** The scratch buffer d of cts_cbc_decrypt after its first three steps. */
  lemma FirstScratch(j: Bytes, m: Bytes, prev: Bytes, y: Bytes, size: nat)
    requires |j| == 2 * size && |m| == |prev| == |y| == size && y == Xor(m, prev)
    ensures var d1 := Splice(j, size, m);
            var d2 := Splice(d1, size, Xor(d1[size..size + size], prev[0..size]));
            Splice(d2, 0, Zeros(size)) == Zeros(size) + y
  {
    hide Xor;
    assert Splice(j, size, m) == j[..size] + m;
    assert (j[..size] + m)[size..size + size] == m && prev[0..size] == prev;
    assert Splice(j[..size] + m, size, y) == j[..size] + y;
  }

  /** And after the last three. */
  lemma LastScratch(y: Bytes, t: Bytes, size: nat)
    requires |y| == size && 0 < |t| <= size
    ensures var L := |t|;
            var d4 := Splice(Zeros(size) + y, 0, t);
            var d5 := Splice(d4, size, Xor(d4[size..size + L], d4[0..L]));
            var d6 := Splice(d5, L, d5[size + L..2 * size]);
            d6[..size + L] == t + y[L..] + Xor(y[..L], t)
  {
    hide Xor, Splice;
    var L := |t|;
    var z0, y1, y2 := Zeros(size - L), y[..L], y[L..];
    ScratchFour(t, z0, y);
    assert Zeros(size)[L..] == z0;
    ScratchFive(t, z0, y1, y2, Xor(y1, t));
    assert y == y1 + y2;
    ScratchSix(t, z0, Xor(y1, t), y2);
  }

  lemma ScratchFour(t: Bytes, z0: Bytes, y: Bytes)
    ensures Splice(Zeros(|t| + |z0|) + y, 0, t) == t + Zeros(|t| + |z0|)[|t|..] + y
  {
  }

  lemma ScratchFive(t: Bytes, z0: Bytes, y1: Bytes, y2: Bytes, z: Bytes)
    requires |y1| == |z| == |t|
    ensures var d := t + z0 + (y1 + y2); var n := |t| + |z0|;
            d[n..n + |t|] == y1 && d[0..|t|] == t && Splice(d, n, z) == t + z0 + (z + y2)
  {
    var d := t + z0 + (y1 + y2);
    var n := |t| + |z0|;
    assert d[..n] == t + z0 && d[n + |t|..] == y2;
  }

  lemma ScratchSix(t: Bytes, z0: Bytes, z: Bytes, y2: Bytes)
    requires |z0| == |y2| && |t| == |z|
    ensures var d := t + z0 + (z + y2); var n := |t| + |z0|;
            d[n + |t|..2 * n] == y2 && Splice(d, |t|, y2)[..n + |t|] == t + y2 + z
  {
    var d := t + z0 + (z + y2);
    var n := |t| + |z0|;
    assert d[..|t|] == t && d[n..] == z + y2;
    assert Splice(d, |t|, y2) == t + y2 + (z + y2);
  }

  lemma DecryptScratch(j: Bytes, m: Bytes, prev: Bytes, y: Bytes, t: Bytes, size: nat)
    requires |j| == 2 * size && |m| == |prev| == |y| == size && 0 < |t| <= size && y == Xor(m, prev)
    ensures var L := |t|;
            var d1 := Splice(j, size, m);
            var d2 := Splice(d1, size, Xor(d1[size..size + size], prev[0..size]));
            var d3 := Splice(d2, 0, Zeros(size));
            var d4 := Splice(d3, 0, t);
            var d5 := Splice(d4, size, Xor(d4[size..size + L], d4[0..L]));
            var d6 := Splice(d5, L, d5[size + L..2 * size]);
            d6[..size + L] == t + y[L..] + Xor(y[..L], t)
  {
    hide Xor, Splice, Zeros;
    FirstScratch(j, m, prev, y, size);
    LastScratch(y, t, size);
  }

  /** crypto_cts_decrypt, with cts_cbc_decrypt as its second half. */
  method CtsDecrypt(c: Cipher, src: array<bv8>, dst: array<bv8>, nbytes: nat, iv: array<bv8>) returns (err: int)
    requires Buffers(c, src, dst, nbytes, iv)
    modifies dst, iv
    ensures err == if nbytes < c.size then -EINVAL else 0
    ensures nbytes < c.size ==> dst[..] == old(dst[..])
    ensures c.size <= nbytes ==> dst[..] == Splice(old(dst[..]), 0, Restored(c, old(iv[..]), old(src[..nbytes])))
  {
    hide Xor, Splice, Restored, Stolen, Decrypted, Chain, Whole;
    if nbytes < c.size {
      return -EINVAL;
    }
    ghost var iv0, q, d0 := iv[..], src[..nbytes], dst[..];
    if nbytes == c.size {
      StolenOneBlock(c, iv0, q);
      err := Decrypt(c, src, dst, nbytes, iv, true);
      return;
    }
    WholeIsMod(nbytes - 1, c.size);
    var offset := (nbytes - 1) - (nbytes - 1) % c.size;
    assert offset == LastStart(nbytes, c.size);
    ghost var x, m, v, t := DecryptPieces(c, iv0, q);
    assert q[..offset] == src[..offset] && q[..offset - c.size] == src[..offset - c.size];
    var space := SaveSpace(src, offset, c.size, iv);
    err := Decrypt(c, src, dst, offset, iv, true);
    assert err == 0;
    TailKept(d0, x + m, q, offset);
    assert src[offset..nbytes] == t;
    CbcDecryptTail(c, src, dst, nbytes, offset, space, d0, x, m, t);
  }

  /** The last block is still unread in the source when everything before it has been written. */
  lemma TailKept(d0: Bytes, s: Bytes, q: Bytes, offset: nat)
    requires |s| == offset <= |q| <= |d0|
    ensures d0[..|q|] == q ==> Splice(d0, 0, s)[offset..|q|] == q[offset..]
  {
    SpliceOutside(d0, 0, s, offset, |q| - offset);
    assert d0[..|q|][offset..] == d0[offset..|q|];
  }

  /** The chaining value of the last full block, saved before anything is overwritten. */
  method SaveSpace(src: array<bv8>, offset: nat, size: nat, iv: array<bv8>) returns (space: array<bv8>)
    requires 0 < size == iv.Length && size <= offset <= src.Length && Whole(offset, size) == offset
    ensures fresh(space) && space.Length == size && space[..] == Chain(size, iv[..], src[..offset - size])
  {
    hide Splice, Chain, Whole;
    space := new bv8[size];
    ghost var j := space[..];
    SpaceIsChain(iv[..], src[..], offset, size);
    assert src[..][..offset - size] == src[..offset - size];
    if offset <= size {
      SpliceAll(j, iv[..]);
      Put(space, 0, iv[..]);
    } else {
      SpliceAll(j, src[offset - 2 * size..offset - size]);
      Put(space, 0, src[offset - 2 * size..offset - size]);
    }
  }

  /** What the decryption steps work on, and what they are to leave. */
  lemma DecryptPieces(c: Cipher, iv: Bytes, q: Bytes) returns (x: Bytes, m: Bytes, v: Bytes, t: Bytes)
    requires c.Valid() && |iv| == c.size < |q|
    ensures var o := LastStart(|q|, c.size);
            && c.size <= o && Whole(o, c.size) == o && |x| == o - c.size && |m| == |v| == c.size
            && x + m == Decrypted(c, iv, q[..o]) && v == Chain(c.size, iv, q[..o - c.size]) && t == q[o..]
    ensures var y := Xor(m, v);
            Restored(c, iv, q) == x + Xor(c.dec(t + y[|t|..]), v) + Xor(y[..|t|], t)
  {
    hide Xor, Decrypted, Chain, Restored, Whole, LastStart;
    var o := LastStart(|q|, c.size);
    WholeOne(|q|, c.size);
    WholeAtLeast(o, c.size);
    WholeLess(o, c.size);
    var p, b := q[..o - c.size], q[o - c.size..o];
    x, v, t := Decrypted(c, iv, p), Chain(c.size, iv, p), q[o..];
    m := Xor(c.dec(b), v);
    DecryptedSnoc(c, iv, p, b);
    assert p + b == q[..o] && q == p + b + t;
    XorCancel(c.dec(b), v);
    RestoredPieces(c, iv, p, b, t);
    var e := t + c.dec(b)[|t|..];
    DecryptedSnoc(c, iv, p, e);
    DecryptedSnoc(c, iv, p + e, b);
    var z := Xor(c.dec(b), e);
    XorSlice(c.dec(b), e, 0, |t|);
    assert e[0..|t|] == t;
    assert (x + Xor(c.dec(e), v) + z)[..|q|] == x + Xor(c.dec(e), v) + z[0..|t|];
  }

  lemma SpaceIsChain(iv: Bytes, q: Bytes, o: nat, size: nat)
    requires 0 < size == |iv| && size <= o <= |q| && Whole(o, size) == o
    ensures o <= size ==> Chain(size, iv, q[..o - size]) == iv
    ensures size < o ==> 2 * size <= o && Chain(size, iv, q[..o - size]) == q[o - 2 * size..o - size]
  {
    WholeLess(o, size);
    WholeAtLeast(o - size, size);
  }

  /** The child's request for a single block in place. */
  method DecryptOne(c: Cipher, buf: array<bv8>, at: nat, iv: array<bv8>)
    requires c.Valid() && at + c.size <= buf.Length && iv.Length == c.size && iv != buf
    modifies buf, iv
    ensures buf[..] == Splice(old(buf[..]), at, Xor(c.dec(old(buf[at..at + c.size])), old(iv[..])))
  {
    hide Xor, Splice, Decrypted, Chain, Whole;
    OneBlock(c, iv[..], buf[at..at + c.size]);
    var rem := DecryptInplace(c, buf, at, c.size, iv);
  }

  /** cts_cbc_decrypt: the second half of the work, after CBC on everything up to `offset`. */
  method CbcDecryptTail(c: Cipher, src: array<bv8>, dst: array<bv8>, nbytes: nat, offset: nat, space: array<bv8>,
                        ghost d0: Bytes, ghost x: Bytes, ghost m: Bytes, ghost t: Bytes)
    requires c.Valid() && nbytes <= src.Length && nbytes <= dst.Length && space.Length == c.size && space != src && space != dst
    requires c.size <= offset < nbytes <= offset + c.size && nbytes <= |d0|
    requires |x| == offset - c.size && |m| == c.size && t == src[offset..nbytes]
    requires dst[..] == Splice(d0, 0, x + m)
    modifies dst, space
    ensures var y := Xor(m, old(space[..]));
            dst[..] == Splice(d0, 0, x + Xor(c.dec(t + y[|t|..]), old(space[..])) + Xor(y[..|t|], t))
  {
    hide Xor, Splice;
    var lastn := nbytes - offset;
    var d := new bv8[2 * c.size];
    ghost var prev, y, j := space[..], Xor(m, space[..]), d[..];
    ghost var e, z := t + y[lastn..], Xor(y[..lastn], t);
    TailSteps(d0, x, m, e, z, Xor(c.dec(e), prev));
    DecryptScratch(j, m, prev, y, t, c.size);
    Put(d, c.size, dst[offset - c.size..offset]);
    XorInto(d, c.size, space, 0, c.size);
    Put(d, 0, Zeros(c.size));
    Put(d, 0, src[offset..nbytes]);
    XorInto(d, c.size, d, 0, lastn);
    Put(d, lastn, d[c.size + lastn..2 * c.size]);
    Put(dst, offset - c.size, d[..c.size + lastn]);
    DecryptOne(c, dst, offset - c.size, space);
  }
}
