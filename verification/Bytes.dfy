/** Byte strings, XOR on them, and the block ciphers the modes are built on. */
module Bytes {

  type Bytes = seq<bv8>

  function XorByte(a: bv8, b: bv8): bv8 { a ^ b }

  /** What crypto_xor does to two buffers of the same length. */
  function Xor(a: Bytes, b: Bytes): (r: Bytes)
    requires |a| == |b|
    ensures |r| == |a|
  {
    seq(|a|, i requires 0 <= i < |a| => XorByte(a[i], b[i]))
  }

  function Zeros(n: nat): (r: Bytes)
    ensures |r| == n && forall i :: 0 <= i < n ==> r[i] == 0
  {
    seq(n, _ => 0)
  }

  /**
   A keyed block cipher; the key schedule and the permutation itself are unknown.
   `enc` and `dec` stand for crypto_cipher_encrypt_one and crypto_cipher_decrypt_one.
   */
  datatype Cipher = Cipher(size: nat, enc: Bytes -> Bytes, dec: Bytes -> Bytes) {
    ghost predicate Valid() {
      0 < size && forall b :: |b| == size ==> |enc(b)| == size && |dec(b)| == size
    }
    ghost predicate Invertible() {
      Valid() && forall b :: |b| == size ==> dec(enc(b)) == b
    }
  }

  lemma XorByteCancel(a: bv8, b: bv8)
    ensures XorByte(XorByte(a, b), b) == a
  {
  }

  lemma XorByteSwap(a: bv8, b: bv8, c: bv8)
    ensures XorByte(XorByte(a, b), c) == XorByte(XorByte(a, c), b)
    ensures XorByte(a, b) == XorByte(b, a)
  {
  }

  lemma XorCancel(a: Bytes, b: Bytes)
    requires |a| == |b|
    ensures Xor(Xor(a, b), b) == a
  {
    hide XorByte;
    forall i | 0 <= i < |a| ensures Xor(Xor(a, b), b)[i] == a[i] {
      XorByteCancel(a[i], b[i]);
    }
  }

  lemma XorSwap(a: Bytes, b: Bytes, c: Bytes)
    requires |a| == |b| == |c|
    ensures Xor(Xor(a, b), c) == Xor(Xor(a, c), b)
  {
    hide XorByte;
    forall i | 0 <= i < |a| ensures Xor(Xor(a, b), c)[i] == Xor(Xor(a, c), b)[i] {
      XorByteSwap(a[i], b[i], c[i]);
    }
  }

  lemma XorComm(a: Bytes, b: Bytes)
    requires |a| == |b|
    ensures Xor(a, b) == Xor(b, a)
  {
    hide XorByte;
    forall i | 0 <= i < |a| ensures Xor(a, b)[i] == Xor(b, a)[i] {
      XorByteSwap(a[i], b[i], 0);
    }
  }

  lemma XorAssoc(a: Bytes, b: Bytes, c: Bytes)
    requires |a| == |b| == |c|
    ensures Xor(Xor(a, b), c) == Xor(a, Xor(b, c))
  {
    hide Xor;
    XorComm(a, b);
    XorSwap(b, a, c);
    XorComm(Xor(b, c), a);
  }

  lemma XorConcat(a: Bytes, b: Bytes, c: Bytes, d: Bytes)
    requires |a| == |b| && |c| == |d|
    ensures Xor(a + c, b + d) == Xor(a, b) + Xor(c, d)
  {
    hide XorByte;
  }

  lemma XorSlice(a: Bytes, b: Bytes, i: nat, j: nat)
    requires |a| == |b| && i <= j <= |a|
    ensures Xor(a, b)[i..j] == Xor(a[i..j], b[i..j])
  {
    hide XorByte;
  }

  lemma XorZeros(a: Bytes)
    ensures Xor(a, Zeros(|a|)) == a
    ensures Xor(Zeros(|a|), a) == a
  {
    XorComm(a, Zeros(|a|));
    forall i | 0 <= i < |a| ensures Xor(a, Zeros(|a|))[i] == a[i] {
    }
  }

  lemma ConcatAssoc(a: Bytes, b: Bytes, c: Bytes)
    ensures (a + b) + c == a + (b + c)
  {
  }

  /** The string d with s written over it from position i on. */
  function Splice(d: Bytes, i: nat, s: Bytes): (r: Bytes)
    requires i + |s| <= |d|
    ensures |r| == |d|
  {
    d[..i] + s + d[i + |s|..]
  }

  lemma SpliceSnoc(d: Bytes, i: nat, s: Bytes, t: Bytes)
    requires i + |s| + |t| <= |d|
    ensures Splice(Splice(d, i, s), i + |s|, t) == Splice(d, i, s + t)
  {
  }

  /** crypto_xor: n bytes of src from j on are XORed into dst from i on. */
  method XorInto(dst: array<bv8>, i: nat, src: array<bv8>, j: nat, n: nat)
    requires i + n <= dst.Length && j + n <= src.Length
    requires dst != src || i + n <= j || j + n <= i
    modifies dst
    ensures dst[..] == Splice(old(dst[..]), i, Xor(old(dst[..])[i..i + n], old(src[..])[j..j + n]))
  {
    hide XorByte;
    forall k | 0 <= k < n {
      dst[i + k] := XorByte(dst[i + k], src[j + k]);
    }
  }

  /** memcpy of a byte string into dst from i on. */
  method Put(dst: array<bv8>, i: nat, s: Bytes)
    requires i + |s| <= dst.Length
    modifies dst
    ensures dst[..] == Splice(old(dst[..]), i, s)
  {
    forall k | 0 <= k < |s| {
      dst[i + k] := s[k];
    }
  }

  lemma SpliceAll(d: Bytes, s: Bytes)
    requires |d| == |s|
    ensures Splice(d, 0, s) == s && d[0..|d|] == d
  {
  }

  lemma SpliceTwice(d: Bytes, i: nat, s: Bytes, t: Bytes)
    requires i + |s| <= |d| && |s| == |t|
    ensures Splice(Splice(d, i, s), i, t) == Splice(d, i, t) && Splice(d, i, s)[i..i + |s|] == s
  {
  }

  lemma SpliceNone(d: Bytes, i: nat)
    requires i <= |d|
    ensures Splice(d, i, []) == d
  {
  }

  lemma SpliceOutside(d: Bytes, i: nat, s: Bytes, j: nat, n: nat)
    requires i + |s| <= |d| && j + n <= |d| && (j + n <= i || i + |s| <= j)
    ensures Splice(d, i, s)[j..j + n] == d[j..j + n]
  {
  }

  lemma SubSlice(d: Bytes, i: nat, j: nat, a: nat, b: nat)
    requires i <= j <= |d| && a <= b <= j - i
    ensures d[i..j][a..b] == d[i + a..i + b]
  {
    assert forall k | 0 <= k < b - a :: d[i..j][a..b][k] == d[i + a..i + b][k];
  }

  /** crypto_xor of a byte string into dst from i on. */
  method XorPut(dst: array<bv8>, i: nat, s: Bytes)
    requires i + |s| <= dst.Length
    modifies dst
    ensures dst[..] == Splice(old(dst[..]), i, Xor(old(dst[..])[i..i + |s|], s))
  {
    hide XorByte;
    forall k | 0 <= k < |s| {
      dst[i + k] := XorByte(dst[i + k], s[k]);
    }
  }

  // ----- reading a source while writing a destination that may be the same buffer -----

  lemma Cut(m: Bytes, at: nat, n: nat)
    requires at + n <= |m|
    ensures m[..at + n] == m[..at] + m[at..at + n] && |m[..at]| == at && |m[at..at + n]| == n
    ensures at + n == |m| ==> m[..at] + m[at..at + n] == m
  {
  }

  /** The bytes of m from `at` on are still those of the source buffer from spos + at on. */
  ghost predicate Ahead(b: Bytes, spos: nat, m: Bytes, at: nat) {
    spos + |m| <= |b| && at <= |m| && b[spos + at..spos + |m|] == m[at..]
  }

  lemma AheadNext(b: Bytes, spos: nat, m: Bytes, at: nat, n: nat)
    requires Ahead(b, spos, m, at) && at + n <= |m|
    ensures b[spos + at..spos + at + n] == m[at..at + n] && Ahead(b, spos, m, at + n)
  {
    SubSlice(b, spos + at, spos + |m|, 0, n);
    SubSlice(b, spos + at, spos + |m|, n, |m| - at);
    assert m[at..][0..n] == m[at..at + n] && m[at..][n..|m| - at] == m[at + n..];
  }

  /** Writing output over the input just read leaves the rest of it alone. */
  lemma AheadSplice(b: Bytes, spos: nat, m: Bytes, at: nat, n: nat, x: Bytes)
    requires Ahead(b, spos, m, at) && at + n <= |m| && |x| == n
    ensures Ahead(Splice(b, spos + at, x), spos, m, at + n)
  {
    AheadNext(b, spos, m, at, n);
    SpliceOutside(b, spos + at, x, spos + at + n, |m| - at - n);
  }

  /** Where a chunk may be read from and written to: in place, or between two buffers. */
  predicate Placed(dst: array<bv8>, dpos: nat, src: array<bv8>, spos: nat, size: nat) {
    spos + size <= src.Length && dpos + size <= dst.Length && (dst == src ==> dpos == spos)
  }

  // ----- data that lie in segments -----

  function Joined(segs: seq<Bytes>): Bytes {
    if |segs| == 0 then [] else segs[0] + Joined(segs[1..])
  }

  lemma JoinedNext(segs: seq<Bytes>, i: nat)
    requires i < |segs|
    ensures Joined(segs[i..]) == segs[i] + Joined(segs[i + 1..])
  {
    assert segs[i..][0] == segs[i] && segs[i..][1..] == segs[i + 1..];
  }

  /** What is left of the data after (the part used of) one segment. */
  lemma JoinedSplit(a: Bytes, x: Bytes, rest: Bytes, left: nat, m: Bytes)
    requires left <= |x + rest| && a + (x + rest)[..left] == m
    ensures |x| < left ==> a + x[..|x|] + rest[..left - |x|] == m
    ensures left <= |x| ==> a + x[..left] == m
  {
    if |x| < left {
      assert (x + rest)[..left] == x + rest[..left - |x|];
    } else {
      assert (x + rest)[..left] == x[..left];
    }
  }
}
