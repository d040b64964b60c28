/**
 CMAC fed in pieces of any size, against the one-shot algorithm of section 2.4 of RFC 4493, and
 the derivation of its two constants in GF(2^128) and GF(2^64).
 */
module Cmac {
  import opened Bytes
  import opened Cbc

  /** The CBC-MAC state after the whole blocks of m. */
  function Absorbed(c: Cipher, x: Bytes, m: Bytes): (r: Bytes)
    requires c.Valid() && |x| == c.size
    ensures |r| == c.size
    decreases |m|
  {
    if |m| < c.size then x else Absorbed(c, c.enc(Xor(x, m[..c.size])), m[c.size..])
  }

  /** Where the last block of m starts; it is never empty unless m is, and may be full. */
  function LastBlockAt(m: nat, size: nat): (o: nat)
    requires 0 < size
    ensures o <= m <= o + size && (0 < m ==> o < m)
  {
    if m == 0 then 0 else Whole(m - 1, size)
  }

  function Padded(t: Bytes, size: nat): (r: Bytes)
    requires |t| < size
    ensures |r| == size
  {
    t + [0x80] + Zeros(size - |t| - 1)
  }

  /** Steps 3 to 7 of section 2.4 of RFC 4493, on what precedes the last block and on the last block. */
  function Finish(c: Cipher, k1: Bytes, k2: Bytes, x: Bytes, t: Bytes): (r: Bytes)
    requires c.Valid() && |k1| == |k2| == |x| == c.size && |t| <= c.size
    ensures |r| == c.size
  {
    if |t| == c.size then c.enc(Xor(x, Xor(t, k1))) else c.enc(Xor(x, Xor(Padded(t, c.size), k2)))
  }

  /** AES-CMAC of a whole message, for any cipher. */
  function OneShot(c: Cipher, k1: Bytes, k2: Bytes, m: Bytes): (r: Bytes)
    requires c.Valid() && |k1| == |k2| == c.size
    ensures |r| == c.size
  {
    var o := LastBlockAt(|m|, c.size);
    Finish(c, k1, k2, Absorbed(c, Zeros(c.size), m[..o]), m[o..])
  }

  lemma {:induction false} AbsorbedConcat(c: Cipher, x: Bytes, a: Bytes, b: Bytes)
    requires c.Valid() && |x| == c.size && Whole(|a|, c.size) == |a|
    ensures Absorbed(c, x, a + b) == Absorbed(c, Absorbed(c, x, a), b)
    decreases |a|
  {
    hide Xor;
    if |a| == 0 {
      assert a + b == b;
    } else {
      AbsorbedConcat(c, c.enc(Xor(x, a[..c.size])), a[c.size..], b);
      assert (a + b)[..c.size] == a[..c.size] && (a + b)[c.size..] == a[c.size..] + b;
    }
  }

  lemma AbsorbedOne(c: Cipher, x: Bytes, b: Bytes)
    requires c.Valid() && |x| == |b| == c.size
    ensures Absorbed(c, x, b) == c.enc(Xor(x, b))
  {
    hide Xor;
    assert b[..c.size] == b && b[c.size..] == [];
  }

  /** The state of a hash in progress, as a function of the message m so far. */
  ghost predicate Holds(c: Cipher, m: Bytes, prev: Bytes, odds: Bytes, len: nat)
    requires c.Valid()
  {
    var o := LastBlockAt(|m|, c.size);
    && |prev| == c.size && |odds| == c.size && len == |m| - o
    && prev == Absorbed(c, Zeros(c.size), m[..o]) && odds[..len] == m[o..]
  }

  lemma StartOf(o: nat, t: nat, size: nat)
    requires 0 < t <= size && Whole(o, size) == o
    ensures LastBlockAt(o + t, size) == o && Whole(o + size, size) == o + size
  {
    WholePlus(o, t - 1, size);
    WholePlus(o, size, size);
  }

  lemma StartIsWhole(m: nat, size: nat)
    requires 0 < size
    ensures Whole(LastBlockAt(m, size), size) == LastBlockAt(m, size)
  {
    if 0 < m {
      WholeWhole(m - 1, size);
    }
  }

  /** New bytes that still fit the odd block. */
  lemma UpdateFits(c: Cipher, m: Bytes, prev: Bytes, odds: Bytes, len: nat, p: Bytes)
    requires c.Valid() && Holds(c, m, prev, odds, len) && len + |p| <= c.size
    ensures Holds(c, m + p, prev, Splice(odds, len, p), len + |p|)
  {
    hide Absorbed, Whole;
    if |p| == 0 {
      assert m + p == m && Splice(odds, len, p) == odds;
    } else {
      var o := LastBlockAt(|m|, c.size);
      StartIsWhole(|m|, c.size);
      StartOf(o, len + |p|, c.size);
      assert (m + p)[..o] == m[..o] && (m + p)[o..] == m[o..] + p;
      assert Splice(odds, len, p)[..len + |p|] == odds[..len] + p;
    }
  }

  /** New bytes that complete the odd block: it goes through the cipher, and later ones after it. */
  lemma UpdateFills(c: Cipher, m: Bytes, prev: Bytes, odds: Bytes, len: nat, p: Bytes)
    requires c.Valid() && Holds(c, m, prev, odds, len) && c.size < len + |p|
    ensures var n := c.size - len;
            var full := Splice(odds, len, p[..n]);
            var o := LastBlockAt(|m|, c.size) + c.size;
            && o == |m| + n && Whole(o, c.size) == o
            && c.enc(Xor(prev, full)) == Absorbed(c, Zeros(c.size), (m + p)[..o]) && (m + p)[o..] == p[n..]
  {
    hide Xor, Absorbed, Whole;
    var n, o := c.size - len, LastBlockAt(|m|, c.size);
    StartIsWhole(|m|, c.size);
    StartOf(o, c.size, c.size);
    assert (m + p)[..o + c.size] == m[..o] + (m[o..] + p[..n]);
    assert Splice(odds, len, p[..n]) == odds[..len] + p[..n];
    AbsorbedConcat(c, Zeros(c.size), m[..o], m[o..] + p[..n]);
    AbsorbedOne(c, prev, m[o..] + p[..n]);
  }

  class CmacDesc {
    const c: Cipher
    const k1: Bytes
    const k2: Bytes
    var len: nat
    const odds: array<bv8>
    const prev: array<bv8>
    /** Everything the hash has been fed. */
    ghost var msg: Bytes

    ghost predicate Valid()
      reads this, odds, prev
    {
      c.Valid() && |k1| == |k2| == odds.Length == prev.Length == c.size && len <= c.size && odds != prev && Holds(c, msg, prev[..], odds[..], len)
    }

    /** crypto_cmac_digest_init */
    constructor (c: Cipher, k1: Bytes, k2: Bytes)
      requires c.Valid() && |k1| == |k2| == c.size
      ensures Valid() && msg == [] && this.c == c && this.k1 == k1 && this.k2 == k2 && fresh(odds) && fresh(prev)
    {
      this.c, this.k1, this.k2 := c, k1, k2;
      len := 0;
      odds := new bv8[c.size];
      prev := new bv8[c.size];
      msg := [];
      new;
      forall i | 0 <= i < prev.Length {
        prev[i] := 0;
      }
      assert prev[..] == Zeros(c.size);
    }

    /** crypto_cmac_digest_update: the last block is always withheld. */
    method Update(p: Bytes)
      requires Valid()
      modifies this, odds, prev
      ensures Valid() && msg == old(msg) + p
    {
      hide Xor, Absorbed, Splice, Holds, LastBlockAt;
      ghost var m := msg;
      msg := msg + p;
      if len + |p| <= c.size {
        UpdateFits(c, m, prev[..], odds[..], len, p);
        Put(odds, len, p);
        len := len + |p|;
        return;
      }
      UpdateFills(c, m, prev[..], odds[..], len, p);
      var at: nat := c.size - len;
      Put(odds, len, p[..at]);
      Cipherment(odds[..]);
      len := 0;
      at := WholeBlocks(p, at, m);
      ghost var o := odds[..];
      PieceOf(m, p, at, 0);
      Surplus(c, msg, |m| + at, prev[..], o);
      Put(odds, 0, p[at..]);
      len := |p| - at;
    }

    /** The loop of crypto_cmac_digest_update, from byte `start` of p on; m is what was fed before p. */
    method WholeBlocks(p: Bytes, start: nat, ghost m: Bytes) returns (at: nat)
      requires c.Valid() && prev.Length == c.size && start < |p| && Whole(|m| + start, c.size) == |m| + start
      requires prev[..] == Absorbed(c, Zeros(c.size), (m + p)[..|m| + start])
      modifies prev
      ensures start <= at < |p| <= at + c.size && Whole(|m| + at, c.size) == |m| + at
      ensures prev[..] == Absorbed(c, Zeros(c.size), (m + p)[..|m| + at])
    {
      hide Xor, Absorbed, Whole;
      at := start;
      while |p| - at > c.size
        invariant start <= at < |p| && Whole(|m| + at, c.size) == |m| + at
        invariant prev[..] == Absorbed(c, Zeros(c.size), (m + p)[..|m| + at])
      {
        MoreAbsorbed(c, m + p, |m| + at);
        PieceOf(m, p, at, c.size);
        Cipherment(p[at..at + c.size]);
        at := at + c.size;
      }
    }

    /** crypto_xor(prev, s, bs); crypto_cipher_encrypt_one(tfm, prev, prev) */
    method Cipherment(s: Bytes)
      requires c.Valid() && prev.Length == c.size == |s|
      modifies prev
      ensures prev[..] == c.enc(Xor(old(prev[..]), s))
    {
      hide Xor, Splice;
      ghost var x := prev[..];
      XorAll(s);
      SpliceAll(prev[..], c.enc(prev[..]));
      Put(prev, 0, c.enc(prev[..]));
    }

    /** crypto_xor(prev, s, bs) */
    method XorAll(s: Bytes)
      requires prev.Length == |s|
      modifies prev
      ensures prev[..] == Xor(old(prev[..]), s)
    {
      hide Xor, Splice;
      SpliceAll(prev[..], Xor(prev[..], s));
      XorPut(prev, 0, s);
    }

    /** crypto_cmac_digest_final; the descriptor is used up. */
    method Final() returns (out: Bytes)
      requires Valid()
      modifies odds, prev
      ensures out == OneShot(c, k1, k2, msg)
    {
      hide Xor, Absorbed, Splice;
      ghost var m, o, x := msg, odds[..], prev[..];
      ghost var t := o[..len];
      var k := k1;
      if len != c.size {
        odds[len] := 0x80;
        forall i | len < i < c.size {
          odds[i] := 0;
        }
        assert odds[..] == Padded(t, c.size);
        k := k2;
      } else {
        assert odds[..] == t;
      }
      assert prev[..] == x;
      ghost var b := odds[..];
      XorAll(odds[..]);
      XorAll(k);
      XorAssoc(x, b, k);
      out := c.enc(prev[..]);
    }
  }

  lemma PieceOf(m: Bytes, p: Bytes, at: nat, n: nat)
    requires at + n <= |p|
    ensures (m + p)[|m| + at..|m| + at + n] == p[at..at + n] && (m + p)[|m| + at..] == p[at..]
  {
  }

  lemma MoreAbsorbed(c: Cipher, m: Bytes, o: nat)
    requires c.Valid() && o + c.size <= |m| && Whole(o, c.size) == o
    ensures Whole(o + c.size, c.size) == o + c.size
    ensures Absorbed(c, Zeros(c.size), m[..o + c.size]) == c.enc(Xor(Absorbed(c, Zeros(c.size), m[..o]), m[o..o + c.size]))
  {
    hide Xor, Absorbed, Whole;
    assert m[..o + c.size] == m[..o] + m[o..o + c.size];
    AbsorbedConcat(c, Zeros(c.size), m[..o], m[o..o + c.size]);
    AbsorbedOne(c, Absorbed(c, Zeros(c.size), m[..o]), m[o..o + c.size]);
    WholePlus(o, c.size, c.size);
    WholeOneBlock(c.size);
  }

  lemma WholeOneBlock(size: nat)
    requires 0 < size
    ensures Whole(size, size) == size
  {
  }

  lemma Surplus(c: Cipher, m: Bytes, o: nat, prev: Bytes, odds: Bytes)
    requires c.Valid() && o < |m| <= o + c.size && Whole(o, c.size) == o
    requires |prev| == |odds| == c.size && prev == Absorbed(c, Zeros(c.size), m[..o])
    ensures Holds(c, m, prev, Splice(odds, 0, m[o..]), |m| - o)
  {
    hide Absorbed, Whole;
    StartOf(o, |m| - o, c.size);
  }
}
