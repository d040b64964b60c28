/** CBC-MAC as CCM uses it: bytes are XORed into the digest as they come, a short last block counts as padded with zeros. */
module CbcMac {
  import opened Bytes
  import Cbc
  import opened Cmac

  /** The zeros that fill n bytes up to whole blocks. */
  function Fill(n: nat, size: nat): (f: nat)
    requires 0 < size
    ensures f < size && Cbc.Whole(n + f, size) == n + f
  {
    var w := Cbc.Whole(n, size);
    FillIsWhole(n, size);
    if w == n then 0 else w + size - n
  }

  lemma {:induction false} FillIsWhole(n: nat, size: nat)
    requires 0 < size
    ensures Cbc.Whole(Cbc.Whole(n, size), size) == Cbc.Whole(n, size)
    ensures Cbc.Whole(Cbc.Whole(n, size) + size, size) == Cbc.Whole(n, size) + size
  {
    Cbc.WholeWhole(n, size);
    Cbc.WholePlus(Cbc.Whole(n, size), size, size);
  }

  function Mac(c: Cipher, m: Bytes): (r: Bytes)
    requires c.Valid()
    ensures |r| == c.size
  {
    Absorbed(c, Zeros(c.size), m + Zeros(Fill(|m|, c.size)))
  }

  /** On whole blocks, the MAC is the last block of the CBC encryption with a zero IV. */
  lemma {:induction false} AbsorbedIsLastBlock(c: Cipher, x: Bytes, m: Bytes)
    requires c.Valid() && |x| == c.size && Cbc.Whole(|m|, c.size) == |m|
    ensures Absorbed(c, x, m) == Cbc.Chain(c.size, x, Cbc.Encrypted(c, x, m))
    decreases |m|
  {
    hide Xor, Cbc.Chain;
    if |m| == 0 {
      Cbc.NothingYet(c, x);
    } else {
      var b, t := m[..c.size], m[c.size..];
      var y := c.enc(Xor(x, b));
      XorComm(x, b);
      Cbc.WholeIsSmall(|m|, c.size);
      AbsorbedIsLastBlock(c, y, t);
      Cbc.WholeIsSmall(|t|, c.size);
      Cbc.ChainCons(c.size, x, y, Cbc.Encrypted(c, y, t));
    }
  }

  /** Digest and count after m: its whole blocks are absorbed, the bytes after them only XORed in. */
  ghost predicate Digested(c: Cipher, m: Bytes, dg: Bytes, len: nat)
    requires c.Valid()
  {
    var o := |m| - len;
    && len < c.size && len <= |m| && Cbc.Whole(o, c.size) == o
    && dg == Xor(Absorbed(c, Zeros(c.size), m[..o]), m[o..] + Zeros(c.size - len))
  }

  lemma DigestedStart(c: Cipher)
    requires c.Valid()
    ensures Digested(c, [], Zeros(c.size), 0)
  {
    XorZeros(Zeros(c.size));
    assert [] + Zeros(c.size) == Zeros(c.size);
  }

  lemma XorPart(a: Bytes, part: Bytes, x: Bytes, size: nat)
    requires |a| == size && |part| + |x| <= size
    ensures var d := Xor(a, part + Zeros(size - |part|));
            Splice(d, |part|, Xor(d[|part|..|part| + |x|], x)) == Xor(a, part + x + Zeros(size - |part| - |x|))
  {
    hide XorByte;
    var d := Xor(a, part + Zeros(size - |part|));
    var n := |part|;
    var e := Splice(d, n, Xor(d[n..n + |x|], x));
    var f := Xor(a, part + x + Zeros(size - n - |x|));
    forall i | 0 <= i < size ensures e[i] == f[i] {
      if n <= i < n + |x| {
        XorByteSwap(a[i], 0, x[i - n]);
        XorByteZeroRight(a[i]);
      }
    }
  }

  lemma XorByteZeroRight(a: bv8)
    ensures XorByte(a, 0) == a
  {
  }

  /** One turn of the update loop: x fits into the block. */
  lemma MacTurn(c: Cipher, m: Bytes, dg: Bytes, len: nat, x: Bytes)
    requires c.Valid() && Digested(c, m, dg, len) && |dg| == c.size && len + |x| <= c.size
    ensures var d := Splice(dg, len, Xor(dg[len..len + |x|], x));
            if len + |x| == c.size then Digested(c, m + x, c.enc(d), 0) else Digested(c, m + x, d, len + |x|)
  {
    hide Xor, Absorbed, Cbc.Whole;
    var o := |m| - len;
    var a := Absorbed(c, Zeros(c.size), m[..o]);
    XorPart(a, m[o..], x, c.size);
    assert (m + x)[..o] == m[..o] && (m + x)[o..] == m[o..] + x;
    if len + |x| == c.size {
      assert m + x == m[..o] + (m[o..] + x);
      assert m[o..] + x + Zeros(0) == m[o..] + x;
      AbsorbedConcat(c, Zeros(c.size), m[..o], m[o..] + x);
      AbsorbedOne(c, a, m[o..] + x);
      Cbc.WholePlus(o, c.size, c.size);
      WholeOneBlock(c.size);
      var y := Absorbed(c, Zeros(c.size), m + x);
      assert (m + x)[..|m + x|] == m + x && (m + x)[|m + x|..] + Zeros(c.size) == Zeros(c.size);
      XorZeros(y);
    }
  }

  /** The last block, encrypted if anything was XORed in, is the MAC. */
  lemma MacEnd(c: Cipher, m: Bytes, dg: Bytes, len: nat)
    requires c.Valid() && Digested(c, m, dg, len)
    ensures Mac(c, m) == if len > 0 then c.enc(dg) else dg
  {
    hide Xor, Absorbed, Cbc.Whole;
    var o := |m| - len;
    FillOf(o, len, c.size);
    var z := m[o..] + Zeros(c.size - len);
    if len > 0 {
      assert m + Zeros(c.size - len) == m[..o] + z;
      AbsorbedConcat(c, Zeros(c.size), m[..o], z);
      AbsorbedOne(c, Absorbed(c, Zeros(c.size), m[..o]), z);
    } else {
      assert m + Zeros(0) == m && m[..o] == m && z == Zeros(c.size);
      XorZeros(Absorbed(c, Zeros(c.size), m));
    }
  }

  lemma FillOf(o: nat, len: nat, size: nat)
    requires len < size && Cbc.Whole(o, size) == o
    ensures Fill(o + len, size) == if len == 0 then 0 else size - len
  {
    Cbc.WholePlus(o, len, size);
  }

  class CbcMacDesc {
    const c: Cipher
    var len: nat
    const dg: array<bv8>
    /** Everything the digest has been fed. */
    ghost var msg: Bytes

    ghost predicate Valid()
      reads this, dg
    {
      c.Valid() && dg.Length == c.size && len < c.size && Digested(c, msg, dg[..], len)
    }

    /** crypto_cbcmac_digest_init */
    constructor (c: Cipher)
      requires c.Valid()
      ensures Valid() && msg == [] && this.c == c && fresh(dg)
    {
      hide Digested;
      this.c := c;
      len := 0;
      dg := new bv8[c.size];
      msg := [];
      new;
      DigestedStart(c);
      SpliceAll(dg[..], Zeros(c.size));
      Put(dg, 0, Zeros(c.size));
    }

    /** crypto_cbcmac_digest_update */
    method Update(p: Bytes)
      requires Valid()
      modifies this, dg
      ensures Valid() && msg == old(msg) + p
    {
      hide Xor, Splice, Digested;
      ghost var m := msg;
      var at := 0;
      assert m + p[..0] == m;
      while at < |p|
        invariant 0 <= at <= |p| && Valid() && msg == m + p[..at]
      {
        var l := if |p| - at < c.size - len then |p| - at else c.size - len;
        MacTurn(c, msg, dg[..], len, p[at..at + l]);
        assert msg + p[at..at + l] == m + p[..at + l];
        XorPut(dg, len, p[at..at + l]);
        msg := msg + p[at..at + l];
        len := len + l;
        at := at + l;
        if len == c.size {
          SpliceAll(dg[..], c.enc(dg[..]));
          Put(dg, 0, c.enc(dg[..]));
          len := 0;
        }
      }
      assert p[..at] == p;
    }

    /** crypto_cbcmac_digest_final */
    method Final() returns (out: Bytes)
      requires Valid()
      modifies dg
      ensures out == Mac(c, msg)
    {
      hide Splice, Digested;
      MacEnd(c, msg, dg[..], len);
      if len > 0 {
        SpliceAll(dg[..], c.enc(dg[..]));
        Put(dg, 0, c.enc(dg[..]));
      }
      out := dg[..];
    }
  }
}
