/**
 The CTR_DRBG of drbg.c: V is kept one ahead, output comes in scratchpad chunks, and the derived
 additional input waits in df_data between the two updates of one generate call.
 */
module Drbg {
  import opened Bytes
  import opened Numbers
  import opened DrbgSpec
  import Cbc
  import Cmac
  import CbcMac
  import Ctr

  const DRBG_OUTSCRATCHLEN := 256
  const INT_MAX := 0x7fff_ffff
  const TWO32 := 0x1_0000_0000
  const EINVAL := 22

  // ----- bytes that are joined from a list -----

  lemma {:induction false} JoinedConcat(a: seq<Bytes>, b: seq<Bytes>)
    ensures Joined(a + b) == Joined(a) + Joined(b)
  {
    if |a| == 0 {
      assert a + b == b;
    } else {
      assert (a + b)[0] == a[0] && (a + b)[1..] == a[1..] + b;
      JoinedConcat(a[1..], b);
    }
  }

  lemma JoinedFour(x: Bytes, y: Bytes, mid: seq<Bytes>, z: Bytes)
    ensures Joined([x, y] + mid + [z]) == x + (y + Joined(mid) + z)
  {
    JoinedOne(z);
    JoinedConcat(mid, [z]);
    assert [x, y] + mid + [z] == [x] + ([y] + (mid + [z]));
    JoinedOne(x);
    JoinedOne(y);
    JoinedConcat([x], [y] + (mid + [z]));
    JoinedConcat([y], mid + [z]);
  }

  lemma JoinedOne(x: Bytes)
    ensures Joined([x]) == x
  {
    assert [x][1..] == [];
  }

  // ----- BCC, one byte at a time -----

  /** The block `out` with `cnt` bytes of it used, after the data m; a full block is not yet encrypted. */
  ghost predicate BccState(c: Cipher, m: Bytes, out: Bytes, cnt: nat)
    requires c.Valid()
  {
    && |out| == c.size && cnt <= c.size
    && (if cnt == c.size then CbcMac.Digested(c, m, c.enc(out), 0) else CbcMac.Digested(c, m, out, cnt))
  }

  lemma BccByte(c: Cipher, m: Bytes, out: Bytes, cnt: nat, b: bv8)
    requires c.Valid() && BccState(c, m, out, cnt) && cnt < c.size
    ensures BccState(c, m + [b], out[cnt := XorByte(out[cnt], b)], cnt + 1)
  {
    hide CbcMac.Digested, XorByte;
    CbcMac.MacTurn(c, m, out, cnt, [b]);
    assert Splice(out, cnt, Xor(out[cnt..cnt + 1], [b])) == out[cnt := XorByte(out[cnt], b)];
  }

  /** out[cnt] ^= *pos, the block encrypted first if it is full. */
  method BccPut(c: Cipher, temp: array<bv8>, off: nat, cnt0: nat, b: bv8, ghost m: Bytes) returns (cnt: nat)
    requires c.Valid() && off + c.size <= temp.Length && BccState(c, m, temp[off..off + c.size], cnt0)
    modifies temp
    ensures BccState(c, m + [b], temp[off..off + c.size], cnt) && 0 < cnt
    ensures temp[..off] == old(temp[..off]) && temp[off + c.size..] == old(temp[off + c.size..])
  {
    hide CbcMac.Digested, XorByte, Splice;
    cnt := cnt0;
    ghost var d := temp[..];
    if cnt == c.size {
      cnt := 0;
      var y := c.enc(temp[off..off + c.size]);
      SpliceTwice(d, off, y, y);
      SpliceEnds(d, off, y);
      Put(temp, off, y);
    }
    ghost var out := temp[off..off + c.size];
    BccByte(c, m, out, cnt, b);
    temp[off + cnt] := XorByte(temp[off + cnt], b);
    assert temp[off..off + c.size] == out[cnt := XorByte(out[cnt], b)];
    cnt := cnt + 1;
  }

  lemma SpliceEnds(d: Bytes, i: nat, s: Bytes)
    requires i + |s| <= |d|
    ensures Splice(d, i, s)[..i] == d[..i] && Splice(d, i, s)[i + |s|..] == d[i + |s|..]
  {
  }

  /** drbg_ctr_bcc into temp from off on, where zeros stand. */
  method DrbgCtrBcc(c: Cipher, temp: array<bv8>, off: nat, ins: seq<Bytes>)
    requires c.Valid() && off + c.size <= temp.Length && temp[off..off + c.size] == Zeros(c.size)
    modifies temp
    ensures temp[..] == Splice(old(temp[..]), off, CbcMac.Mac(c, Joined(ins)))
  {
    hide BccState, CbcMac.Mac, Splice;
    ghost var d, m: Bytes := temp[..], [];
    var cnt, i: nat := 0, 0;
    BccStart(c);
    assert ins[0..] == ins;
    while i < |ins|
      invariant i <= |ins| && BccState(c, m, temp[off..off + c.size], cnt) && m + Joined(ins[i..]) == Joined(ins)
      invariant temp[..off] == d[..off] && temp[off + c.size..] == d[off + c.size..]
    {
      var pos, len := 0, |ins[i]|;
      JoinedNext(ins, i);
      ghost var m0 := m;
      assert m0 + ins[i][..0] == m0;
      while len > 0
        invariant 0 <= pos && 0 <= len && pos + len == |ins[i]| && m == m0 + ins[i][..pos]
        invariant BccState(c, m, temp[off..off + c.size], cnt)
        invariant temp[..off] == d[..off] && temp[off + c.size..] == d[off + c.size..]
      {
        cnt := BccPut(c, temp, off, cnt, ins[i][pos], m);
        assert m + [ins[i][pos]] == m0 + ins[i][..pos + 1];
        m := m + [ins[i][pos]];
        pos, len := pos + 1, len - 1;
      }
      assert ins[i][..pos] == ins[i];
      i := i + 1;
    }
    assert m == Joined(ins);
    BccFinish(c, temp, off, cnt, m, d);
  }

  /** A block that has been begun is encrypted. */
  method BccFinish(c: Cipher, temp: array<bv8>, off: nat, cnt: nat, ghost m: Bytes, ghost d: Bytes)
    requires c.Valid() && off + c.size <= temp.Length == |d| && BccState(c, m, temp[off..off + c.size], cnt)
    requires temp[..off] == d[..off] && temp[off + c.size..] == d[off + c.size..]
    modifies temp
    ensures temp[..] == Splice(d, off, CbcMac.Mac(c, m))
  {
    hide BccState, CbcMac.Mac, Splice;
    ghost var out := temp[off..off + c.size];
    BccEnd(c, m, out, cnt);
    if cnt > 0 {
      SpliceTwice(temp[..], off, c.enc(out), c.enc(out));
      SpliceEnds(temp[..], off, c.enc(out));
      Put(temp, off, c.enc(temp[off..off + c.size]));
    }
    SpliceFrom(d, temp[..], off, CbcMac.Mac(c, m));
  }

  lemma BccStart(c: Cipher)
    requires c.Valid()
    ensures BccState(c, [], Zeros(c.size), 0)
  {
    hide CbcMac.Digested;
    CbcMac.DigestedStart(c);
  }

  lemma BccEnd(c: Cipher, m: Bytes, out: Bytes, cnt: nat)
    requires c.Valid() && BccState(c, m, out, cnt)
    ensures |out| == c.size && CbcMac.Mac(c, m) == if cnt > 0 then c.enc(out) else out
  {
    hide CbcMac.Digested, CbcMac.Mac;
    if cnt == c.size {
      CbcMac.MacEnd(c, m, c.enc(out), 0);
    } else {
      CbcMac.MacEnd(c, m, out, cnt);
    }
  }

  lemma SpliceFrom(d: Bytes, e: Bytes, i: nat, s: Bytes)
    requires |d| == |e| && i + |s| <= |d| && e[..i] == d[..i] && e[i..i + |s|] == s && e[i + |s|..] == d[i + |s|..]
    ensures e == Splice(d, i, s)
  {
    assert e == e[..i] + e[i..i + |s|] + e[i + |s|..];
  }

  // ----- the derivation function -----

  lemma FillOf(n: nat)
    ensures CbcMac.Fill(n, BLOCKLEN) == if n % BLOCKLEN == 0 then 0 else BLOCKLEN - n % BLOCKLEN
  {
    Cbc.WholeIsMod(n, BLOCKLEN);
  }

  /** The list of step 4 of section 10.4.2 joins to IV and S, and BCC pads nothing more. */
  lemma BccInput(c: Cipher, iv: Bytes, n: nat, seeds: seq<Bytes>, pad: Bytes)
    requires c.Valid() && c.size == BLOCKLEN == |iv|
    requires pad == [0x80] + Zeros(CbcMac.Fill(|Joined(seeds)| + 9, BLOCKLEN))
    ensures CbcMac.Mac(c, Joined([iv, BePut(|Joined(seeds)|, 4) + BePut(n, 4)] + seeds + [pad])) == Bcc(c, iv + DfInput(n, Joined(seeds)))
  {
    hide BePut, CbcMac.Fill, Cmac.Absorbed;
    var x, l := Joined(seeds), BePut(|Joined(seeds)|, 4) + BePut(n, 4);
    JoinedFour(iv, l, seeds, pad);
    var z := Zeros(CbcMac.Fill(|x| + 9, BLOCKLEN));
    assert l + x + pad == l + x + [0x80] + z;
    assert |l + x + [0x80]| == |x| + 9;
    var s := DfInput(n, x);
    NoFill(|x| + 9);
    assert iv + s + Zeros(0) == iv + s;
  }

  lemma NoFill(n: nat)
    ensures CbcMac.Fill(BLOCKLEN + (n + CbcMac.Fill(n, BLOCKLEN)), BLOCKLEN) == 0
  {
    hide CbcMac.Fill;
    FillOf(n);
    FillOf(BLOCKLEN + (n + CbcMac.Fill(n, BLOCKLEN)));
  }

  lemma DfTempTurn(c: Cipher, s: Bytes, i: nat, t: Bytes)
    requires c.Valid() && c.size == BLOCKLEN && BLOCKLEN * i + BLOCKLEN <= |t|
    ensures var d := Splice(t, 0, DfTemp(c, s, i));
            Splice(d, BLOCKLEN * i, Bcc(c, Iv(i) + s)) == Splice(t, 0, DfTemp(c, s, i + 1))
  {
    hide DfTemp, Bcc, Splice;
    DfTempNext(c, s, i);
    SpliceSnoc(t, 0, DfTemp(c, s, i), Bcc(c, Iv(i) + s));
  }

  lemma DfTempNext(c: Cipher, s: Bytes, i: nat)
    requires c.Valid() && c.size == BLOCKLEN
    ensures DfTemp(c, s, i + 1) == DfTemp(c, s, i) + Bcc(c, Iv(i) + s)
  {
    hide Bcc;
  }

  /** What is still zero ahead of the blocks written. */
  lemma ZerosAhead(n: nat, x: Bytes)
    requires |x| + BLOCKLEN <= n
    ensures Splice(Zeros(n), 0, x)[|x|..|x| + BLOCKLEN] == Zeros(BLOCKLEN)
  {
  }

  /** Steps 7 to 10 of section 10.4.2. */
  method DfFill(c: Cipher, keylen: nat, n: nat, temp: array<bv8>, iv: array<bv8>, seeds: seq<Bytes>, pad: Bytes)
    requires c.Valid() && c.size == BLOCKLEN == iv.Length && IsKeyLen(keylen) && iv != temp
    requires temp.Length == keylen + 2 * BLOCKLEN && temp[..] == Zeros(temp.Length) && iv[..] == Zeros(BLOCKLEN)
    requires pad == [0x80] + Zeros(CbcMac.Fill(|Joined(seeds)| + 9, BLOCKLEN))
    modifies temp, iv
    ensures temp[..] == Splice(Zeros(temp.Length), 0, DfTemp(c, DfInput(n, Joined(seeds)), DfBlocks(keylen)))
  {
    hide DfTemp, DfInput, Splice, Bcc, BePut, CbcMac.Mac;
    ghost var s := DfInput(n, Joined(seeds));
    var templen: nat, i: nat := 0, 0;
    DfTempStart(c, s, temp.Length);
    while templen < keylen + BLOCKLEN
      invariant templen == BLOCKLEN * i && i <= DfBlocks(keylen)
      invariant temp[..] == Splice(Zeros(temp.Length), 0, DfTemp(c, s, i))
      invariant iv[4..] == Zeros(BLOCKLEN - 4)
    {
      IvBytes(iv[..], i);
      Put(iv, 0, BePut(i, 4));
      BccInput(c, iv[..], n, seeds, pad);
      ZerosAhead(temp.Length, DfTemp(c, s, i));
      DfTempTurn(c, s, i, Zeros(temp.Length));
      DrbgCtrBcc(c, temp, templen, [iv[..], BePut(|Joined(seeds)|, 4) + BePut(n, 4)] + seeds + [pad]);
      i := i + 1;
      templen := templen + BLOCKLEN;
    }
  }

  lemma DfTempStart(c: Cipher, s: Bytes, n: nat)
    requires c.Valid() && c.size == BLOCKLEN
    ensures Zeros(n) == Splice(Zeros(n), 0, DfTemp(c, s, 0)) && (4 <= BLOCKLEN ==> Zeros(BLOCKLEN)[4..] == Zeros(BLOCKLEN - 4))
  {
    assert DfTemp(c, s, 0) == [];
    SpliceNone(Zeros(n), 0);
  }

  lemma IvBytes(iv: Bytes, i: nat)
    requires |iv| == BLOCKLEN && iv[4..] == Zeros(BLOCKLEN - 4)
    ensures Splice(iv, 0, BePut(i, 4)) == Iv(i) && Iv(i)[4..] == Zeros(BLOCKLEN - 4)
  {
    hide BePut;
  }

  /** Steps 13 to 15: X is encrypted in place, and copied out as far as it is wanted. */
  method DfExtract(c: Cipher, temp: array<bv8>, keylen: nat, dfData: array<bv8>, n: nat)
    requires c.Valid() && c.size == BLOCKLEN && keylen + BLOCKLEN <= temp.Length && n <= dfData.Length && temp != dfData
    modifies temp, dfData
    ensures dfData[..] == Splice(old(dfData[..]), 0, DfOut(c, old(temp[keylen..keylen + BLOCKLEN]), n))
  {
    hide Splice, DfOut;
    ghost var d, x0 := dfData[..], temp[keylen..keylen + BLOCKLEN];
    ghost var done: Bytes := [];
    var generated: nat := 0;
    SpliceNone(d, 0);
    while generated < n
      invariant generated <= n && |done| == generated && dfData[..] == Splice(d, 0, done)
      invariant done + DfOut(c, temp[keylen..keylen + BLOCKLEN], n - generated) == DfOut(c, x0, n)
    {
      ghost var x := temp[keylen..keylen + BLOCKLEN];
      ghost var y := c.enc(x);
      SpliceTwice(temp[..], keylen, y, y);
      Put(temp, keylen, c.enc(temp[keylen..keylen + BLOCKLEN]));
      var blocklen: nat := if BLOCKLEN < n - generated then BLOCKLEN else n - generated;
      PrefixAt(temp[..], keylen, y, blocklen);
      DfOutTurn(c, x, n - generated, blocklen, done);
      SpliceSnoc(d, 0, done, y[..blocklen]);
      Put(dfData, generated, temp[keylen..keylen + blocklen]);
      done := done + y[..blocklen];
      generated := generated + blocklen;
    }
    DfOutNone(c, temp[keylen..keylen + BLOCKLEN]);
    assert done + [] == done;
  }

  lemma PrefixAt(d: Bytes, i: nat, y: Bytes, k: nat)
    requires i + |y| <= |d| && d[i..i + |y|] == y && k <= |y|
    ensures d[i..i + k] == y[..k]
  {
    assert d[i..i + |y|][..k] == d[i..i + k];
  }

  lemma DfOutTurn(c: Cipher, x: Bytes, n: nat, k: nat, done: Bytes)
    requires c.Valid() && c.size == BLOCKLEN == |x| && 0 < n && k == if BLOCKLEN < n then BLOCKLEN else n
    ensures done + DfOut(c, x, n) == done + c.enc(x)[..k] + DfOut(c, c.enc(x), n - k)
  {
    if n <= BLOCKLEN {
      assert DfOut(c, c.enc(x), 0) == [];
    } else {
      assert c.enc(x)[..k] == c.enc(x);
    }
  }

  lemma DfOutNone(c: Cipher, x: Bytes)
    requires c.Valid() && c.size == BLOCKLEN == |x|
    ensures DfOut(c, x, 0) == []
  {
  }

  method Clear(a: array<bv8>)
    modifies a
    ensures a[..] == Zeros(a.Length)
  {
    hide Splice;
    SpliceAll(a[..], Zeros(a.Length));
    Put(a, 0, Zeros(a.Length));
  }

  /**
   drbg_ctr_df with its parts of the scratchpad: pad, iv and temp, which are cleared at the end;
   temp has to be clear at the start.
   */
  method DrbgCtrDf(E: Family, keylen: nat, dfData: array<bv8>, n: nat, seeds: seq<Bytes>, pad: array<bv8>, iv: array<bv8>, temp: array<bv8>)
    returns (err: int)
    requires IsKeyLen(keylen) && IsFamily(E, keylen) && n <= dfData.Length
    requires pad.Length == iv.Length == BLOCKLEN && temp.Length == keylen + 2 * BLOCKLEN && temp[..] == Zeros(temp.Length)
    requires pad != iv && pad != temp && iv != temp && dfData != pad && dfData != iv && dfData != temp
    modifies dfData, pad, iv, temp
    ensures err == if 512 / 8 < n then -EINVAL else 0
    ensures dfData[..] == if err != 0 then old(dfData[..]) else Splice(old(dfData[..]), 0, Df(E, keylen, n, Joined(seeds)))
    ensures pad[..] == Zeros(BLOCKLEN) && iv[..] == Zeros(BLOCKLEN) && temp[..] == Zeros(temp.Length)
  {
    hide DfTemp, DfInput, Splice, DfOut, BePut, DfKey;
    Clear(pad);
    Clear(iv);
    if 512 / 8 < n {
      return -EINVAL;
    }
    var inputlen := |Joined(seeds)|;
    FillOf(inputlen + 9);
    var padlen := (inputlen + 8 + 1) % BLOCKLEN;
    if padlen != 0 {
      padlen := BLOCKLEN - padlen;
    }
    padlen := padlen + 1;
    pad[0] := 0x80;
    PadBytes(pad[..], padlen);
    var K := DfKey(keylen);
    ghost var t := DfTemp(E(K), DfInput(n, Joined(seeds)), DfBlocks(keylen));
    DfFill(E(K), keylen, n, temp, iv, seeds, pad[..padlen]);
    SpliceFront(Zeros(temp.Length), t, keylen);
    var key := temp[..keylen];
    DfExtract(E(key), temp, keylen, dfData, n);
    Clear(iv);
    Clear(temp);
    Clear(pad);
    err := 0;
  }

  lemma PadBytes(pad: Bytes, padlen: nat)
    requires |pad| == BLOCKLEN && 1 <= padlen <= BLOCKLEN && pad == Zeros(BLOCKLEN)[0 := 0x80]
    ensures pad[..padlen] == [0x80] + Zeros(padlen - 1)
  {
  }

  lemma SpliceFront(d: Bytes, t: Bytes, k: nat)
    requires k + BLOCKLEN <= |t| <= |d|
    ensures Splice(d, 0, t)[..k] == t[..k] && Splice(d, 0, t)[k..k + BLOCKLEN] == t[k..k + BLOCKLEN]
  {
  }

  // ----- the state -----

  class DrbgState {
    const E: Family
    const keylen: nat
    /** How the skcipher walk cuts a request; any way will do. */
    const walk: nat -> nat
    const V: array<bv8>
    const C: array<bv8>
    /** The key set in ctr_handle. */
    var ctrKey: Bytes
    const outscratchpad: array<bv8>
    // The parts of the scratchpad.
    const temp: array<bv8>
    const dfData: array<bv8>
    const pad: array<bv8>
    const iv: array<bv8>
    const dfTemp: array<bv8>

    /** drbg_alloc_state and drbg_init_sym_kernel: everything zero. */
    constructor (E: Family, keylen: nat, walk: nat -> nat)
      requires IsKeyLen(keylen) && IsFamily(E, keylen) && Ctr.IsWalk(walk, BLOCKLEN)
      ensures Valid() && this.E == E && this.keylen == keylen && fresh(Buffers())
      ensures V[..] == Zeros(BLOCKLEN) && C[..] == Zeros(keylen) && DfZero()
    {
      this.E, this.keylen, this.walk := E, keylen, walk;
      V := new bv8[BLOCKLEN](_ => 0);
      C := new bv8[keylen](_ => 0);
      ctrKey := Zeros(keylen);
      outscratchpad := new bv8[DRBG_OUTSCRATCHLEN](_ => 0);
      temp := new bv8[keylen + 2 * BLOCKLEN](_ => 0);
      dfData := new bv8[keylen + BLOCKLEN](_ => 0);
      pad := new bv8[BLOCKLEN](_ => 0);
      iv := new bv8[BLOCKLEN](_ => 0);
      dfTemp := new bv8[keylen + 2 * BLOCKLEN](_ => 0);
    }

    ghost function Buffers(): set<object> {
      {V, C, outscratchpad, temp, dfData, pad, iv, dfTemp}
    }

    /** No two buffers are the same. */
    ghost predicate Apart() {
      && V != C && V != outscratchpad && V != temp && V != dfData && V != pad && V != iv && V != dfTemp
      && C != outscratchpad && C != temp && C != dfData && C != pad && C != iv && C != dfTemp
      && outscratchpad != temp && outscratchpad != dfData && outscratchpad != pad && outscratchpad != iv && outscratchpad != dfTemp
      && temp != dfData && temp != pad && temp != iv && temp != dfTemp
      && dfData != pad && dfData != iv && dfData != dfTemp
      && pad != iv && pad != dfTemp
      && iv != dfTemp
    }

    ghost predicate Valid()
      reads this, dfTemp
    {
      && IsKeyLen(keylen) && IsFamily(E, keylen) && Ctr.IsWalk(walk, BLOCKLEN) && |ctrKey| == keylen
      && V.Length == pad.Length == iv.Length == BLOCKLEN && C.Length == keylen
      && outscratchpad.Length == DRBG_OUTSCRATCHLEN
      && temp.Length == dfTemp.Length == keylen + 2 * BLOCKLEN && dfData.Length == keylen + BLOCKLEN
      && dfTemp[..] == Zeros(dfTemp.Length)
      && Apart()
    }

    ghost predicate DfZero()
      reads dfData
    {
      dfData[..] == Zeros(dfData.Length)
    }

    /** The state of SP 800-90A that this one stands for: V is one ahead. */
    ghost predicate Represents(w: Working)
      reads this, V
    {
      V.Length == BLOCKLEN && ctrKey == w.key && |w.v| == BLOCKLEN && V[..] == Ctr.Inc(w.v)
    }

    /** One chunk of zeros, encrypted in the scratchpad, copied out and cleared. */
    method SymCtrChunk(buf: array<bv8>, at: nat, cryptlen: nat, inlen: nat, ghost v0: Bytes, ghost d: Bytes)
      requires Valid() && buf !in Buffers() && |d| == buf.Length && |v0| == BLOCKLEN
      requires cryptlen <= inlen <= DRBG_OUTSCRATCHLEN && at + cryptlen <= buf.Length && at % DRBG_OUTSCRATCHLEN == 0
      requires outscratchpad[..inlen] == Zeros(inlen)
      requires buf[..] == Splice(d, 0, Ctr.Stream(E(ctrKey), v0, at)) && V[..] == Ctr.NextIv(BLOCKLEN, v0, at)
      modifies V, outscratchpad, buf
      ensures Valid() && outscratchpad[..inlen] == Zeros(inlen)
      ensures buf[..] == Splice(d, 0, Ctr.Stream(E(ctrKey), v0, at + cryptlen)) && V[..] == Ctr.NextIv(BLOCKLEN, v0, at + cryptlen)
    {
      hide Ctr.Stream, Ctr.NextIv, Splice, Zeros, Ctr.Crypted;
      ghost var c, v, o := E(ctrKey), V[..], outscratchpad[..];
      ZerosRead(o, inlen, cryptlen);
      StreamTurn(c, v0, at, cryptlen, d);
      ZerosCrypted(c, v, cryptlen);
      Ctr.CtrCrypt(E(ctrKey), V, outscratchpad, 0, outscratchpad, 0, cryptlen, walk);
      SpliceZero(o, Ctr.Stream(c, v, cryptlen), inlen);
      Put(buf, at, outscratchpad[..cryptlen]);
      Put(outscratchpad, 0, Zeros(cryptlen));
    }

    /**
     drbg_kcapi_sym_ctr without an input buffer: zeros in the scratchpad are encrypted in place, at
     most 256 bytes at a time.
     */
    method SymCtrZeros(buf: array<bv8>, outlen: nat)
      requires Valid() && outlen <= buf.Length && buf !in Buffers()
      modifies V, outscratchpad, buf
      ensures Valid()
      ensures buf[..] == Splice(old(buf[..]), 0, Ctr.Stream(E(ctrKey), old(V[..]), outlen))
      ensures V[..] == Ctr.NextIv(BLOCKLEN, old(V[..]), outlen)
    {
      hide Ctr.Stream, Ctr.NextIv, Splice, Zeros, Ctr.Crypted;
      ghost var c, v0, d := E(ctrKey), V[..], buf[..];
      var inlen := if outlen < DRBG_OUTSCRATCHLEN then outlen else DRBG_OUTSCRATCHLEN;
      Put(outscratchpad, 0, Zeros(inlen));
      var left: nat, at: nat := outlen, 0;
      StreamStart(c, v0, d);
      ZerosPut(outscratchpad[..], inlen);
      while left != 0
        invariant at + left == outlen && (at % DRBG_OUTSCRATCHLEN == 0 || left == 0)
        invariant outscratchpad[..inlen] == Zeros(inlen)
        invariant buf[..] == Splice(d, 0, Ctr.Stream(c, v0, at)) && V[..] == Ctr.NextIv(BLOCKLEN, v0, at)
      {
        var cryptlen := if left < inlen then left else inlen;
        SymCtrChunk(buf, at, cryptlen, inlen, v0, d);
        left, at := left - cryptlen, at + cryptlen;
      }
    }

    /** drbg_kcapi_sym_ctr with df_data as input and temp as output, which fit in one chunk. */
    method SymCtrData()
      requires Valid()
      modifies V, outscratchpad, temp
      ensures Valid()
      ensures temp[..keylen + BLOCKLEN] == Ctr.Crypted(E(ctrKey), old(V[..]), dfData[..])
    {
      hide Splice, Ctr.Crypted, Ctr.NextIv;
      var n := keylen + BLOCKLEN;
      ghost var o, t, x := outscratchpad[..], temp[..], Ctr.Crypted(E(ctrKey), V[..], dfData[..]);
      assert dfData[0..0 + n] == dfData[..];
      Ctr.CtrCrypt(E(ctrKey), V, outscratchpad, 0, dfData, 0, n, walk);
      SpliceZero(o, x, n);
      SpliceZero(t, x, n);
      Put(temp, 0, outscratchpad[..n]);
      Put(outscratchpad, 0, Zeros(n));
    }

    /** What drbg_ctr_update gives to CTR_DRBG_Update. */
    ghost function Provided(seed: AdditionalInput, reseed: nat): (d: Bytes)
      requires Valid()
      reads this, dfData, dfTemp
      ensures |d| == keylen + BLOCKLEN
    {
      if seed.NoInput? && reseed == 3 then dfData[..] else Additional(E, keylen, seed)
    }

    /**
     drbg_ctr_update: CTR_DRBG_Update on the state stood for, V going one ahead when `reseed` is 0;
     2 leaves the derived data behind and 3 takes them as they are.
     */
    method DrbgCtrUpdate(hasSeed: bool, seed: seq<Bytes>, reseed: nat, ghost w: Working)
      requires Valid() && IsWorking(w, keylen) && reseed <= 3
      requires if reseed == 0 then C[..] == w.key && V[..] == w.v else Represents(w)
      modifies this, V, outscratchpad, temp, dfData, pad, iv, dfTemp
      ensures Valid() && Represents(Update(E, keylen, w, old(Provided(if hasSeed then Input(Joined(seed)) else NoInput, reseed))))
      ensures if reseed == 2 then dfData[..] == old(Provided(if hasSeed then Input(Joined(seed)) else NoInput, reseed)) else DfZero()
      ensures temp[..] == Zeros(temp.Length)
    {
      hide Splice, Ctr.Crypted, Ctr.Inc, Df, Update, Zeros;
      ghost var a := if hasSeed then Input(Joined(seed)) else NoInput;
      ghost var data := Provided(a, reseed);
      if reseed < 3 {
        Clear(dfData);
      }
      if reseed == 0 {
        Ctr.CryptoInc(V, true);
        ctrKey := C[..];
      }
      if hasSeed {
        SpliceAll(dfData[..], Df(E, keylen, keylen + BLOCKLEN, Joined(seed)));
        var _ := DrbgCtrDf(E, keylen, dfData, keylen + BLOCKLEN, seed, pad, iv, dfTemp);
      }
      assert dfData[..] == data;
      UpdateAhead(E, keylen, w, data);
      SymCtrData();
      ghost var t := Ctr.Crypted(E(w.key), Ctr.Inc(w.v), data);
      ctrKey := temp[..keylen];
      SpliceAll(V[..], t[keylen..]);
      assert temp[..keylen] == t[..keylen] && temp[keylen..keylen + BLOCKLEN] == t[keylen..];
      Put(V, 0, temp[keylen..keylen + BLOCKLEN]);
      Ctr.CryptoInc(V, true);
      Clear(temp);
      if reseed != 2 {
        Clear(dfData);
      }
    }

    /**
     drbg_ctr_generate: CTR_DRBG_Generate on the state stood for, for every length an unsigned int can
     hold and with or without additional input.  The result is the length as an int, so it is
     negative above INT_MAX, although all bytes are generated: as a u32 it is the length again.
     */
    method DrbgCtrGenerate(buf: array<bv8>, buflen: nat, addtl: seq<Bytes>, ghost w: Working) returns (len: int)
      requires Valid() && IsWorking(w, keylen) && Represents(w) && DfZero() && buflen <= buf.Length && buf !in Buffers()
      requires buflen < TWO32
      modifies this, V, outscratchpad, temp, dfData, pad, iv, dfTemp, buf
      ensures Valid() && DfZero() && len == if buflen <= INT_MAX then buflen else buflen - TWO32
      ensures var a := if addtl == [] then NoInput else Input(Joined(addtl));
              && buf[..] == Splice(old(buf[..]), 0, Generated(E, keylen, w, buflen, a))
              && Represents(AfterGenerate(E, keylen, w, buflen, a))
    {
      hide Splice, Ctr.Stream, Ctr.NextIv, Ctr.Inc, Df, Update, Zeros, Output, OutputV;
      len := AsInt(buflen);
      len := if len < INT_MAX then len else INT_MAX;
      ghost var a := if addtl == [] then NoInput else Input(Joined(addtl));
      ghost var p := Prepared(E, keylen, w, a);
      if addtl != [] {
        DrbgCtrUpdate(true, addtl, 2, w);
      }
      assert Represents(p) && dfData[..] == Additional(E, keylen, a);
      OneAhead(E(p.key), p.v, buflen);
      LengthBack(len);
      SymCtrZeros(buf, len % TWO32);
      DrbgCtrUpdate(false, [], 3, Working(p.key, OutputV(p.v, buflen)));
    }
  }

  /** An unsigned int cast to int. */
  function AsInt(x: nat): int { if x <= INT_MAX then x else x - TWO32 }

  /** A negative int cast to u32. */
  lemma LengthBack(len: int)
    requires -TWO32 <= len < TWO32
    ensures len % TWO32 == if len < 0 then len + TWO32 else len
  {
  }

  // ----- steps of the methods -----

  lemma StreamStart(c: Cipher, v: Bytes, d: Bytes)
    requires c.Valid() && |v| == c.size
    ensures d == Splice(d, 0, Ctr.Stream(c, v, 0)) && Ctr.NextIv(c.size, v, 0) == v
  {
    assert Ctr.Stream(c, v, 0) == [];
    SpliceNone(d, 0);
  }

  lemma ZerosPut(o: Bytes, n: nat)
    requires n <= |o| && exists d: Bytes :: |d| == |o| && o == Splice(d, 0, Zeros(n))
    ensures o[..n] == Zeros(n)
  {
  }

  lemma ZerosRead(o: Bytes, n: nat, k: nat)
    requires k <= n <= |o| && o[..n] == Zeros(n)
    ensures o[0..0 + k] == Zeros(k)
  {
    assert o[..n][..k] == o[..k];
    assert Zeros(n)[..k] == Zeros(k);
  }

  lemma ZerosCrypted(c: Cipher, v: Bytes, n: nat)
    requires c.Valid() && |v| == c.size
    ensures Ctr.Crypted(c, v, Zeros(n)) == Ctr.Stream(c, v, n)
  {
    hide Ctr.Stream, Xor;
    XorZeros(Ctr.Stream(c, v, n));
  }

  /** A prefix written and cleared again leaves zeros zeros. */
  lemma SpliceZero(o: Bytes, x: Bytes, n: nat)
    requires |x| <= n <= |o|
    ensures Splice(o, 0, x)[..|x|] == x
    ensures o[..n] == Zeros(n) ==> Splice(Splice(o, 0, x), 0, Zeros(|x|))[..n] == Zeros(n)
  {
    if o[..n] == Zeros(n) {
      forall i | |x| <= i < n ensures o[i] == 0 {
        assert o[..n][i] == 0;
      }
    }
  }

  lemma ChunksWhole(at: nat)
    requires at % DRBG_OUTSCRATCHLEN == 0
    ensures Cbc.Whole(at, BLOCKLEN) == at
  {
    hide Cbc.Whole;
    Cbc.WholeIsMod(at, BLOCKLEN);
  }

  lemma StreamTurn(c: Cipher, v0: Bytes, at: nat, n: nat, d: Bytes)
    requires c.Valid() && c.size == BLOCKLEN == |v0| && at % DRBG_OUTSCRATCHLEN == 0 && at + n <= |d|
    ensures var v := Ctr.NextIv(BLOCKLEN, v0, at);
            && Splice(Splice(d, 0, Ctr.Stream(c, v0, at)), at, Ctr.Stream(c, v, n)) == Splice(d, 0, Ctr.Stream(c, v0, at + n))
            && Ctr.NextIv(BLOCKLEN, v, n) == Ctr.NextIv(BLOCKLEN, v0, at + n)
  {
    hide Ctr.Stream, Ctr.NextIv, Splice, Cbc.Whole;
    ChunksWhole(at);
    Ctr.StreamConcat(c, v0, at, n);
    SpliceSnoc(d, 0, Ctr.Stream(c, v0, at), Ctr.Stream(c, Ctr.NextIv(BLOCKLEN, v0, at), n));
  }

  /** One counter-mode call over the data is the loop and the XOR of CTR_DRBG_Update. */
  lemma UpdateAhead(E: Family, keylen: nat, w: Working, data: Bytes)
    requires IsFamily(E, keylen) && IsWorking(w, keylen) && |data| == keylen + BLOCKLEN
    ensures var t := Ctr.Crypted(E(w.key), Ctr.Inc(w.v), data);
            Update(E, keylen, w, data) == Working(t[..keylen], t[keylen..])
  {
    hide Output, Ctr.Stream, Xor, Ctr.Inc;
    OneAhead(E(w.key), w.v, keylen + BLOCKLEN);
    XorComm(data, Ctr.Stream(E(w.key), Ctr.Inc(w.v), keylen + BLOCKLEN));
  }
}
