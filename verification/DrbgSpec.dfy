/** CTR_DRBG as SP 800-90A defines it: sections 10.2.1.2, 10.2.1.5.2, 10.4.2 and 10.4.3. */
module DrbgSpec {
  import opened Bytes
  import opened Numbers
  import Cbc
  import Cmac
  import CbcMac
  import Ctr

  const BLOCKLEN := 16

  /** A block cipher for every key. */
  type Family = Bytes -> Cipher

  ghost predicate IsFamily(E: Family, keylen: nat) {
    forall k: Bytes :: |k| == keylen ==> E(k).Valid() && E(k).size == BLOCKLEN
  }

  /** AES key sizes. */
  predicate IsKeyLen(keylen: nat) {
    keylen == 16 || keylen == 24 || keylen == 32
  }

  /** Key and V. */
  datatype Working = Working(key: Bytes, v: Bytes)

  predicate IsWorking(w: Working, keylen: nat) {
    |w.key| == keylen && |w.v| == BLOCKLEN
  }

  /** The loop `V = V + 1; temp = temp || E(Key, V)` until temp holds n bytes. */
  function Output(c: Cipher, v: Bytes, n: nat): (r: Bytes)
    requires c.Valid() && c.size == BLOCKLEN == |v|
    ensures n <= |r|
    decreases n
  {
    var v' := Ctr.Inc(v);
    if n == 0 then [] else c.enc(v') + (if n <= BLOCKLEN then [] else Output(c, v', n - BLOCKLEN))
  }

  /** V after that loop. */
  function OutputV(v: Bytes, n: nat): (r: Bytes)
    ensures |r| == |v|
    decreases n
  {
    if n == 0 then v else if n <= BLOCKLEN then Ctr.Inc(v) else OutputV(Ctr.Inc(v), n - BLOCKLEN)
  }

  /** CTR_DRBG_Update, section 10.2.1.2. */
  function Update(E: Family, keylen: nat, w: Working, data: Bytes): (r: Working)
    requires IsFamily(E, keylen) && IsWorking(w, keylen) && |data| == keylen + BLOCKLEN
    ensures IsWorking(r, keylen)
  {
    var temp := Output(E(w.key), w.v, keylen + BLOCKLEN)[..keylen + BLOCKLEN];
    var t := Xor(temp, data);
    Working(t[..keylen], t[keylen..])
  }

  /** BCC, section 10.4.3, on whole blocks. */
  function Bcc(c: Cipher, data: Bytes): (r: Bytes)
    requires c.Valid()
    ensures |r| == c.size
  {
    Cmac.Absorbed(c, Zeros(c.size), data)
  }

  /** S of section 10.4.2: lengths, input, the byte 0x80 and zeros up to a block. */
  function DfInput(n: nat, input: Bytes): Bytes {
    var s := BePut(|input|, 4) + BePut(n, 4) + input + [0x80];
    s + Zeros(CbcMac.Fill(|s|, BLOCKLEN))
  }

  function Iv(i: nat): (r: Bytes)
    ensures |r| == BLOCKLEN
  {
    BePut(i, 4) + Zeros(BLOCKLEN - 4)
  }

  /** The first k blocks of temp in step 9 of section 10.4.2. */
  function DfTemp(c: Cipher, s: Bytes, k: nat): (r: Bytes)
    requires c.Valid() && c.size == BLOCKLEN
    ensures |r| == BLOCKLEN * k
  {
    if k == 0 then [] else DfTemp(c, s, k - 1) + Bcc(c, Iv(k - 1) + s)
  }

  /** Steps 13 to 15: X encrypted again and again, n bytes of it. */
  function DfOut(c: Cipher, x: Bytes, n: nat): (r: Bytes)
    requires c.Valid() && c.size == BLOCKLEN == |x|
    ensures |r| == n
    decreases n
  {
    var y := c.enc(x);
    if n <= BLOCKLEN then y[..n] else y + DfOut(c, y, n - BLOCKLEN)
  }

  /** The key 00 01 02 ... of step 8. */
  function DfKey(keylen: nat): (k: Bytes)
    requires IsKeyLen(keylen)
    ensures |k| == keylen
  {
    seq(keylen, i requires 0 <= i < 256 => ByteOf(i))
  }

  lemma DfKeyIs(keylen: nat, i: nat)
    requires IsKeyLen(keylen) && i < keylen
    ensures DfKey(keylen)[i] as int == i
  {
    CastBack(i);
  }

  /** How many blocks hold keylen + outlen bytes. */
  function DfBlocks(keylen: nat): (k: nat)
    requires IsKeyLen(keylen)
    ensures keylen + BLOCKLEN <= BLOCKLEN * k < keylen + 2 * BLOCKLEN
  {
    if keylen == 16 then 2 else 3
  }

  /** Block_Cipher_df, section 10.4.2. */
  function Df(E: Family, keylen: nat, n: nat, input: Bytes): (r: Bytes)
    requires IsKeyLen(keylen) && IsFamily(E, keylen)
    ensures |r| == n
  {
    var temp := DfTemp(E(DfKey(keylen)), DfInput(n, input), DfBlocks(keylen));
    DfOut(E(temp[..keylen]), temp[keylen..keylen + BLOCKLEN], n)
  }

  datatype AdditionalInput = NoInput | Input(bytes: Bytes)

  /** Step 2 of section 10.2.1.5.2: what the two updates are given. */
  function Additional(E: Family, keylen: nat, a: AdditionalInput): (d: Bytes)
    requires IsKeyLen(keylen) && IsFamily(E, keylen)
    ensures |d| == keylen + BLOCKLEN
  {
    match a
    case NoInput => Zeros(keylen + BLOCKLEN)
    case Input(bytes) => Df(E, keylen, keylen + BLOCKLEN, bytes)
  }

  /** The working state from which the output is taken. */
  function Prepared(E: Family, keylen: nat, w: Working, a: AdditionalInput): (r: Working)
    requires IsKeyLen(keylen) && IsFamily(E, keylen) && IsWorking(w, keylen)
    ensures IsWorking(r, keylen)
  {
    if a.Input? then Update(E, keylen, w, Additional(E, keylen, a)) else w
  }

  /** CTR_DRBG_Generate, section 10.2.1.5.2: the bytes, and the state afterwards. */
  function Generated(E: Family, keylen: nat, w: Working, n: nat, a: AdditionalInput): (r: Bytes)
    requires IsKeyLen(keylen) && IsFamily(E, keylen) && IsWorking(w, keylen)
    ensures |r| == n
  {
    var p := Prepared(E, keylen, w, a);
    Output(E(p.key), p.v, n)[..n]
  }

  function AfterGenerate(E: Family, keylen: nat, w: Working, n: nat, a: AdditionalInput): (r: Working)
    requires IsKeyLen(keylen) && IsFamily(E, keylen) && IsWorking(w, keylen)
    ensures IsWorking(r, keylen)
  {
    var p := Prepared(E, keylen, w, a);
    Update(E, keylen, Working(p.key, OutputV(p.v, n)), Additional(E, keylen, a))
  }

  /** Counter mode that increments after the cipher call gives the same bytes from a V that is one ahead, and leaves it one ahead. */
  lemma {:induction false} OneAhead(c: Cipher, v: Bytes, n: nat)
    requires c.Valid() && c.size == BLOCKLEN == |v|
    ensures Output(c, v, n)[..n] == Ctr.Stream(c, Ctr.Inc(v), n)
    ensures Ctr.Inc(OutputV(v, n)) == Ctr.NextIv(BLOCKLEN, Ctr.Inc(v), n)
    decreases n
  {
    hide Ctr.Inc;
    if n > BLOCKLEN {
      OneAhead(c, Ctr.Inc(v), n - BLOCKLEN);
    }
  }

  /** V counts modulo 2^128: what one ahead means. */
  lemma AheadMeaning(v: Bytes)
    requires |v| == BLOCKLEN
    ensures Be(Ctr.Inc(v)) == (Be(v) + 1) % Pow256(BLOCKLEN)
  {
    hide Ctr.Inc, Be, Pow256;
    Ctr.IncModulo(v);
  }
}
