/**
 The blocks CCM feeds to CBC-MAC: what format_input and format_adata write, against section 2.2
 of RFC 3610, and what the blocks say about nonce, associated data and message.
 */
module CcmFormat {
  import opened Bytes
  import opened Numbers
  import Cbc
  import CbcMac

  const EINVAL := 22
  const EOVERFLOW := 75
  const TWO32: nat := 0x1_0000_0000

  // ----- the length field -----

  lemma {:induction false} LowBytes(n: nat, j: nat, k: nat)
    ensures BePut(n, j + k)[j..] == BePut(n, k)
    decreases k
  {
    hide ByteOf;
    if k != 0 {
      LowBytes(n / 0x100, j, k - 1);
      assert BePut(n, j + k) == BePut(n / 0x100, j + k - 1) + [ByteOf(n % 0x100)];
    }
  }

  lemma {:induction false} HighZeros(n: nat, j: nat, k: nat)
    requires n < Pow256(k)
    ensures BePut(n, j + k)[..j] == Zeros(j)
    decreases k, j
  {
    hide ByteOf;
    if k != 0 {
      HighZeros(n / 0x100, j, k - 1);
      assert BePut(n, j + k) == BePut(n / 0x100, j + k - 1) + [ByteOf(n % 0x100)];
    } else if j != 0 {
      HighZeros(0, j - 1, 0);
      assert BePut(0, j - 1)[..j - 1] == BePut(0, j - 1);
      assert BePut(0, j) == BePut(0, j - 1) + [ByteOf(0)];
      ZeroOf();
    }
  }

  lemma ZeroOf()
    ensures ByteOf(0) == 0
  {
  }

  /** The value at which the field wraps around is written as zero. */
  lemma {:induction false} PutWraps(k: nat)
    ensures BePut(Pow256(k), k) == Zeros(k)
  {
    hide ByteOf;
    if k != 0 {
      PutWraps(k - 1);
      ZeroOf();
      assert Pow256(k) % 0x100 == 0 && Pow256(k) / 0x100 == Pow256(k - 1);
    }
  }

  lemma {:induction false} PowGrows(j: nat, k: nat)
    requires j <= k
    ensures Pow256(j) <= Pow256(k)
  {
    if j < k {
      PowGrows(j, k - 1);
    }
  }

  lemma Pow4()
    ensures Pow256(4) == TWO32
  {
  }

  /** The last min(csize, 4) bytes of the number, after zeros, are its csize low bytes. */
  lemma FieldBytes(n: nat, csize: nat)
    requires n < TWO32
    ensures csize < 4 ==> BePut(n, 4)[4 - csize..] == BePut(n, csize)
    ensures 4 <= csize ==> Zeros(csize - 4) + BePut(n, 4) == BePut(n, csize)
  {
    hide BePut, Pow256;
    Pow4();
    if csize < 4 {
      LowBytes(n, 4 - csize, csize);
    } else {
      LowBytes(n, csize - 4, 4);
      HighZeros(n, csize - 4, 4);
      assert BePut(n, csize) == BePut(n, csize)[..csize - 4] + BePut(n, csize)[csize - 4..];
    }
  }

  /** set_msg_len on the csize bytes from `at` on; the bytes are cleared even when the length is refused. */
  method SetMsgLen(block: array<bv8>, at: nat, msglen: nat, csize: nat) returns (err: int)
    requires at + csize <= block.Length && msglen < TWO32 && 0 < csize
    modifies block
    ensures err == if csize < 4 && msglen > Pow256(csize) then -EOVERFLOW else 0
    ensures block[..] == Splice(old(block[..]), at, if err == 0 then BePut(msglen, csize) else Zeros(csize))
  {
    hide Splice, BePut, Pow256;
    ghost var b := block[..];
    FieldBytes(msglen, csize);
    SpliceTwice(b, at, Zeros(csize), BePut(msglen, csize));
    Put(block, at, Zeros(csize));
    var n := csize;
    if n >= 4 {
      n := 4;
    } else if msglen > OneShifted(n) {
      return -EOVERFLOW;
    }
    var data := BePut(msglen, 4);
    ghost var d := block[..];
    if csize >= 4 {
      ZerosSplit(csize - 4, 4);
      SpliceEnd(b, at, Zeros(csize - 4), Zeros(4), data);
    } else {
      assert data[4 - n..] == BePut(msglen, csize);
    }
    Put(block, at + csize - n, data[4 - n..]);
    assert data[0..] == data;
    err := 0;
  }

  /** 1 << (8 * n) */
  function OneShifted(n: nat): (r: nat)
    requires 0 < n < 4
    ensures r == Pow256(n)
  {
    Pow123();
    if n == 1 then 0x100 else if n == 2 then 0x1_0000 else 0x100_0000
  }

  lemma Pow123()
    ensures Pow256(1) == 0x100 && Pow256(2) == 0x1_0000 && Pow256(3) == 0x100_0000
  {
    assert Pow256(0) == 1;
    assert Pow256(1) == 0x100 * Pow256(0);
    assert Pow256(2) == 0x100 * Pow256(1);
  }

  lemma ZerosSplit(a: nat, b: nat)
    ensures Zeros(a + b) == Zeros(a) + Zeros(b)
  {
  }

  lemma SpliceEnd(d: Bytes, at: nat, x: Bytes, y: Bytes, z: Bytes)
    requires at + |x| + |y| <= |d| && |y| == |z|
    ensures Splice(Splice(d, at, x + y), at + |x|, z) == Splice(d, at, x + z)
  {
  }

  /** The field is exact but for one accepted length: 256^csize itself is written as zero. */
  lemma FieldExact(msglen: nat, csize: nat)
    requires msglen < TWO32 && 0 < csize && !(csize < 4 && msglen > Pow256(csize))
    ensures Be(BePut(msglen, csize)) == msglen <==> msglen != Pow256(csize)
    ensures msglen == Pow256(csize) ==> BePut(msglen, csize) == Zeros(csize)
  {
    hide Be, BePut, Pow256;
    Pow4();
    if 4 <= csize {
      PowGrows(4, csize);
    }
    if msglen < Pow256(csize) {
      BeOfPut(msglen, csize);
    } else {
      PutWraps(csize);
      BeZeros(csize);
    }
  }

  // ----- the first block -----

  function OrByte(a: bv8, b: bv8): bv8 { a | b }

  /** The authentication field M' at its place in the flags. */
  function TagBits(m: nat): bv8
    requires IsTagSize(m)
  {
    ByteOf(8 * ((m - 2) / 2))
  }

  predicate IsTagSize(m: nat) {
    m == 4 || m == 6 || m == 8 || m == 10 || m == 12 || m == 14 || m == 16
  }

  /** The flags that format_input ORs together. */
  function Flags(l1: bv8, m: nat, adata: bool): bv8
    requires IsTagSize(m)
  {
    var f := OrByte(l1, TagBits(m));
    if adata then OrByte(f, 64) else f
  }

  lemma TagBitsApart(m: nat)
    requires IsTagSize(m)
    ensures TagBits(m) & 0x38 == TagBits(m)
  {
    if m == 4 || m == 6 {
      assert TagBits(4) == 8 && TagBits(6) == 16;
    } else if m == 8 || m == 10 {
      assert TagBits(8) == 24 && TagBits(10) == 32;
    } else {
      assert TagBits(12) == 40 && TagBits(14) == 48 && TagBits(16) == 56;
    }
  }

  lemma OrDisjoint(a: bv8, t: bv8)
    requires a < 8 && t & 0x38 == t
    ensures OrByte(a, t) == a + t && a + t < 64 && OrByte(a + t, 64) == a + t + 64 && (a + t) & 7 == a
    ensures ByteVal(a + t) == ByteVal(a) + ByteVal(t) && ByteVal(a + t + 64) == ByteVal(a) + ByteVal(t) + 64
  {
  }

  /** As section 2.2 of RFC 3610 defines them: 64 * Adata + 8 * M' + L'. */
  lemma FlagsAreSum(l1: bv8, m: nat, adata: bool)
    requires IsTagSize(m) && l1 < 8
    ensures ByteVal(Flags(l1, m, adata)) == (if adata then 64 else 0) + 8 * ((m - 2) / 2) + ByteVal(l1)
  {
    hide ByteVal, ByteOf, OrByte;
    TagBitsApart(m);
    OrDisjoint(l1, TagBits(m));
    ByteValOf(8 * ((m - 2) / 2));
  }

  lemma FlagsInjective(l1: bv8, l2: bv8, m: nat, a1: bool, a2: bool)
    requires IsTagSize(m) && l1 < 8 && l2 < 8 && Flags(l1, m, a1) == Flags(l2, m, a2)
    ensures l1 == l2 && a1 == a2
  {
    hide ByteVal, ByteOf, OrByte, Flags;
    FlagsAreSum(l1, m, a1);
    FlagsAreSum(l2, m, a2);
    SmallVal(l1);
    SmallVal(l2);
    ByteOfVal(l1);
    ByteOfVal(l2);
  }

  lemma SmallVal(b: bv8)
    requires b < 8
    ensures ByteVal(b) < 8
  {
  }

  /** An IV as crypto_ccm_check_iv accepts it: its first byte is L', from 1 to 7. */
  predicate IsIv(iv: Bytes) {
    |iv| == 16 && 1 <= iv[0] <= 7
  }

  /** L, the width of the length field. */
  function FieldSize(iv: Bytes): (l: nat)
    requires IsIv(iv)
    ensures 2 <= l <= 8
  {
    LBounds(iv[0]);
    ByteVal(iv[0]) + 1
  }

  lemma LBounds(b: bv8)
    requires 1 <= b <= 7
    ensures 1 <= ByteVal(b) <= 7
  {
  }

  function Nonce(iv: Bytes): (n: Bytes)
    requires IsIv(iv)
    ensures |n| == 15 - FieldSize(iv)
  {
    iv[1..16 - FieldSize(iv)]
  }

  predicate Fits(iv: Bytes, len: nat)
    requires IsIv(iv)
  {
    len < TWO32 && (FieldSize(iv) < 4 ==> len <= Pow256(FieldSize(iv)))
  }

  /** B_0 of section 2.2 of RFC 3610. */
  function Block0(iv: Bytes, m: nat, adata: bool, len: nat): (b: Bytes)
    requires IsIv(iv) && IsTagSize(m)
    ensures |b| == 16
  {
    [Flags(iv[0], m, adata)] + Nonce(iv) + BePut(len, FieldSize(iv))
  }

  /** format_input */
  method FormatInput(info: array<bv8>, iv: Bytes, assoclen: nat, cryptlen: nat, m: nat) returns (err: int)
    requires info.Length == 16 && IsIv(iv) && IsTagSize(m) && cryptlen < TWO32
    modifies info
    ensures err == if Fits(iv, cryptlen) then 0 else -EOVERFLOW
    ensures err == 0 ==> info[..] == Block0(iv, m, assoclen != 0, cryptlen)
  {
    hide Splice, OrByte, BePut, Pow256;
    var l := FieldSize(iv);
    SpliceAll(info[..], iv);
    Put(info, 0, iv);
    info[0] := OrByte(info[0], TagBits(m));
    if assoclen != 0 {
      info[0] := OrByte(info[0], 64);
    }
    ghost var b := info[..];
    assert b == [Flags(iv[0], m, assoclen != 0)] + iv[1..];
    Field0(b, iv, BePut(cryptlen, l));
    err := SetMsgLen(info, 16 - l, cryptlen, l);
  }

  lemma Field0(b: Bytes, iv: Bytes, f: Bytes)
    requires IsIv(iv) && |b| == 16 && b[1..] == iv[1..] && |f| == FieldSize(iv)
    ensures Splice(b, 16 - |f|, f) == [b[0]] + Nonce(iv) + f
  {
    var k := 16 - |f|;
    var x := b[1..];
    assert b == [b[0]] + x;
    assert ([b[0]] + x)[..k] == [b[0]] + x[..k - 1];
    assert iv[1..][..k - 1] == Nonce(iv);
  }

  // ----- associated data -----

  /** The encoding of the length of the associated data. */
  function AdField(a: nat): (f: Bytes)
    ensures |f| == if a < 65280 then 2 else 6
  {
    if a < 65280 then BePut(a, 2) else BePut(0xfffe, 2) + BePut(a, 4)
  }

  /** format_adata */
  method FormatAdata(adata: array<bv8>, a: nat) returns (len: nat)
    requires 6 <= adata.Length && a < TWO32
    modifies adata
    ensures len == |AdField(a)| && adata[..len] == AdField(a)
  {
    hide BePut;
    if a < 65280 {
      Put(adata, 0, BePut(a, 2));
      len := 2;
    } else {
      Put(adata, 0, BePut(0xfffe, 2));
      Put(adata, 2, BePut(a, 4));
      len := 6;
    }
  }

  /** What the field says: the length itself below 0xff00, or the bytes ff fe and the length in four bytes. */
  lemma AdFieldSays(a: nat)
    requires a < TWO32
    ensures var f := AdField(a);
            if a < 0xff00 then Be(f) == a else f[..2] == [0xff, 0xfe] && Be(f[2..]) == a
  {
    hide Be, BePut, Pow256;
    Pow4();
    Pow123();
    if a < 0xff00 {
      BeOfPut(a, 2);
    } else {
      BeOfPut(a, 4);
      MarkerBytes();
      assert AdField(a)[..2] == BePut(0xfffe, 2) && AdField(a)[2..] == BePut(a, 4);
    }
  }

  lemma MarkerBytes()
    ensures BePut(0xfffe, 2) == [0xff, 0xfe]
  {
    hide ByteOf;
    assert BePut(0xff, 1) == BePut(0, 0) + [ByteOf(0xff)];
    assert BePut(0xfffe, 2) == BePut(0xff, 1) + [ByteOf(0xfe)];
    TwoBytes();
  }

  lemma TwoBytes()
    ensures ByteOf(0xff) == 0xff && ByteOf(0xfe) == 0xfe
  {
  }

  /** Padded with zeros to whole blocks. */
  function Filled(x: Bytes): (r: Bytes)
    ensures |r| == |x| + CbcMac.Fill(|x|, 16)
  {
    x + Zeros(CbcMac.Fill(|x|, 16))
  }

  function AdPart(ad: Bytes): Bytes {
    if |ad| == 0 then [] else Filled(AdField(|ad|) + ad)
  }

  /** All blocks of section 2.2 of RFC 3610. */
  function Blocks(iv: Bytes, m: nat, ad: Bytes, p: Bytes): Bytes
    requires IsIv(iv) && IsTagSize(m)
  {
    Block0(iv, m, |ad| != 0, |p|) + AdPart(ad) + Filled(p)
  }

  // ----- what the blocks determine -----

  lemma PrefixParts(a: Bytes, b: Bytes, a': Bytes, b': Bytes)
    requires |a| == |a'| && a + b <= a' + b'
    ensures a == a' && b <= b'
  {
    assert a == (a + b)[..|a|] == (a' + b')[..|a|] == a';
    assert b == (a + b)[|a|..] && b' == (a' + b')[|a|..];
  }

  lemma PutInjective(n: nat, n': nat, k: nat)
    requires n < Pow256(k) && n' < Pow256(k) && BePut(n, k) == BePut(n', k)
    ensures n == n'
  {
    BeOfPut(n, k);
    BeOfPut(n', k);
  }

  /** The length of the associated data can be read off the front of any continuation. */
  lemma AdFieldInjective(a: nat, x: Bytes, a': nat, x': Bytes)
    requires a < TWO32 && a' < TWO32 && AdField(a) + x <= AdField(a') + x'
    ensures a == a'
  {
    hide BePut, Pow256;
    Pow123();
    Pow4();
    AdFieldStart(a, x);
    AdFieldStart(a', x');
    var f, f' := AdField(a), AdField(a');
    assert (f + x)[..2] == (f' + x')[..2];
    PutInjective(if a < 65280 then a else 0xfffe, if a' < 65280 then a' else 0xfffe, 2);
    assert |f| == |f'|;
    PrefixParts(f, x, f', x');
    if 65280 <= a {
      PrefixParts(BePut(0xfffe, 2), BePut(a, 4), BePut(0xfffe, 2), BePut(a', 4));
      PutInjective(a, a', 4);
    }
  }

  lemma AdFieldStart(a: nat, x: Bytes)
    ensures (AdField(a) + x)[..2] == BePut(if a < 65280 then a else 0xfffe, 2)
  {
    hide BePut;
  }

  lemma AdPartInjective(ad: Bytes, x: Bytes, ad': Bytes, x': Bytes)
    requires 0 < |ad| < TWO32 && 0 < |ad'| < TWO32 && AdPart(ad) + x <= AdPart(ad') + x'
    ensures ad == ad' && x <= x'
  {
    hide AdField;
    var f, f' := AdField(|ad|), AdField(|ad'|);
    var z, z' := Zeros(CbcMac.Fill(|f + ad|, 16)), Zeros(CbcMac.Fill(|f' + ad'|, 16));
    Regroup(f, ad, z, x);
    Regroup(f', ad', z', x');
    AdFieldInjective(|ad|, ad + (z + x), |ad'|, ad' + (z' + x'));
    PrefixParts(f, ad + (z + x), f', ad' + (z' + x'));
    PrefixParts(ad, z + x, ad', z' + x');
    PrefixParts(z, x, z', x');
  }

  lemma Regroup(f: Bytes, a: Bytes, z: Bytes, x: Bytes)
    ensures f + a + z + x == f + (a + (z + x))
  {
  }

  lemma Block0Injective(iv: Bytes, m: nat, a: bool, n: nat, iv': Bytes, a': bool, n': nat)
    requires IsIv(iv) && IsIv(iv') && IsTagSize(m) && Block0(iv, m, a, n) == Block0(iv', m, a', n')
    ensures iv[0] == iv'[0] && a == a' && Nonce(iv) == Nonce(iv') && BePut(n, FieldSize(iv)) == BePut(n', FieldSize(iv))
  {
    hide Flags, BePut, ByteVal;
    var b, b' := Block0(iv, m, a, n), Block0(iv', m, a', n');
    assert b[0] == b'[0];
    FlagsInjective(iv[0], iv'[0], m, a, a');
    var l := FieldSize(iv);
    assert b[1..16 - l] == Nonce(iv) && b'[1..16 - l] == Nonce(iv');
    assert b[16 - l..] == BePut(n, l) && b'[16 - l..] == BePut(n', l);
  }

  lemma FilledInjective(p: Bytes, p': Bytes)
    requires |p| == |p'| && Filled(p) <= Filled(p')
    ensures p == p'
  {
    assert Filled(p)[..|p|] == p && Filled(p')[..|p|] == p';
  }

  /** Two lengths accepted for one field width that are written alike are equal, unless they are 0 and 256^L. */
  lemma SameField(n: nat, n': nat, l: nat)
    requires n < TWO32 && n' < TWO32 && 2 <= l && (l < 4 ==> n <= Pow256(l) && n' <= Pow256(l))
    requires BePut(n, l) == BePut(n', l)
    ensures n == n' || (l < 4 && ((n == 0 && n' == Pow256(l)) || (n' == 0 && n == Pow256(l))))
  {
    hide BePut, Pow256;
    Pow4();
    if 4 <= l {
      PowGrows(4, l);
    }
    if n < Pow256(l) && n' < Pow256(l) {
      PutInjective(n, n', l);
    } else {
      PutWraps(l);
      HighZeros(0, l, 0);
      assert Pow256(0) == 1 by { PowZero(); }
      assert BePut(0, l)[..l] == BePut(0, l);
      var k := if n < Pow256(l) then n else n';
      if k < Pow256(l) {
        PutInjective(k, 0, l);
      }
    }
  }

  lemma PowZero()
    ensures Pow256(0) == 1
  {
  }

  /**
   No accepted input's blocks start another's, for one tag size, but for one case: a message of
   exactly 256^L bytes, whose length is written as zero, continues the blocks of the empty message.
   */
  lemma PrefixFree(iv: Bytes, ad: Bytes, p: Bytes, iv': Bytes, ad': Bytes, p': Bytes, m: nat)
    requires IsTagSize(m) && IsIv(iv) && IsIv(iv') && Fits(iv, |p|) && Fits(iv', |p'|) && |ad| < TWO32 && |ad'| < TWO32
    requires Blocks(iv, m, ad, p) <= Blocks(iv', m, ad', p')
    ensures iv[0] == iv'[0] && Nonce(iv) == Nonce(iv') && ad == ad'
    ensures p == p' || (|p| == 0 && FieldSize(iv) < 4 && |p'| == Pow256(FieldSize(iv)))
  {
    hide Block0, AdPart, Filled, Pow256, BePut, ByteVal;
    var b, b' := Block0(iv, m, |ad| != 0, |p|), Block0(iv', m, |ad'| != 0, |p'|);
    var t, t' := AdPart(ad) + Filled(p), AdPart(ad') + Filled(p');
    assert Blocks(iv, m, ad, p) == b + t && Blocks(iv', m, ad', p') == b' + t';
    PrefixParts(b, t, b', t');
    Block0Injective(iv, m, |ad| != 0, |p|, iv', |ad'| != 0, |p'|);
    if |ad| != 0 {
      AdPartInjective(ad, Filled(p), ad', Filled(p'));
    } else {
      NoAd();
      assert t == Filled(p) && t' == Filled(p');
    }
    SameField(|p|, |p'|, FieldSize(iv));
    if |p| == |p'| {
      FilledInjective(p, p');
    } else if |p'| == 0 {
      FilledEmpty(p, p');
    }
  }

  lemma NoAd()
    ensures AdPart([]) == []
  {
  }

  lemma FilledEmpty(p: Bytes, p': Bytes)
    requires |p'| == 0 && Filled(p) <= Filled(p')
    ensures |p| == 0
  {
    assert CbcMac.Fill(0, 16) == 0;
  }

  /** Equal blocks come from equal nonces, associated data and messages, for every accepted input. */
  lemma Injective(iv: Bytes, ad: Bytes, p: Bytes, iv': Bytes, ad': Bytes, p': Bytes, m: nat)
    requires IsTagSize(m) && IsIv(iv) && IsIv(iv') && Fits(iv, |p|) && Fits(iv', |p'|) && |ad| < TWO32 && |ad'| < TWO32
    requires Blocks(iv, m, ad, p) == Blocks(iv', m, ad', p')
    ensures iv[0] == iv'[0] && Nonce(iv) == Nonce(iv') && ad == ad' && p == p'
  {
    hide Blocks, Pow256, ByteVal;
    PrefixFree(iv, ad, p, iv', ad', p', m);
    PrefixFree(iv', ad', p', iv, ad, p, m);
    if p != p' {
      PowPositive(FieldSize(iv));
      assert false;
    }
  }

  lemma PowPositive(k: nat)
    ensures Pow256(k) != 0
  {
  }

  /** The excepted case does occur: for every IV with L below 4, the empty message against one of 256^L bytes. */
  lemma NotPrefixFree(iv: Bytes, ad: Bytes, p: Bytes, m: nat)
    requires IsTagSize(m) && IsIv(iv) && FieldSize(iv) < 4 && |p| == Pow256(FieldSize(iv)) && |p| < TWO32
    ensures Fits(iv, 0) && Fits(iv, |p|)
    ensures Blocks(iv, m, ad, []) <= Blocks(iv, m, ad, p) && p != []
  {
    hide AdPart, Pow256, ByteVal, BePut;
    var l := FieldSize(iv);
    PowPositive(l);
    PutWraps(l);
    HighZeros(0, l, 0);
    PowZero();
    assert BePut(0, l)[..l] == BePut(0, l);
    assert CbcMac.Fill(0, 16) == 0 && Filled([]) == [];
    var x := Block0(iv, m, |ad| != 0, 0) + AdPart(ad);
    assert Blocks(iv, m, ad, []) == x && Blocks(iv, m, ad, p) == x + Filled(p);
  }
}
