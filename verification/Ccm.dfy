/**
 CCM: the MAC over the blocks of CcmFormat, fed in whatever segments the lists hold, and counter
 mode over the tag and the text.
 */
module Ccm {
  import opened Bytes
  import opened Numbers
  import opened CcmFormat
  import Cbc
  import CbcMac
  import Ctr

  const EBADMSG := 74

  // ----- the MAC -----

  /** crypto_ahash_update over the first n bytes of a list. */
  method UpdateList(mac: CbcMac.CbcMacDesc, segs: seq<Bytes>, n: nat)
    requires mac.Valid() && n <= |Joined(segs)|
    modifies mac, mac.dg
    ensures mac.Valid() && mac.msg == old(mac.msg) + Joined(segs)[..n]
  {
    hide CbcMac.Digested;
    ghost var m := mac.msg + Joined(segs)[..n];
    var left: nat, i: nat := n, 0;
    assert segs[0..] == segs;
    while left != 0
      invariant i <= |segs| && left <= |Joined(segs[i..])| && mac.Valid()
      invariant mac.msg + Joined(segs[i..])[..left] == m
      decreases |segs| - i
    {
      assert i < |segs|;
      JoinedNext(segs, i);
      var size := if |segs[i]| < left then |segs[i]| else left;
      JoinedSplit(mac.msg, segs[i], Joined(segs[i + 1..]), left, m);
      mac.Update(segs[i][..size]);
      if size == left {
        left := 0;
        break;
      }
      left, i := left - size, i + 1;
    }
    assert mac.msg == m;
  }

  /** What is MACed; the last block is short when the text is. */
  function MacInput(iv: Bytes, m: nat, ad: Bytes, p: Bytes): Bytes
    requires IsIv(iv) && IsTagSize(m)
  {
    Block0(iv, m, |ad| != 0, |p|) + AdPart(ad) + p
  }

  /** The tag before encryption: CBC-MAC of the blocks of RFC 3610. */
  function Tag(c: Cipher, iv: Bytes, m: nat, ad: Bytes, p: Bytes): (t: Bytes)
    requires c.Valid() && c.size == 16 && IsIv(iv) && IsTagSize(m)
    ensures |t| == 16
  {
    CbcMac.Mac(c, Blocks(iv, m, ad, p))
  }

  lemma FillWhole(n: nat, k: nat)
    requires Cbc.Whole(n, 16) == n
    ensures CbcMac.Fill(n + k, 16) == CbcMac.Fill(k, 16) && CbcMac.Fill(n, 16) == 0
  {
    Cbc.WholePlus(n, k, 16);
  }

  lemma FillOf(n: nat)
    ensures CbcMac.Fill(n, 16) == if n % 16 == 0 then 0 else 16 - n % 16
  {
    Cbc.WholeIsMod(n, 16);
  }

  /** The MAC pads its input with the zeros that complete the blocks. */
  lemma MacOfInput(c: Cipher, iv: Bytes, m: nat, ad: Bytes, p: Bytes)
    requires c.Valid() && c.size == 16 && IsIv(iv) && IsTagSize(m)
    ensures CbcMac.Mac(c, MacInput(iv, m, ad, p)) == Tag(c, iv, m, ad, p)
  {
    hide Block0, CbcMac.Fill;
    var x := Block0(iv, m, |ad| != 0, |p|) + AdPart(ad);
    WholeFront(|x|, ad);
    FillEnd(x, p);
  }

  /** After whole blocks, padding the text pads everything, and only once. */
  lemma FillEnd(x: Bytes, p: Bytes)
    requires Cbc.Whole(|x|, 16) == |x|
    ensures x + p + Zeros(CbcMac.Fill(|x + p|, 16)) == x + Filled(p)
    ensures x + Filled(p) + Zeros(CbcMac.Fill(|x + Filled(p)|, 16)) == x + Filled(p)
  {
    hide CbcMac.Fill, Cbc.Whole;
    FillWhole(|x|, |p|);
    FilledWhole(|p|);
    Cbc.WholePlus(|x|, |Filled(p)|, 16);
    FillWhole(|x + Filled(p)|, 0);
    ConcatAssoc(x, p, Zeros(CbcMac.Fill(|p|, 16)));
  }

  lemma FilledWhole(n: nat)
    ensures Cbc.Whole(n + CbcMac.Fill(n, 16), 16) == n + CbcMac.Fill(n, 16)
  {
  }

  lemma WholeFront(n: nat, ad: Bytes)
    requires n == 16 + |AdPart(ad)|
    ensures Cbc.Whole(n, 16) == n
  {
    hide AdField;
    assert Cbc.Whole(16, 16) == 16;
    if |ad| != 0 {
      FilledWhole(|AdField(|ad|) + ad|);
    }
    Cbc.WholePlus(16, |AdPart(ad)|, 16);
  }

  /** crypto_ccm_auth: header and associated data, zeros up to a block, then the text. */
  method Auth(c: Cipher, iv: Bytes, ad: seq<Bytes>, assoclen: nat, plain: seq<Bytes>, cryptlen: nat, m: nat) returns (err: int, tag: Bytes)
    requires c.Valid() && c.size == 16 && IsIv(iv) && IsTagSize(m)
    requires assoclen <= |Joined(ad)| && cryptlen <= |Joined(plain)| && assoclen < TWO32 && cryptlen < TWO32
    ensures err == if Fits(iv, cryptlen) then 0 else -EOVERFLOW
    ensures err == 0 ==> tag == Tag(c, iv, m, Joined(ad)[..assoclen], Joined(plain)[..cryptlen])
  {
    hide Block0, CbcMac.Digested, CbcMac.Mac, AdField;
    var odata := new bv8[16];
    err := FormatInput(odata, iv, assoclen, cryptlen, m);
    tag := [];
    if err != 0 {
      return;
    }
    ghost var a, p := Joined(ad)[..assoclen], Joined(plain)[..cryptlen];
    var mac := new CbcMac.CbcMacDesc(c);
    FeedHeader(mac, odata[..], ad, assoclen);
    UpdateList(mac, plain, cryptlen);
    MacOfInput(c, iv, m, a, p);
    tag := mac.Final();
  }

  /** The first block and the associated data, with their length in front and zeros behind. */
  method FeedHeader(mac: CbcMac.CbcMacDesc, b: Bytes, ad: seq<Bytes>, assoclen: nat)
    requires mac.Valid() && mac.msg == [] && assoclen <= |Joined(ad)| && assoclen < TWO32
    modifies mac, mac.dg
    ensures mac.Valid() && mac.msg == b + AdPart(Joined(ad)[..assoclen])
  {
    hide CbcMac.Digested, AdField;
    var idata := new bv8[16];
    ghost var a := Joined(ad)[..assoclen];
    var ilen := 0;
    if assoclen != 0 {
      ilen := FormatAdata(idata, assoclen);
    }
    mac.Update(b);
    mac.Update(idata[..ilen]);
    UpdateList(mac, ad, assoclen);
    ghost var f := idata[..ilen];
    FillOf(assoclen + ilen);
    ilen := 16 - (assoclen + ilen) % 16;
    if ilen < 16 {
      mac.Update(Zeros(ilen));
    }
    MacFed(b, f, a, ilen, mac.msg);
  }

  /** The pieces fed before the text are the first block and the padded associated data. */
  lemma MacFed(b: Bytes, f: Bytes, a: Bytes, ilen: nat, msg: Bytes)
    requires f == if |a| != 0 then AdField(|a|) else []
    requires CbcMac.Fill(|a| + |f|, 16) == if ilen < 16 then ilen else 0
    requires msg == if ilen < 16 then [] + b + f + a + Zeros(ilen) else [] + b + f + a
    ensures msg == b + AdPart(a)
  {
    hide AdField, CbcMac.Fill;
    if |a| != 0 {
      assert |f + a| == |a| + |f|;
      var z := Zeros(CbcMac.Fill(|f + a|, 16));
      assert AdPart(a) == f + a + z;
      if ilen < 16 {
        assert z == Zeros(ilen);
        assert [] + b + f + a + z == b + (f + a + z);
      } else {
        assert z == [];
        assert [] + b + f + a == b + (f + a + z);
      }
    } else {
      NoFill();
      assert [] + b + f + a == b && b + [] == b;
    }
  }

  lemma NoFill()
    ensures CbcMac.Fill(0, 16) == 0
  {
  }

  // ----- the AEAD -----

  /** A_0: flags and nonce, with the counter cleared. */
  function Counter0(iv: Bytes): (r: Bytes)
    requires IsIv(iv)
    ensures IsIv(r) && FieldSize(r) == FieldSize(iv) && Nonce(r) == Nonce(iv)
  {
    var k := 16 - FieldSize(iv);
    var r := iv[..k] + Zeros(FieldSize(iv));
    assert r[0] == iv[0] && r[1..k] == iv[1..k];
    r
  }

  /** crypto_ccm_init_crypt: checks L' and clears the counter bytes. */
  method InitCrypt(iv: array<bv8>) returns (err: int)
    requires iv.Length == 16
    modifies iv
    ensures err == if IsIv(old(iv[..])) then 0 else -EINVAL
    ensures iv[..] == if IsIv(old(iv[..])) then Counter0(old(iv[..])) else old(iv[..])
  {
    hide FieldSize;
    ghost var v := iv[..];
    if 1 > iv[0] || iv[0] > 7 {
      return -EINVAL;
    }
    var l := FieldSize(iv[..]);
    Put(iv, 16 - l, Zeros(l));
    assert iv[..] == Counter0(v);
    err := 0;
  }

  /**
   Counter mode over a list that starts with the 16 bytes of `tag`, in place, and goes on with
   the text.
   */
  method CtrList(c: Cipher, ctrblk: array<bv8>, tag: array<bv8>, dst: array<bv8>, dpos: nat, src: array<bv8>, spos: nat, n: nat, walk: nat -> nat)
    requires c.Valid() && c.size == 16 == ctrblk.Length == tag.Length && Ctr.IsWalk(walk, 16)
    requires ctrblk != dst && ctrblk != src && ctrblk != tag && tag != src && tag != dst && Placed(dst, dpos, src, spos, n)
    modifies ctrblk, tag, dst
    ensures var y := Ctr.Crypted(c, old(ctrblk[..]), old(tag[..]) + old(src[spos..spos + n]));
            tag[..] == y[..16] && dst[..] == Splice(old(dst[..]), dpos, y[16..])
  {
    hide Ctr.Crypted, Splice;
    ghost var iv, t, x := ctrblk[..], tag[..], src[spos..spos + n];
    Ctr.CtrCrypt(c, ctrblk, tag, 0, tag, 0, 16, walk);
    assert t == old(tag[0..16]);
    SpliceAll(t, Ctr.Crypted(c, iv, t));
    Ctr.CtrCrypt(c, ctrblk, dst, dpos, src, spos, n, walk);
    CryptedParts(c, iv, t, x);
  }

  lemma CryptedParts(c: Cipher, iv: Bytes, t: Bytes, x: Bytes)
    requires c.Valid() && c.size == 16 == |t| == |iv|
    ensures var y := Ctr.Crypted(c, iv, t + x);
            y[..16] == Ctr.Crypted(c, iv, t) && y[16..] == Ctr.Crypted(c, Ctr.NextIv(16, iv, 16), x)
  {
    hide Xor, Ctr.Stream;
    assert Cbc.Whole(16, 16) == 16;
    Ctr.StreamConcat(c, iv, 16, |x|);
    XorConcat(t, Ctr.Stream(c, iv, 16), x, Ctr.Stream(c, Ctr.NextIv(16, iv, 16), |x|));
  }

  /** What encryption gives: the text under the keystream after its first block, and m bytes of tag under the first. */
  function Seal(c: Cipher, iv: Bytes, ad: Bytes, p: Bytes, m: nat): (r: Bytes)
    requires c.Valid() && c.size == 16 && IsIv(iv) && IsTagSize(m)
    ensures |r| == |p| + m
  {
    var v := Counter0(iv);
    var y := Ctr.Crypted(c, v, Tag(c, v, m, ad, p) + p);
    y[16..] + y[..m]
  }

  /** What decryption makes of a ciphertext and m bytes of tag: the text, and whether the tag is right. */
  function Plain(c: Cipher, iv: Bytes, s: Bytes, m: nat): (p: Bytes)
    requires c.Valid() && c.size == 16 && IsIv(iv) && IsTagSize(m) && m <= |s|
    ensures |p| == |s| - m
  {
    Ctr.Crypted(c, Counter0(iv), Zeros(16) + s[..|s| - m])[16..]
  }

  predicate TagOk(c: Cipher, iv: Bytes, ad: Bytes, s: Bytes, m: nat)
    requires c.Valid() && c.size == 16 && IsIv(iv) && IsTagSize(m) && m <= |s|
  {
    var v := Counter0(iv);
    Ctr.Crypted(c, v, s[|s| - m..]) == Tag(c, v, m, ad, Plain(c, iv, s, m))[..m]
  }

  /** Neither part of the output depends on the other part of the input. */
  lemma CryptedApart(c: Cipher, v: Bytes, t: Bytes, x: Bytes, m: nat)
    requires c.Valid() && c.size == 16 == |v| == |t| && m <= 16
    ensures Ctr.Crypted(c, v, t + x)[16..] == Ctr.Crypted(c, v, Zeros(16) + x)[16..]
    ensures Ctr.Crypted(c, v, t + x)[..m] == Ctr.Crypted(c, v, t[..m])
  {
    hide Ctr.Crypted;
    CryptedParts(c, v, t, x);
    CryptedParts(c, v, Zeros(16), x);
    CryptedPrefix(c, v, t, m);
    assert Ctr.Crypted(c, v, t + x)[..m] == Ctr.Crypted(c, v, t)[..m];
  }

  lemma CryptedPrefix(c: Cipher, v: Bytes, t: Bytes, m: nat)
    requires c.Valid() && |v| == c.size && m <= |t|
    ensures Ctr.Crypted(c, v, t)[..m] == Ctr.Crypted(c, v, t[..m])
  {
    hide Xor, Ctr.Stream;
    Ctr.StreamPrefix(c, v, m, |t|);
    XorSlice(t, Ctr.Stream(c, v, |t|), 0, m);
    assert Ctr.Stream(c, v, |t|)[0..m] == Ctr.Stream(c, v, |t|)[..m];
    assert t[0..m] == t[..m];
    assert Xor(t, Ctr.Stream(c, v, |t|))[0..m] == Xor(t, Ctr.Stream(c, v, |t|))[..m];
  }

  /** Decryption restores and accepts every output of encryption. */
  lemma OpenUndoesSeal(c: Cipher, iv: Bytes, ad: Bytes, p: Bytes, m: nat)
    requires c.Valid() && c.size == 16 && IsIv(iv) && IsTagSize(m)
    ensures Plain(c, iv, Seal(c, iv, ad, p, m), m) == p && TagOk(c, iv, ad, Seal(c, iv, ad, p, m), m)
  {
    hide Ctr.Crypted, Tag, Counter0;
    var v := Counter0(iv);
    var t := Tag(c, v, m, ad, p);
    var y := Ctr.Crypted(c, v, t + p);
    var s := Seal(c, iv, ad, p, m);
    assert s[..|p|] == y[16..] && s[|p|..] == y[..m];
    Ctr.CryptedTwice(c, v, t + p);
    assert y == y[..16] + y[16..];
    CryptedApart(c, v, y[..16], y[16..], m);
    assert (t + p)[16..] == p;
    assert y[..16][..m] == y[..m];
    assert (t + p)[..m] == t[..m];
  }

  /** crypto_ccm_encrypt, the text and its output at the given places after the associated data. */
  method Encrypt(c: Cipher, iv: array<bv8>, ad: seq<Bytes>, assoclen: nat, plain: seq<Bytes>, src: array<bv8>, spos: nat, dst: array<bv8>, dpos: nat,
                 cryptlen: nat, m: nat, walk: nat -> nat) returns (err: int)
    requires c.Valid() && c.size == 16 == iv.Length && IsTagSize(m) && Ctr.IsWalk(walk, 16)
    requires iv != dst && iv != src && Placed(dst, dpos, src, spos, cryptlen) && dpos + cryptlen + m <= dst.Length
    requires assoclen <= |Joined(ad)| && cryptlen <= |Joined(plain)| && assoclen < TWO32 && cryptlen < TWO32
    requires Joined(plain)[..cryptlen] == src[spos..spos + cryptlen]
    modifies iv, dst
    ensures err == if !IsIv(old(iv[..])) then -EINVAL else if !Fits(old(iv[..]), cryptlen) then -EOVERFLOW else 0
    ensures dst[..] == if err != 0 then old(dst[..])
                       else Splice(old(dst[..]), dpos, Seal(c, old(iv[..]), Joined(ad)[..assoclen], old(src[spos..spos + cryptlen]), m))
  {
    hide Ctr.Crypted, Tag, Counter0, Splice;
    ghost var iv0, d0, p := iv[..], dst[..], src[spos..spos + cryptlen];
    err := InitCrypt(iv);
    if err != 0 {
      return;
    }
    var t;
    err, t := Auth(c, iv[..], ad, assoclen, plain, cryptlen, m);
    if err != 0 {
      return;
    }
    var odata := new bv8[16];
    SpliceAll(odata[..], t);
    Put(odata, 0, t);
    ghost var y := Ctr.Crypted(c, Counter0(iv0), t + p);
    CtrList(c, iv, odata, dst, dpos, src, spos, cryptlen, walk);
    assert odata[..m] == y[..m];
    SpliceSnoc(d0, dpos, y[16..], y[..m]);
    Put(dst, dpos + cryptlen, odata[..m]);
  }

  /**
   crypto_ccm_decrypt: the text is written before its tag is checked.  `rest` is what auth_tag holds
   past the received bytes, and `view` gives the segments in which the written text lies.
   */
  method Decrypt(c: Cipher, iv: array<bv8>, ad: seq<Bytes>, assoclen: nat, src: array<bv8>, spos: nat, dst: array<bv8>, dpos: nat,
                 cryptlen0: nat, m: nat, rest: Bytes, view: Bytes -> seq<Bytes>, walk: nat -> nat) returns (err: int)
    requires c.Valid() && c.size == 16 == iv.Length && IsTagSize(m) && Ctr.IsWalk(walk, 16) && |rest| == 16 - m
    requires iv != dst && iv != src && m <= cryptlen0 < TWO32 && Placed(dst, dpos, src, spos, cryptlen0 - m)
    requires spos + cryptlen0 <= src.Length && assoclen <= |Joined(ad)| && assoclen < TWO32
    requires forall x: Bytes :: Joined(view(x)) == x
    modifies iv, dst
    ensures var s := old(src[spos..spos + cryptlen0]);
            if !IsIv(old(iv[..])) then err == -EINVAL && dst[..] == old(dst[..])
            else
              && err == (if !Fits(old(iv[..]), cryptlen0 - m) then -EOVERFLOW
                         else if TagOk(c, old(iv[..]), Joined(ad)[..assoclen], s, m) then 0 else -EBADMSG)
              && dst[..] == Splice(old(dst[..]), dpos, Plain(c, old(iv[..]), s, m))
  {
    hide Ctr.Crypted, Tag, Counter0, Splice, Plain, TagOk, Fits;
    ghost var iv0 := iv[..];
    err := InitCrypt(iv);
    if err == 0 {
      err := DecryptAndCheck(c, iv[..], ad, assoclen, src, spos, dst, dpos, cryptlen0, m, rest, view, walk, iv0);
    }
  }

  /** crypto_ccm_decrypt from the received tag on; v is the cleared IV. */
  method DecryptAndCheck(c: Cipher, v: Bytes, ad: seq<Bytes>, assoclen: nat, src: array<bv8>, spos: nat, dst: array<bv8>, dpos: nat,
                         cryptlen0: nat, m: nat, rest: Bytes, view: Bytes -> seq<Bytes>, walk: nat -> nat, ghost iv: Bytes) returns (err: int)
    requires c.Valid() && c.size == 16 && IsTagSize(m) && Ctr.IsWalk(walk, 16) && |rest| == 16 - m
    requires IsIv(iv) && v == Counter0(iv) && m <= cryptlen0 < TWO32 && Placed(dst, dpos, src, spos, cryptlen0 - m)
    requires spos + cryptlen0 <= src.Length && assoclen <= |Joined(ad)| && assoclen < TWO32
    requires forall x: Bytes :: Joined(view(x)) == x
    modifies dst
    ensures var s := old(src[spos..spos + cryptlen0]);
            && err == (if !Fits(iv, cryptlen0 - m) then -EOVERFLOW else if TagOk(c, iv, Joined(ad)[..assoclen], s, m) then 0 else -EBADMSG)
            && dst[..] == Splice(old(dst[..]), dpos, Plain(c, iv, s, m))
  {
    hide Ctr.Crypted, Tag, Counter0, Splice, Plain;
    ghost var s := src[spos..spos + cryptlen0];
    var cryptlen := cryptlen0 - m;
    var authtag := DecryptText(c, v, src, spos, dst, dpos, cryptlen0, m, rest, walk, iv);
    var text := dst[dpos..dpos + cryptlen];
    assert text[..cryptlen] == text;
    var odata;
    err, odata := Auth(c, v, ad, assoclen, view(text), cryptlen, m);
    if err == 0 && authtag != odata[..m] {
      err := -EBADMSG;
    }
  }

  /** The decryption itself: the text goes to the destination, the received tag, decrypted, is the result. */
  method DecryptText(c: Cipher, v: Bytes, src: array<bv8>, spos: nat, dst: array<bv8>, dpos: nat, cryptlen0: nat, m: nat, rest: Bytes,
                     walk: nat -> nat, ghost iv: Bytes) returns (tag: Bytes)
    requires c.Valid() && c.size == 16 && IsTagSize(m) && Ctr.IsWalk(walk, 16) && |rest| == 16 - m
    requires IsIv(iv) && v == Counter0(iv) && m <= cryptlen0 && Placed(dst, dpos, src, spos, cryptlen0 - m)
    requires spos + cryptlen0 <= src.Length
    modifies dst
    ensures var s, n := old(src[spos..spos + cryptlen0]), cryptlen0 - m;
            && dst[..] == Splice(old(dst[..]), dpos, Plain(c, iv, s, m)) && dst[dpos..dpos + n] == Plain(c, iv, s, m)
            && tag == Ctr.Crypted(c, v, s[n..])
  {
    hide Ctr.Crypted, Tag, Counter0, Splice;
    ghost var s := src[spos..spos + cryptlen0];
    var cryptlen := cryptlen0 - m;
    var authtag, idata := new bv8[16], new bv8[16];
    var received := src[spos + cryptlen..spos + cryptlen0];
    CutReceived(src[..], spos, cryptlen, m);
    SpliceAll(authtag[..], received + rest);
    Put(authtag, 0, received + rest);
    SpliceAll(idata[..], v);
    Put(idata, 0, v);
    assert (received + rest)[..m] == received;
    CryptedApart(c, v, received + rest, s[..cryptlen], m);
    ghost var d0, p := dst[..], Plain(c, iv, s, m);
    CtrList(c, idata, authtag, dst, dpos, src, spos, cryptlen, walk);
    SpliceTwice(d0, dpos, p, p);
    tag := authtag[..m];
  }

  lemma CutReceived(src: Bytes, spos: nat, n: nat, m: nat)
    requires spos + n + m <= |src|
    ensures var s := src[spos..spos + n + m];
            s[n..] == src[spos + n..spos + n + m] && s[..n] == src[spos..spos + n]
  {
  }
}
