/**
 AEGIS-128 on NEON registers.  A partial last block is loaded and stored right-aligned, with
 table lookups that move its bytes, and the block in front of it is written again; the result is
 that of the generic code, byte for byte and in the state.
 */
module AegisNeon {
  import opened Bytes
  import opened Numbers
  import opened Aegis

  // ----- table lookups -----

  /** vqtbl1q_u8: an index out of range gives 0. */
  function Tbl(v: Bytes, idx: seq<nat>): (r: Bytes)
    requires |v| == |idx| == 16
    ensures |r| == 16
  {
    seq(16, i requires 0 <= i < 16 => if idx[i] < 16 then v[idx[i]] else 0)
  }

  /** vqtbx1q_u8: an index out of range keeps the byte of d. */
  function Tbx(d: Bytes, v: Bytes, idx: seq<nat>): (r: Bytes)
    requires |d| == |v| == |idx| == 16
    ensures |r| == 16
  {
    seq(16, i requires 0 <= i < 16 => if idx[i] < 16 then v[idx[i]] else d[i])
  }

  /** Three rows of 16: -1 as a byte, 0 to 15, and -1 again. */
  function Permute(): (p: seq<nat>)
    ensures |p| == 48
    ensures forall i :: 0 <= i < 48 ==> p[i] == if 16 <= i < 32 then i - 16 else 0xff
  {
    seq(16, _ => 0xff) + seq(16, i requires 0 <= i < 16 => i) + seq(16, _ => 0xff)
  }

  /** Moves the last |t| bytes to the front and clears the rest, whatever stood before them. */
  lemma LeftAligned(x: Bytes, t: Bytes)
    requires |x| + |t| == 16
    ensures Tbl(x + t, Permute()[32 - |t|..48 - |t|]) == Pad(t)
  {
  }

  lemma LeftAlignedInto(s: Bytes, x: Bytes, t: Bytes)
    requires |x| + |t| == |s| == 16
    ensures Tbx(s, x + t, Permute()[32 - |t|..48 - |t|]) == t + s[|t|..]
  {
  }

  /** Moves the first n bytes to the end and clears the rest. */
  lemma RightAligned(v: Bytes, n: nat)
    requires |v| == 16 && n <= 16
    ensures Tbl(v, Permute()[n..n + 16]) == Zeros(16 - n) + v[..n]
  {
  }

  // ----- the key stream block, in the order of the intrinsics -----

  function NeonKey(v: seq<Bytes>): (r: Bytes)
    requires IsState(v)
    ensures r == KeyBlock(v)
  {
    NeonKeyOrder(v[1], And(v[2], v[3]), v[4]);
    Xor(Xor(v[1], And(v[2], v[3])), v[4])
  }

  lemma NeonKeyOrder(a: Bytes, b: Bytes, c: Bytes)
    requires |a| == |b| == |c|
    ensures Xor(Xor(a, b), c) == Xor(Xor(b, c), a)
  {
    hide Xor;
    XorComm(a, b);
    XorSwap(b, a, c);
  }

  lemma MaskNeon(v: seq<Bytes>, x: Bytes)
    requires IsState(v) && |x| == 16
    ensures Xor(x, KeyBlock(v)) == Mask(v, x)
    ensures Xor(Xor(Xor(x, v[1]), And(v[2], v[3])), v[4]) == Mask(v, x)
  {
    hide Xor, And, KeyBlock;
    assert KeyBlock(v)[..16] == KeyBlock(v);
    var b := And(v[2], v[3]);
    XorAssoc(x, v[1], b);
    XorAssoc(x, Xor(v[1], b), v[4]);
    assert KeyBlock(v) == NeonKey(v);
  }

  /** What `m ^ s` and `s ^ tbx(s, ...)` are for a tail t. */
  lemma MaskTail(v: seq<Bytes>, t: Bytes)
    requires IsState(v) && |t| <= 16
    ensures Xor(Pad(t), KeyBlock(v))[..|t|] == Mask(v, t)
    ensures Xor(KeyBlock(v), t + KeyBlock(v)[|t|..]) == Pad(Mask(v, t))
  {
    hide XorByte, KeyBlock;
    MaskPadded(v, t);
    var k := KeyBlock(v);
    var k1, k2 := k[..|t|], k[|t|..];
    assert k == k1 + k2;
    XorConcat(k1, t, k2, k2);
    XorComm(k1, t);
    XorSelf(k2);
  }

  lemma XorSelf(a: Bytes)
    ensures Xor(a, a) == Zeros(|a|)
  {
    forall i | 0 <= i < |a| ensures Xor(a, a)[i] == 0 {
    }
  }

  // ----- storing the tail -----

  /** The 16 bytes of d before `pos` are the block msg. */
  ghost predicate EndsWith(d: Bytes, pos: nat, msg: Bytes) {
    16 <= pos <= |d| && d[pos - 16..pos] == msg
  }

  /** The right-aligned store clears the bytes in front of the tail; storing the block before it again repairs them. */
  lemma StoredTwice(d: Bytes, pos: nat, out: Bytes, msg: Bytes)
    requires |out| <= 16 && pos + |out| <= |d| && EndsWith(d, pos, msg)
    ensures Splice(Splice(d, pos + |out| - 16, Zeros(16 - |out|) + out), pos - 16, msg) == Splice(d, pos, out)
  {
    var e := Splice(Splice(d, pos + |out| - 16, Zeros(16 - |out|) + out), pos - 16, msg);
    forall i | 0 <= i < |d| ensures e[i] == Splice(d, pos, out)[i] {
      if pos - 16 <= i < pos {
        assert msg[i - (pos - 16)] == d[i];
      }
    }
  }

  /** How a tail of `size` bytes is put: what precedes it, as loaded, and the result stored. */
  method StoreTail(dst: array<bv8>, dpos: nat, v: Bytes, size: nat, shortInput: bool, msg: Bytes)
    requires |v| == 16 && 0 < size < 16 && dpos + size <= dst.Length
    requires !shortInput ==> EndsWith(dst[..], dpos, msg)
    modifies dst
    ensures dst[..] == Splice(old(dst[..]), dpos, v[..size])
  {
    hide Tbl, Permute, Splice;
    RightAligned(v, size);
    var out := Tbl(v, Permute()[size..size + 16]);
    assert out[16 - size..] == v[..size];
    if shortInput {
      var buf := new bv8[16];
      SpliceAll(buf[..], out);
      Put(buf, 0, out);
      assert buf[16 - size..] == out[16 - size..];
      Put(dst, dpos, buf[16 - size..]);
    } else {
      StoredTwice(dst[..], dpos, v[..size], msg);
      Put(dst, dpos + size - 16, out);
      Put(dst, dpos - 16, msg);
    }
  }

  /** The 16 bytes that end with the tail: out of the source, or out of a buffer whose start holds anything. */
  method LoadTail(src: array<bv8>, spos: nat, size: nat, shortInput: bool) returns (v: Bytes)
    requires 0 < size < 16 && spos + size <= src.Length
    requires !shortInput ==> 16 <= spos
    ensures |v| == 16 && v[16 - size..] == src[spos..spos + size]
  {
    if shortInput {
      var buf := new bv8[16];
      Put(buf, 16 - size, src[spos..spos + size]);
      v := buf[..];
    } else {
      v := src[spos + size - 16..spos + size];
      assert v[16 - size..] == src[spos..spos + size];
    }
  }

  // ----- the chunk functions -----

  lemma TailSplit(v: Bytes, t: Bytes)
    requires |v| == 16 && |t| <= 16 && v[16 - |t|..] == t
    ensures v == v[..16 - |t|] + t
  {
  }

  method EncryptTailNeon(R: Round, st: seq<Bytes>, dst: array<bv8>, dpos: nat, src: array<bv8>, spos: nat, size: nat, shortInput: bool, msg: Bytes)
    returns (st': seq<Bytes>)
    requires IsRound(R) && IsState(st) && Placed(dst, dpos, src, spos, size) && 0 < size < 16
    requires !shortInput ==> 16 <= spos && EndsWith(dst[..], dpos, msg)
    modifies dst
    ensures var x := old(src[spos..spos + size]);
            dst[..] == Splice(old(dst[..]), dpos, Mask(st, x)) && st' == Update(R, st, Pad(x))
  {
    hide Update, Mask, Splice, KeyBlock, Xor, Pad, Tbl, Permute, And;
    ghost var x := src[spos..spos + size];
    var s := NeonKey(st);
    var v := LoadTail(src, spos, size, shortInput);
    TailSplit(v, x);
    LeftAligned(v[..16 - size], x);
    MaskTail(st, x);
    var m := Tbl(v, Permute()[32 - size..48 - size]);
    st' := UpdateNeon(R, st, m);
    StoreTail(dst, dpos, Xor(m, s), size, shortInput, msg);
  }

  method DecryptTailNeon(R: Round, st: seq<Bytes>, dst: array<bv8>, dpos: nat, src: array<bv8>, spos: nat, size: nat, shortInput: bool, msg: Bytes)
    returns (st': seq<Bytes>)
    requires IsRound(R) && IsState(st) && Placed(dst, dpos, src, spos, size) && 0 < size < 16
    requires !shortInput ==> 16 <= spos && EndsWith(dst[..], dpos, msg)
    modifies dst
    ensures var x := Mask(st, old(src[spos..spos + size]));
            dst[..] == Splice(old(dst[..]), dpos, x) && st' == Update(R, st, Pad(x))
  {
    hide Update, Mask, Splice, KeyBlock, Xor, Pad, Tbx, Permute, And;
    ghost var x := src[spos..spos + size];
    var s := NeonKey(st);
    var v := LoadTail(src, spos, size, shortInput);
    TailSplit(v, x);
    LeftAlignedInto(s, v[..16 - size], x);
    MaskTail(st, x);
    var m := Xor(s, Tbx(s, v, Permute()[32 - size..48 - size]));
    PadTake(m, Mask(st, x));
    st' := UpdateNeon(R, st, m);
    StoreTail(dst, dpos, m, size, shortInput, msg);
  }

  method EncryptBlockNeon(R: Round, st: seq<Bytes>, dst: array<bv8>, dpos: nat, src: array<bv8>, spos: nat)
    returns (st': seq<Bytes>, msg: Bytes)
    requires IsRound(R) && IsState(st) && Placed(dst, dpos, src, spos, 16)
    modifies dst
    ensures var x := old(src[spos..spos + 16]);
            && dst[..] == Splice(old(dst[..]), dpos, Mask(st, x)) && st' == Update(R, st, Pad(x))
    ensures EndsWith(dst[..], dpos + 16, msg)
  {
    hide Update, Mask, Splice, Pad, KeyBlock, Xor, And;
    var x := src[spos..spos + 16];
    SpliceTwice(dst[..], dpos, Mask(st, x), Mask(st, x));
    MaskNeon(st, x);
    PadWhole(x);
    var s := NeonKey(st);
    st' := UpdateNeon(R, st, x);
    msg := Xor(x, s);
    Put(dst, dpos, msg);
  }

  method DecryptBlockNeon(R: Round, st: seq<Bytes>, dst: array<bv8>, dpos: nat, src: array<bv8>, spos: nat)
    returns (st': seq<Bytes>, msg: Bytes)
    requires IsRound(R) && IsState(st) && Placed(dst, dpos, src, spos, 16)
    modifies dst
    ensures var x := Mask(st, old(src[spos..spos + 16]));
            && dst[..] == Splice(old(dst[..]), dpos, x) && st' == Update(R, st, Pad(x))
    ensures EndsWith(dst[..], dpos + 16, msg)
  {
    hide Update, Mask, Splice, Pad, KeyBlock, Xor, And;
    var x := src[spos..spos + 16];
    SpliceTwice(dst[..], dpos, Mask(st, x), Mask(st, x));
    MaskNeon(st, x);
    PadWhole(Mask(st, x));
    msg := Xor(Xor(Xor(x, st[1]), And(st[2], st[3])), st[4]);
    st' := UpdateNeon(R, st, msg);
    Put(dst, dpos, msg);
  }

  /** One turn of the loop of crypto_aegis128_encrypt_chunk_neon. */
  method EncryptTurnNeon(R: Round, st0: seq<Bytes>, st1: seq<Bytes>, dst: array<bv8>, dpos: nat, src: array<bv8>, spos: nat, size: nat, at: nat,
                         ghost d0: Bytes, ghost p: Bytes)
    returns (st: seq<Bytes>, msg: Bytes)
    requires IsRound(R) && IsState(st0) && Placed(dst, dpos, src, spos, size) && |p| == size && |d0| == dst.Length && at + 16 <= size
    requires EncryptDone(R, st0, d0, dpos, p, at, dst[..], st1) && Ahead(src[..], spos, p, at)
    modifies dst
    ensures EncryptDone(R, st0, d0, dpos, p, at + 16, dst[..], st) && Ahead(src[..], spos, p, at + 16)
    ensures EndsWith(dst[..], dpos + at + 16, msg)
  {
    hide Update, Mask, Splice, Pad, EncryptDone, Ahead, EndsWith;
    AheadNext(src[..], spos, p, at, 16);
    EncryptTurn(R, st0, d0, dpos, p, at, 16, dst[..], st1);
    if src == dst {
      AheadSplice(src[..], spos, p, at, 16, Mask(st1, p[at..at + 16]));
    }
    st, msg := EncryptBlockNeon(R, st1, dst, dpos + at, src, spos + at);
  }

  /** The loop of crypto_aegis128_encrypt_chunk_neon; msg is the last block stored. */
  method EncryptBlocksNeon(R: Round, st0: seq<Bytes>, dst: array<bv8>, dpos: nat, src: array<bv8>, spos: nat, size: nat)
    returns (left: nat, st: seq<Bytes>, msg: Bytes)
    requires IsRound(R) && IsState(st0) && Placed(dst, dpos, src, spos, size)
    modifies dst
    ensures left < 16 && left <= size && (left < size ==> 16 <= size - left)
    ensures EncryptDone(R, st0, old(dst[..]), dpos, old(src[spos..spos + size]), size - left, dst[..], st)
    ensures Ahead(src[..], spos, old(src[spos..spos + size]), size - left)
    ensures left < size ==> EndsWith(dst[..], dpos + size - left, msg)
  {
    hide Update, Mask, Splice, Pad, EncryptDone, Ahead, EndsWith;
    ghost var d0, p := dst[..], src[spos..spos + size];
    var at: nat := 0;
    left, st, msg := size, st0, [];
    EncryptStart(R, st0, d0, dpos, src[..], spos, p);
    while left >= 16
      invariant at + left == size && (at != 0 ==> 16 <= at)
      invariant EncryptDone(R, st0, d0, dpos, p, at, dst[..], st)
      invariant Ahead(src[..], spos, p, at)
      invariant at != 0 ==> EndsWith(dst[..], dpos + at, msg)
    {
      st, msg := EncryptTurnNeon(R, st0, st, dst, dpos, src, spos, size, at, d0, p);
      left, at := left - 16, at + 16;
    }
  }

  /** One turn of the loop of crypto_aegis128_decrypt_chunk_neon. */
  method DecryptTurnNeon(R: Round, st0: seq<Bytes>, st1: seq<Bytes>, dst: array<bv8>, dpos: nat, src: array<bv8>, spos: nat, size: nat, at: nat,
                         ghost d0: Bytes, ghost c: Bytes)
    returns (st: seq<Bytes>, msg: Bytes)
    requires IsRound(R) && IsState(st0) && Placed(dst, dpos, src, spos, size) && |c| == size && |d0| == dst.Length && at + 16 <= size
    requires DecryptDone(R, st0, d0, dpos, c, at, dst[..], st1) && Ahead(src[..], spos, c, at)
    modifies dst
    ensures DecryptDone(R, st0, d0, dpos, c, at + 16, dst[..], st) && Ahead(src[..], spos, c, at + 16)
    ensures EndsWith(dst[..], dpos + at + 16, msg)
  {
    hide Update, Mask, Splice, Pad, DecryptDone, Ahead, EndsWith;
    AheadNext(src[..], spos, c, at, 16);
    DecryptTurn(R, st0, d0, dpos, c, at, 16, dst[..], st1);
    if src == dst {
      AheadSplice(src[..], spos, c, at, 16, Mask(st1, c[at..at + 16]));
    }
    st, msg := DecryptBlockNeon(R, st1, dst, dpos + at, src, spos + at);
  }

  /** The loop of crypto_aegis128_decrypt_chunk_neon. */
  method DecryptBlocksNeon(R: Round, st0: seq<Bytes>, dst: array<bv8>, dpos: nat, src: array<bv8>, spos: nat, size: nat)
    returns (left: nat, st: seq<Bytes>, msg: Bytes)
    requires IsRound(R) && IsState(st0) && Placed(dst, dpos, src, spos, size)
    modifies dst
    ensures left < 16 && left <= size && (left < size ==> 16 <= size - left)
    ensures DecryptDone(R, st0, old(dst[..]), dpos, old(src[spos..spos + size]), size - left, dst[..], st)
    ensures Ahead(src[..], spos, old(src[spos..spos + size]), size - left)
    ensures left < size ==> EndsWith(dst[..], dpos + size - left, msg)
  {
    hide Update, Mask, Splice, Pad, DecryptDone, Ahead, EndsWith;
    ghost var d0, c := dst[..], src[spos..spos + size];
    var at: nat := 0;
    left, st, msg := size, st0, [];
    DecryptStart(R, st0, d0, dpos, src[..], spos, c);
    while left >= 16
      invariant at + left == size && (at != 0 ==> 16 <= at)
      invariant DecryptDone(R, st0, d0, dpos, c, at, dst[..], st)
      invariant Ahead(src[..], spos, c, at)
      invariant at != 0 ==> EndsWith(dst[..], dpos + at, msg)
    {
      st, msg := DecryptTurnNeon(R, st0, st, dst, dpos, src, spos, size, at, d0, c);
      left, at := left - 16, at + 16;
    }
  }

  /** crypto_aegis128_encrypt_chunk_neon: the bytes and the state of the generic function. */
  method EncryptChunkNeon(R: Round, state: AegisState, dst: array<bv8>, dpos: nat, src: array<bv8>, spos: nat, size: nat)
    requires IsRound(R) && IsState(state.blocks) && Placed(dst, dpos, src, spos, size)
    modifies state, dst
    ensures var p := old(src[spos..spos + size]);
            && dst[..] == Splice(old(dst[..]), dpos, Encrypted(R, old(state.blocks), p))
            && state.blocks == Absorb(R, old(state.blocks), p)
  {
    hide Update, Absorb, Encrypted, Mask, Splice, Pad, EncryptDone, Ahead, EndsWith, And, KeyBlock, Xor;
    ghost var s, d0, p := state.blocks, dst[..], src[spos..spos + size];
    var shortInput := size < 16;
    var left, st, msg := EncryptBlocksNeon(R, state.blocks, dst, dpos, src, spos, size);
    var at := size - left;
    if left > 0 {
      AheadNext(src[..], spos, p, at, left);
      EncryptTurn(R, s, d0, dpos, p, at, left, dst[..], st);
      st := EncryptTailNeon(R, st, dst, dpos + at, src, spos + at, left, shortInput, msg);
    } else {
      EncryptEnd(R, s, d0, dpos, p, dst[..], st);
    }
    state.blocks := st;
  }

  /** crypto_aegis128_decrypt_chunk_neon */
  method DecryptChunkNeon(R: Round, state: AegisState, dst: array<bv8>, dpos: nat, src: array<bv8>, spos: nat, size: nat)
    requires IsRound(R) && IsState(state.blocks) && Placed(dst, dpos, src, spos, size)
    modifies state, dst
    ensures var p := Decrypted(R, old(state.blocks), old(src[spos..spos + size]));
            && dst[..] == Splice(old(dst[..]), dpos, p)
            && state.blocks == Absorb(R, old(state.blocks), p)
  {
    hide Update, Absorb, Decrypted, Mask, Splice, Pad, DecryptDone, Ahead, EndsWith, And, KeyBlock, Xor;
    ghost var s, d0, c := state.blocks, dst[..], src[spos..spos + size];
    var shortInput := size < 16;
    var left, st, msg := DecryptBlocksNeon(R, state.blocks, dst, dpos, src, spos, size);
    var at := size - left;
    if left > 0 {
      AheadNext(src[..], spos, c, at, left);
      DecryptTurn(R, s, d0, dpos, c, at, left, dst[..], st);
      st := DecryptTailNeon(R, st, dst, dpos + at, src, spos + at, left, shortInput, msg);
    } else {
      DecryptEnd(R, s, d0, dpos, c, dst[..], st);
    }
    state.blocks := st;
  }
}
