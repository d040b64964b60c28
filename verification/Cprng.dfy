/**
 The X9.31 generator of ansi_cprng.c: however a text of requests is cut, the bytes handed out are
 successive bytes of one block stream, through the jumps between partial and whole blocks; a
 repeated block stops it until it is reset.
 */
module Cprng {
  import opened Bytes
  import opened Numbers
  import Ctr

  const EINVAL := 22
  const DEFAULT_BLK_SZ := 16
  const DEFAULT_V_SEED: Bytes := [0x7a, 0x61, 0x79, 0x62, 0x78, 0x63, 0x77, 0x64, 0x76, 0x65, 0x75, 0x66, 0x74, 0x67, 0x73, 0x68]

  // ----- the block stream -----

  /** Counter, seed vector and the block given out last. */
  datatype Gen = Gen(dt: Bytes, v: Bytes, last: Bytes)

  predicate IsGen(g: Gen) {
    |g.dt| == |g.v| == |g.last| == DEFAULT_BLK_SZ
  }

  ghost predicate IsCipher(c: Cipher) {
    c.Valid() && c.size == DEFAULT_BLK_SZ
  }

  /** The next block: R = E(I xor V) with I = E(DT). */
  function Block(c: Cipher, g: Gen): (r: Bytes)
    requires IsCipher(c) && IsGen(g)
    ensures |r| == DEFAULT_BLK_SZ
  {
    c.enc(Xor(c.enc(g.dt), g.v))
  }

  /** The state after that block: V = E(R xor I), and DT counts up. */
  function Next(c: Cipher, g: Gen): (h: Gen)
    requires IsCipher(c) && IsGen(g)
    ensures IsGen(h) && h.last == Block(c, g)
  {
    var r := Block(c, g);
    Gen(Ctr.Inc(g.dt), c.enc(Xor(r, c.enc(g.dt))), r)
  }

  /**
   Undone with the cipher's inverse: deciphering the block and the next V gives the same two values
   I xor V and I xor R, with I the encrypted counter, and the counter moves on by one.
   */
  lemma NextUndone(c: Cipher, g: Gen)
    requires IsCipher(c) && IsGen(g) && c.Invertible()
    ensures var h := Next(c, g);
            && Xor(c.dec(h.v), c.dec(h.last)) == Xor(h.last, g.v)
            && c.dec(Xor(c.dec(h.last), g.v)) == g.dt && c.dec(Xor(c.dec(h.v), h.last)) == g.dt
            && Be(h.dt) == (Be(g.dt) + 1) % Pow256(DEFAULT_BLK_SZ)
  {
    hide Xor, Ctr.Inc, Be, Pow256;
    var r, i := Block(c, g), c.enc(g.dt);
    Ctr.IncModulo(g.dt);
    XorCancel(i, g.v);
    XorComm(r, i);
    XorCancel(i, r);
    XorSwap(Xor(i, r), i, g.v);
    XorComm(i, r);
    XorCancel(r, i);
    XorAssoc(Xor(r, i), i, g.v);
  }

  /** The repetition check. */
  predicate Repeats(c: Cipher, g: Gen)
    requires IsCipher(c) && IsGen(g)
  {
    Block(c, g) == g.last
  }

  function StateAt(c: Cipher, g: Gen, k: nat): (h: Gen)
    requires IsCipher(c) && IsGen(g)
    ensures IsGen(h)
    decreases k
  {
    if k == 0 then g else StateAt(c, Next(c, g), k - 1)
  }

  /** The first k blocks from a state on, whether or not they repeat. */
  function Stream(c: Cipher, g: Gen, k: nat): (r: Bytes)
    requires IsCipher(c) && IsGen(g)
    ensures |r| == k * DEFAULT_BLK_SZ
    decreases k
  {
    if k == 0 then [] else Block(c, g) + Stream(c, Next(c, g), k - 1)
  }

  // ----- taking bytes from it -----

  datatype Outcome = Done(out: Bytes, unread: Bytes, gen: Gen) | Tripped

  function Prefixed(x: Bytes, o: Outcome): Outcome {
    if o.Done? then o.(out := x + o.out) else o
  }

  /** n bytes, from those unread first. */
  function Produced(c: Cipher, unread: Bytes, g: Gen, n: nat): (o: Outcome)
    requires IsCipher(c) && IsGen(g)
    ensures o.Done? ==> |o.out| == n && IsGen(o.gen)
    decreases n, if |unread| == 0 then 1 else 0
  {
    if n <= |unread| then Done(unread[..n], unread[n..], g)
    else if Repeats(c, g) then Tripped
    else Prefixed(unread, Produced(c, Block(c, g), Next(c, g), n - |unread|))
  }

  lemma TakeSome(c: Cipher, unread: Bytes, g: Gen, n: nat, k: nat)
    requires IsCipher(c) && IsGen(g) && k <= |unread| && k <= n
    ensures Produced(c, unread, g, n) == Prefixed(unread[..k], Produced(c, unread[k..], g, n - k))
  {
    if n <= |unread| {
      assert unread[..n] == unread[..k] + unread[k..][..n - k] && unread[n..] == unread[k..][n - k..];
    } else {
      assert unread == unread[..k] + unread[k..];
      var o := Produced(c, Block(c, g), Next(c, g), n - |unread|);
      if o.Done? {
        ConcatAssoc(unread[..k], unread[k..], o.out);
      }
    }
  }

  lemma Refill(c: Cipher, g: Gen, n: nat)
    requires IsCipher(c) && IsGen(g) && 0 < n
    ensures Produced(c, [], g, n) == if Repeats(c, g) then Tripped else Produced(c, Block(c, g), Next(c, g), n)
  {
    var o := Produced(c, Block(c, g), Next(c, g), n);
    if o.Done? {
      assert [] + o.out == o.out;
    }
  }

  /** Two requests in a row take what one of both sizes takes. */
  lemma {:induction false} ProducedConcat(c: Cipher, unread: Bytes, g: Gen, n: nat, m: nat)
    requires IsCipher(c) && IsGen(g)
    ensures var o := Produced(c, unread, g, n);
            Produced(c, unread, g, n + m) == if o.Done? then Prefixed(o.out, Produced(c, o.unread, o.gen, m)) else Tripped
    decreases n, if |unread| == 0 then 1 else 0
  {
    if n <= |unread| {
      TakeSome(c, unread, g, n + m, n);
    } else if !Repeats(c, g) {
      ProducedConcat(c, Block(c, g), Next(c, g), n - |unread|, m);
      var o := Produced(c, Block(c, g), Next(c, g), n - |unread|);
      if o.Done? {
        var q := Produced(c, o.unread, o.gen, m);
        if q.Done? {
          ConcatAssoc(unread, o.out, q.out);
        }
      }
    }
  }

  /** The bytes are those of the block stream, in order; the request fails exactly when a block it needs repeats the one before. */
  lemma {:induction false} ProducedIsStream(c: Cipher, unread: Bytes, g: Gen, n: nat, k: nat)
    requires IsCipher(c) && IsGen(g)
    requires n <= |unread| + k * DEFAULT_BLK_SZ && (0 < k ==> |unread| + (k - 1) * DEFAULT_BLK_SZ < n)
    ensures var o := Produced(c, unread, g, n);
            && (o.Tripped? <==> RepeatsWithin(c, g, k))
            && (o.Done? ==> o.out == (unread + Stream(c, g, k))[..n] && o.unread == (unread + Stream(c, g, k))[n..] && o.gen == StateAt(c, g, k))
    decreases k
  {
    hide Block, Repeats, Next, RepeatsWithin;
    WithinNext(c, g, k);
    if k == 0 {
      assert unread + Stream(c, g, 0) == unread;
    } else {
      if !Repeats(c, g) {
        var b, h := Block(c, g), Next(c, g);
        ProducedIsStream(c, b, h, n - |unread|, k - 1);
        if Produced(c, b, h, n - |unread|).Done? {
          StreamSlice(unread, b + Stream(c, h, k - 1), n);
        }
      }
    }
  }

  lemma StreamSlice(u: Bytes, s: Bytes, n: nat)
    requires |u| <= n <= |u| + |s|
    ensures (u + s)[..n] == u + s[..n - |u|] && (u + s)[n..] == s[n - |u|..]
  {
  }

  /** One of the first k blocks repeats the block before it. */
  ghost predicate RepeatsWithin(c: Cipher, g: Gen, k: nat)
    requires IsCipher(c) && IsGen(g)
  {
    exists j :: 0 <= j < k && Repeats(c, StateAt(c, g, j))
  }

  lemma WithinNext(c: Cipher, g: Gen, k: nat)
    requires IsCipher(c) && IsGen(g)
    ensures RepeatsWithin(c, g, k) <==> 0 < k && (Repeats(c, g) || RepeatsWithin(c, Next(c, g), k - 1))
  {
    hide Block, Repeats, Next;
    if j :| 0 <= j < k && Repeats(c, StateAt(c, g, j)) {
      if j != 0 {
        assert StateAt(c, g, j) == StateAt(c, Next(c, g), j - 1);
      }
    }
    if 0 < k && Repeats(c, g) {
      assert Repeats(c, StateAt(c, g, 0));
    }
    if 0 < k && RepeatsWithin(c, Next(c, g), k - 1) {
      var j :| 0 <= j < k - 1 && Repeats(c, StateAt(c, Next(c, g), j));
      assert StateAt(c, g, j + 1) == StateAt(c, Next(c, g), j);
    }
  }

  // ----- a run of calls -----

  /** A generator as its callers see it; `fixedSize` is PRNG_FIXED_SIZE. */
  datatype Prng = Prng(cipher: Cipher, unread: Bytes, gen: Gen, needReset: bool, fixedSize: bool)

  ghost predicate IsPrng(p: Prng) {
    IsCipher(p.cipher) && IsGen(p.gen)
  }

  datatype Answer = Given(bytes: Bytes) | Zeroed | Refused

  predicate Refuses(p: Prng, n: nat) {
    p.needReset || (p.fixedSize && n < DEFAULT_BLK_SZ)
  }

  function Wanted(p: Prng, n: nat): nat {
    if p.fixedSize then DEFAULT_BLK_SZ else n
  }

  function AnswerOf(p: Prng, n: nat): (a: Answer)
    requires IsPrng(p)
  {
    if Refuses(p, n) then Refused
    else
      var o := Produced(p.cipher, p.unread, p.gen, Wanted(p, n));
      if o.Done? then Given(o.out) else Zeroed
  }

  /** The generator after a call; once it has tripped only the flag matters. */
  function AfterCall(p: Prng, n: nat): (q: Prng)
    requires IsPrng(p)
    ensures IsPrng(q)
  {
    if Refuses(p, n) then p
    else
      var o := Produced(p.cipher, p.unread, p.gen, Wanted(p, n));
      if o.Done? then p.(unread := o.unread, gen := o.gen) else p.(needReset := true)
  }

  function AfterCalls(p: Prng, ns: seq<nat>): (q: Prng)
    requires IsPrng(p)
    ensures IsPrng(q)
    decreases |ns|
  {
    if |ns| == 0 then p else AfterCalls(AfterCall(p, ns[0]), ns[1..])
  }

  /** All bytes given out over a run of calls, or the first answer that is not bytes. */
  function GivenBy(p: Prng, ns: seq<nat>): Answer
    requires IsPrng(p)
    decreases |ns|
  {
    if |ns| == 0 then Given([])
    else
      var a := AnswerOf(p, ns[0]);
      if !a.Given? then a
      else
        var rest := GivenBy(AfterCall(p, ns[0]), ns[1..]);
        if rest.Given? then Given(a.bytes + rest.bytes) else rest
  }

  function Sum(ns: seq<nat>): nat {
    if |ns| == 0 then 0 else ns[0] + Sum(ns[1..])
  }

  /** Over any run of calls that all succeed, the bytes are those of one call for the sum of the sizes. */
  lemma {:induction false} SizesDoNotMatter(p: Prng, ns: seq<nat>)
    requires IsPrng(p) && !p.needReset && !p.fixedSize
    ensures GivenBy(p, ns).Given? ==>
              GivenBy(p, ns) == AnswerOf(p, Sum(ns)) && AfterCalls(p, ns) == AfterCall(p, Sum(ns))
    ensures GivenBy(p, ns).Given? <==> AnswerOf(p, Sum(ns)).Given?
    decreases |ns|
  {
    hide Produced;
    if |ns| == 0 {
      NothingProduced(p);
    } else {
      ProducedConcat(p.cipher, p.unread, p.gen, ns[0], Sum(ns[1..]));
      if AnswerOf(p, ns[0]).Given? {
        SizesDoNotMatter(AfterCall(p, ns[0]), ns[1..]);
      }
    }
  }

  lemma NothingProduced(p: Prng)
    requires IsPrng(p)
    ensures Produced(p.cipher, p.unread, p.gen, 0) == Done([], p.unread, p.gen)
  {
  }

  /** After a call that tripped, every later call is refused. */
  lemma {:induction false} StoppedForGood(p: Prng, n: nat, ns: seq<nat>, m: nat)
    requires IsPrng(p) && AnswerOf(p, n).Zeroed?
    ensures AnswerOf(AfterCalls(AfterCall(p, n), ns), m).Refused?
  {
    hide Produced;
    StillStopped(AfterCall(p, n), ns);
  }

  lemma {:induction false} StillStopped(p: Prng, ns: seq<nat>)
    requires IsPrng(p) && p.needReset
    ensures AfterCalls(p, ns) == p
    decreases |ns|
  {
    hide Produced;
    if |ns| != 0 {
      StillStopped(p, ns[1..]);
    }
  }

  // ----- the context -----

  datatype Phase = Remainder | EmptyRbuf | WholeBlocks | Finish

  class PrngContext {
    var tfm: Cipher
    var randData: Bytes
    var lastRandData: Bytes
    const DT: array<bv8>
    var I: Bytes
    var V: Bytes
    var randDataValid: nat
    var needReset: bool
    var fixedSize: bool

    ghost predicate Valid()
      reads this, DT
    {
      && IsCipher(tfm) && |randData| == |lastRandData| == |V| == |I| == DT.Length == DEFAULT_BLK_SZ
      && randDataValid <= DEFAULT_BLK_SZ
    }

    ghost function Generator(): Gen
      reads this, DT
    {
      Gen(DT[..], V, lastRandData)
    }

    /** The generator this context stands for: the unread bytes are those from rand_data_valid on. */
    ghost function Abs(): (p: Prng)
      requires Valid()
      reads this, DT
      ensures IsPrng(p)
    {
      Prng(tfm, randData[randDataValid..], Generator(), needReset, fixedSize)
    }

    constructor (tfm: Cipher, fixedSize: bool)
      requires IsCipher(tfm)
      ensures Valid() && fresh(DT)
    {
      this.tfm, this.fixedSize := tfm, fixedSize;
      var z := Zeros(DEFAULT_BLK_SZ);
      randData, lastRandData, I, V := z, z, z, z;
      DT := new bv8[DEFAULT_BLK_SZ];
      randDataValid, needReset := DEFAULT_BLK_SZ, true;
    }

    /** _get_more_prng_bytes: the three stages, then the counter.  With contTest a repeated block is a panic. */
    method GetMorePrngBytes(contTest: bool) returns (err: int, panicked: bool)
      requires Valid() && randDataValid == DEFAULT_BLK_SZ
      modifies this, DT
      ensures Valid() && tfm == old(tfm) && fixedSize == old(fixedSize)
      ensures err == if old(Repeats(tfm, Generator())) then -EINVAL else 0
      ensures panicked <==> contTest && old(Repeats(tfm, Generator()))
      ensures err == 0 ==> randDataValid == 0 && randData == old(Block(tfm, Generator()))
                           && Generator() == old(Next(tfm, Generator())) && needReset == old(needReset)
      ensures err != 0 && !panicked ==> needReset && randDataValid == DEFAULT_BLK_SZ && Generator() == old(Generator())
    {
      hide Xor, Ctr.Inc;
      panicked := false;
      ghost var g := Generator();
      var i := 0;
      while i < 3
        invariant 0 <= i <= 3 && Valid() && DT[..] == g.dt && tfm == old(tfm) && fixedSize == old(fixedSize)
        invariant randDataValid == DEFAULT_BLK_SZ && needReset == old(needReset) && !panicked
        invariant i >= 1 ==> I == tfm.enc(g.dt)
        invariant i < 3 ==> V == g.v && lastRandData == g.last
        invariant i >= 2 ==> randData == Block(tfm, g)
        invariant i == 3 ==> !Repeats(tfm, g) && Gen(Ctr.Inc(g.dt), V, lastRandData) == Next(tfm, g)
      {
        if i == 0 {
          I := tfm.enc(DT[..]);
        } else if i == 1 {
          randData := tfm.enc(Xor(I, V));
        } else {
          if randData == lastRandData {
            if contTest {
              return -EINVAL, true;
            }
            needReset := true;
            return -EINVAL, false;
          }
          lastRandData := randData;
          V := tfm.enc(Xor(randData, I));
        }
        i := i + 1;
      }
      assert g.dt[..DT.Length] == g.dt && g.dt + Zeros(0) == g.dt && Ctr.Inc(g.dt) + Zeros(0) == Ctr.Inc(g.dt);
      Ctr.CryptoIncByte(DT, DT.Length, g.dt);
      randDataValid := 0;
      err := 0;
    }

    /**
     get_prng_bytes for at least one byte, its labels as phases: `Remainder` refills the block,
     `EmptyRbuf` copies what is left of it byte by byte, `WholeBlocks` is the loop over whole blocks.
     The size is an unsigned int, as the callers' dlen is.
     */
    method GetPrngBytes(buf: array<bv8>, nbytes: nat, doContTest: bool) returns (err: int, panicked: bool)
      requires Valid() && 1 <= nbytes <= buf.Length && nbytes < 0x1_0000_0000 && buf != DT
      modifies this, DT, buf
      ensures Valid() && (err == 0 <==> old(AnswerOf(Abs(), nbytes)).Given?) && (err != 0 ==> err == -EINVAL)
      ensures panicked <==> doContTest && old(AnswerOf(Abs(), nbytes)).Zeroed?
      ensures match old(AnswerOf(Abs(), nbytes))
              case Given(out) => buf[..] == Splice(old(buf[..]), 0, out) && Abs() == old(AfterCall(Abs(), nbytes))
              case Zeroed => panicked || (buf[..] == Splice(old(buf[..]), 0, Zeros(nbytes)) && needReset)
              case Refused => buf[..] == old(buf[..]) && Abs() == old(Abs())
    {
      hide Produced, Splice, Repeats, Block, Next, Zeros;
      ghost var p := Abs();
      if needReset {
        return -EINVAL, false;
      }
      var byteCount := nbytes % 0x1_0000_0000;
      if fixedSize {
        if nbytes < DEFAULT_BLK_SZ {
          return -EINVAL, false;
        }
        byteCount := DEFAULT_BLK_SZ;
      }
      err, panicked := Copy(buf, byteCount, doContTest);
      if panicked {
        return;
      }
      if err != 0 {
        ghost var d := old(buf[..]);
        ghost var x :| |x| <= byteCount && buf[..] == Splice(d, 0, x);
        Overwritten(d, x, Zeros(nbytes));
        Put(buf, 0, Zeros(nbytes));
      }
    }

    /** reset_prng_context; `keyed` is whether the key was accepted, `cipher` the cipher under it. */
    method ResetPrngContext(keyed: bool, cipher: Cipher, v: Bytes, dt: Bytes) returns (err: int)
      requires Valid() && IsCipher(cipher) && (v == [] || |v| == DEFAULT_BLK_SZ) && (dt == [] || |dt| == DEFAULT_BLK_SZ)
      modifies this, DT
      ensures Valid() && err == if keyed then 0 else -EINVAL
      ensures needReset == !keyed
      ensures keyed ==> Abs() == Prng(cipher, [], Gen(if dt == [] then Zeros(DEFAULT_BLK_SZ) else dt,
                                                      if v == [] then DEFAULT_V_SEED else v, Zeros(DEFAULT_BLK_SZ)), false, old(fixedSize))
    {
      hide Splice;
      needReset := true;
      V := if v != [] then v else DEFAULT_V_SEED;
      ghost var d := DT[..];
      SpliceAll(d, if dt != [] then dt else Zeros(DEFAULT_BLK_SZ));
      Put(DT, 0, if dt != [] then dt else Zeros(DEFAULT_BLK_SZ));
      randData, lastRandData := Zeros(DEFAULT_BLK_SZ), Zeros(DEFAULT_BLK_SZ);
      randDataValid := DEFAULT_BLK_SZ;
      if !keyed {
        return -EINVAL;
      }
      tfm := cipher;
      err := 0;
      needReset := false;
      assert randData[randDataValid..] == [];
    }

    /** The next n unread bytes go to the buffer. */
    method Take(buf: array<bv8>, at: nat, byteCount: nat, n: nat, ghost d: Bytes, ghost out: Bytes, ghost o: Outcome) returns (ghost out': Bytes)
      requires Valid() && randDataValid + n <= DEFAULT_BLK_SZ && (n == 1 || n == DEFAULT_BLK_SZ)
      requires n <= byteCount && at + byteCount <= buf.Length && buf != DT && |out| == at && |d| == buf.Length && buf[..] == Splice(d, 0, out)
      requires o == Prefixed(out, Produced(tfm, randData[randDataValid..], Generator(), byteCount))
      modifies this`randDataValid, buf
      ensures Valid() && randDataValid == old(randDataValid) + n && |out'| == at + n && buf[..] == Splice(d, 0, out')
      ensures o == Prefixed(out', Produced(tfm, randData[randDataValid..], Generator(), byteCount - n))
    {
      hide Produced, Splice, Repeats, Block, Next;
      CopyTurn(tfm, randData, randDataValid, Generator(), byteCount, n, d, out, o);
      out' := out + randData[randDataValid..randDataValid + n];
      if n == 1 {
        Put(buf, at, [randData[randDataValid]]);
      } else {
        Put(buf, at, randData);
      }
      randDataValid := randDataValid + n;
    }

    /** From the label `remainder` on. */
    method Copy(buf: array<bv8>, total: nat, contTest: bool) returns (err: int, panicked: bool)
      requires Valid() && 1 <= total <= buf.Length && buf != DT && !needReset
      modifies this, DT, buf
      ensures Valid() && tfm == old(tfm) && fixedSize == old(fixedSize) && (err == 0 || err == -EINVAL)
      ensures var o := old(Produced(tfm, randData[randDataValid..], Generator(), total));
              && (err == 0 <==> o.Done?) && (panicked <==> contTest && !o.Done?)
              && (err == 0 ==> buf[..] == Splice(old(buf[..]), 0, o.out) && randData[randDataValid..] == o.unread
                               && Generator() == o.gen && !needReset)
              && (err != 0 && !panicked ==> needReset && exists x: Bytes :: |x| <= total && buf[..] == Splice(old(buf[..]), 0, x))
    {
      hide Produced, Splice, Repeats, Block, Next;
      ghost var d, o := buf[..], Produced(tfm, randData[randDataValid..], Generator(), total);
      ghost var out: Bytes := [];
      var byteCount: nat, at: nat := total, 0;
      var phase := Remainder;
      panicked := false;
      CopyStart(d, o);
      while phase != Finish
        invariant Valid() && tfm == old(tfm) && fixedSize == old(fixedSize) && !needReset && !panicked
        invariant at + byteCount == total && |out| == at && buf[..] == Splice(d, 0, out)
        invariant o == Prefixed(out, Produced(tfm, randData[randDataValid..], Generator(), byteCount))
        invariant phase == Remainder || phase == EmptyRbuf ==> 0 < byteCount
        invariant phase == EmptyRbuf ==> randDataValid < DEFAULT_BLK_SZ
        invariant phase == Finish ==> byteCount == 0
        decreases byteCount, Rank(phase, byteCount)
      {
        match phase
        case Remainder =>
          if randDataValid == DEFAULT_BLK_SZ {
            err, panicked := RefillBuffer(contTest, o, out, byteCount);
            if err != 0 {
              return;
            }
          }
          phase := if byteCount < DEFAULT_BLK_SZ then EmptyRbuf else WholeBlocks;
        case EmptyRbuf =>
          out := Take(buf, at, byteCount, 1, d, out, o);
          at, byteCount := at + 1, byteCount - 1;
          phase := if byteCount == 0 then Finish else if randDataValid < DEFAULT_BLK_SZ then EmptyRbuf else WholeBlocks;
        case WholeBlocks =>
          if byteCount >= DEFAULT_BLK_SZ {
            if randDataValid == DEFAULT_BLK_SZ {
              err, panicked := RefillBuffer(contTest, o, out, byteCount);
              if err != 0 {
                return;
              }
            }
            if randDataValid > 0 {
              phase := EmptyRbuf;
            } else {
              out := Take(buf, at, byteCount, DEFAULT_BLK_SZ, d, out, o);
              at, byteCount := at + DEFAULT_BLK_SZ, byteCount - DEFAULT_BLK_SZ;
            }
          } else {
            phase := if byteCount != 0 then Remainder else Finish;
          }
      }
      CopyEnd(tfm, randData[randDataValid..], Generator(), out);
      err := 0;
    }

    /** The call of _get_more_prng_bytes on an empty buffer, within a request that still wants n bytes. */
    method RefillBuffer(contTest: bool, ghost o: Outcome, ghost out: Bytes, ghost n: nat) returns (err: int, panicked: bool)
      requires Valid() && randDataValid == DEFAULT_BLK_SZ && !needReset && 0 < n
      requires o == Prefixed(out, Produced(tfm, randData[randDataValid..], Generator(), n))
      modifies this, DT
      ensures Valid() && tfm == old(tfm) && fixedSize == old(fixedSize)
      ensures err == 0 ==> randDataValid == 0 && !needReset && o == Prefixed(out, Produced(tfm, randData[randDataValid..], Generator(), n))
      ensures err != 0 ==> err == -EINVAL && o.Tripped? && (panicked || needReset)
      ensures panicked <==> contTest && err != 0
    {
      hide Produced, Repeats, Block, Next;
      ghost var g := Generator();
      assert randData[randDataValid..] == [];
      Refill(tfm, g, n);
      err, panicked := GetMorePrngBytes(contTest);
      assert err == 0 ==> randData[0..] == randData;
    }
  }

  /** Orders the phases within one count of bytes left. */
  function Rank(phase: Phase, byteCount: nat): nat {
    match phase
    case Remainder => if byteCount < DEFAULT_BLK_SZ then 1 else 3
    case EmptyRbuf => 0
    case WholeBlocks => 2
    case Finish => 0
  }

  lemma CopyStart(d: Bytes, o: Outcome)
    ensures d == Splice(d, 0, []) && o == Prefixed([], o)
  {
    SpliceNone(d, 0);
    if o.Done? {
      assert [] + o.out == o.out;
    }
  }

  /** k bytes from position `at` of the block go out. */
  lemma CopyTurn(c: Cipher, r: Bytes, at: nat, g: Gen, n: nat, k: nat, d: Bytes, out: Bytes, o: Outcome)
    requires IsCipher(c) && IsGen(g) && at + k <= |r| && k <= n && |out| + k <= |d|
    requires o == Prefixed(out, Produced(c, r[at..], g, n))
    ensures var x := r[at..at + k];
            && Splice(Splice(d, 0, out), |out|, x) == Splice(d, 0, out + x)
            && o == Prefixed(out + x, Produced(c, r[at + k..], g, n - k))
            && (k == 1 ==> x == [r[at]]) && (k == |r| ==> x == r)
  {
    hide Produced, Splice;
    var x := r[at..at + k];
    SpliceSnoc(d, 0, out, x);
    TakeSome(c, r[at..], g, n, k);
    assert r[at..][..k] == x && r[at..][k..] == r[at + k..];
    var q := Produced(c, r[at + k..], g, n - k);
    if q.Done? {
      ConcatAssoc(out, x, q.out);
    }
  }

  lemma CopyEnd(c: Cipher, unread: Bytes, g: Gen, out: Bytes)
    requires IsCipher(c) && IsGen(g)
    ensures Prefixed(out, Produced(c, unread, g, 0)) == Done(out, unread, g)
  {
    assert Produced(c, unread, g, 0) == Done([], unread, g);
  }

  lemma Overwritten(d: Bytes, x: Bytes, z: Bytes)
    requires |x| <= |z| <= |d|
    ensures Splice(Splice(d, 0, x), 0, z) == Splice(d, 0, z)
  {
  }
}
