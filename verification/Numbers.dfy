/** Byte strings as numbers, in either byte order. */
module Numbers {
  import opened Bytes
  import Arith

  function ByteVal(b: bv8): (n: nat)
    ensures n < 0x100
  {
    b as nat
  }

  function ByteOf(n: nat): bv8
    requires n < 0x100
  {
    n as bv8
  }

  lemma ByteOfVal(b: bv8)
    ensures ByteOf(ByteVal(b)) == b
  {
  }

  lemma NextByte(b: bv8)
    ensures b != 0xff ==> (b + 1) as int == b as int + 1
    ensures (b as int) as bv8 == b
  {
  }

  lemma {:induction false} CastBack(n: int)
    requires 0 <= n < 0x100
    ensures (n as bv8) as int == n
  {
    if n != 0 {
      CastBack(n - 1);
      var b := (n - 1) as bv8;
      NextByte(b);
      NextByte(b + 1);
    }
  }

  lemma ByteValOf(n: nat)
    requires n < 0x100
    ensures ByteVal(ByteOf(n)) == n
  {
    CastBack(n);
  }

  function Pow256(k: nat): (p: nat)
    ensures 1 <= p
  {
    if k == 0 then 1 else 0x100 * Pow256(k - 1)
  }

  /** Little endian. */
  function Le(s: Bytes): nat {
    if |s| == 0 then 0 else ByteVal(s[0]) + 0x100 * Le(s[1..])
  }

  /** The k low bytes of n, little endian. */
  function LePut(n: nat, k: nat): (s: Bytes)
    ensures |s| == k
    decreases k
  {
    if k == 0 then [] else [ByteOf(n % 0x100)] + LePut(n / 0x100, k - 1)
  }

  lemma {:induction false} LeBound(s: Bytes)
    ensures Le(s) < Pow256(|s|)
  {
    hide ByteVal;
    if |s| != 0 {
      LeBound(s[1..]);
    }
  }

  lemma {:induction false} LeOfPut(n: nat, k: nat)
    requires n < Pow256(k)
    ensures Le(LePut(n, k)) == n
    decreases k
  {
    hide ByteVal, ByteOf;
    if k != 0 {
      ByteValOf(n % 0x100);
      LeOfPut(n / 0x100, k - 1);
      var s := LePut(n, k);
      assert s[1..] == LePut(n / 0x100, k - 1);
    }
  }

  /** The low byte of a number and the rest of it, modulo 256 * p. */
  lemma ModOfBytes(n: nat, p: nat)
    requires 0 < p
    ensures n % 0x100 + 0x100 * (n / 0x100 % p) == n % (0x100 * p)
  {
    var q, r := n / 0x100, n % 0x100;
    var t, u := q / p, q % p;
    assert q == t * p + u;
    assert n == 0x100 * (t * p) + (0x100 * u + r);
    Arith.MulAssoc(t, 0x100, p);
    Arith.ModUnique(n, t, 0x100 * p, 0x100 * u + r);
  }

  lemma LePutFirst(n: nat, k: nat)
    requires 0 < k
    ensures Le(LePut(n, k)) == n % 0x100 + 0x100 * Le(LePut(n / 0x100, k - 1))
  {
    hide ByteVal, ByteOf;
    ByteValOf(n % 0x100);
    assert LePut(n, k)[1..] == LePut(n / 0x100, k - 1);
  }

  /** What does not fit is cut off. */
  lemma {:induction false} LeOfPutModulo(n: nat, k: nat)
    ensures Le(LePut(n, k)) == n % Pow256(k)
    decreases k
  {
    hide Le, LePut;
    if k == 0 {
      NoLe(n);
      Arith.ModUnique(n, n, 1, 0);
    } else {
      LePutFirst(n, k);
      LeOfPutModulo(n / 0x100, k - 1);
      ModOfBytes(n, Pow256(k - 1));
    }
  }

  lemma NoLe(n: nat)
    ensures Le(LePut(n, 0)) == 0
  {
  }

  lemma {:induction false} LeConcat(s: Bytes, t: Bytes)
    ensures Le(s + t) == Le(s) + Pow256(|s|) * Le(t)
  {
    hide ByteVal;
    if |s| == 0 {
      assert s + t == t;
    } else {
      assert (s + t)[1..] == s[1..] + t;
      LeConcat(s[1..], t);
    }
  }

  lemma {:induction false} PutOfLe(s: Bytes)
    ensures LePut(Le(s), |s|) == s
  {
    hide ByteVal, ByteOf;
    if |s| != 0 {
      var t := Le(s[1..]);
      PutOfLe(s[1..]);
      ByteOfVal(s[0]);
      Arith.ModUnique(ByteVal(s[0]) + 0x100 * t, t, 0x100, ByteVal(s[0]));
      assert s == [s[0]] + s[1..];
    }
  }

  /** Big endian. */
  function Be(s: Bytes): nat {
    if |s| == 0 then 0 else Be(s[..|s| - 1]) * 0x100 + ByteVal(s[|s| - 1])
  }

  /** The k low bytes of n, big endian. */
  function BePut(n: nat, k: nat): (s: Bytes)
    ensures |s| == k
    decreases k
  {
    if k == 0 then [] else BePut(n / 0x100, k - 1) + [ByteOf(n % 0x100)]
  }

  lemma {:induction false} BeBound(s: Bytes)
    ensures Be(s) < Pow256(|s|)
  {
    hide ByteVal;
    if |s| != 0 {
      BeBound(s[..|s| - 1]);
    }
  }

  lemma {:induction false} BeOfPut(n: nat, k: nat)
    requires n < Pow256(k)
    ensures Be(BePut(n, k)) == n
    decreases k
  {
    hide ByteVal, ByteOf;
    if k != 0 {
      ByteValOf(n % 0x100);
      BeOfPut(n / 0x100, k - 1);
      var s := BePut(n, k);
      assert s[..k - 1] == BePut(n / 0x100, k - 1);
    }
  }

  lemma {:induction false} PutOfBe(s: Bytes)
    ensures BePut(Be(s), |s|) == s
  {
    hide ByteVal, ByteOf;
    if |s| != 0 {
      var n := |s| - 1;
      var t := Be(s[..n]);
      PutOfBe(s[..n]);
      ByteOfVal(s[n]);
      Arith.ModUnique(t * 0x100 + ByteVal(s[n]), t, 0x100, ByteVal(s[n]));
      assert s == s[..n] + [s[n]];
    }
  }

  lemma {:induction false} BeZeros(k: nat)
    ensures Be(Zeros(k)) == 0
  {
    if k != 0 {
      assert Zeros(k)[..k - 1] == Zeros(k - 1);
      BeZeros(k - 1);
      assert ByteVal(0) == 0;
    }
  }
}
