/**
 Private keys for the safe-prime groups: a random number of n+1 64-bit words is reduced modulo
 2^(64n) - 1 by folding its top word back in, and then incremented.
 */
module Dh {
  import Arith

  const W: nat := 0x1_0000_0000_0000_0000

  type u64 = x: nat | x < W

  function Pow(n: nat): (p: nat)
    ensures 1 <= p
  {
    if n == 0 then 1 else W * Pow(n - 1)
  }

  /** The number a sequence of words stands for, the most significant word first. */
  function Value(s: seq<u64>): nat {
    if |s| == 0 then 0 else Value(s[..|s| - 1]) * W + s[|s| - 1]
  }

  lemma MulAssoc(a: int, b: int, c: int)
    ensures (a * b) * c == a * (b * c)
  {
  }

  lemma MulPlus(a: int, b: int, c: int)
    ensures (a + b) * c == a * c + b * c && c * (a + b) == c * a + c * b
  {
  }

  lemma MulOrder(a: nat, b: nat, c: nat)
    requires a <= b
    ensures a * c <= b * c
  {
    MulPlus(a, b - a, c);
  }

  lemma {:induction false} PowPlus(a: nat, b: nat)
    ensures Pow(a + b) == Pow(a) * Pow(b)
  {
    if a == 0 {
    } else {
      PowPlus(a - 1, b);
      MulAssoc(W, Pow(a - 1), Pow(b));
    }
  }

  lemma {:induction false} ValueConcat(a: seq<u64>, b: seq<u64>)
    ensures Value(a + b) == Value(a) * Pow(|b|) + Value(b)
  {
    if |b| == 0 {
      assert a + b == a;
    } else {
      var c, x := b[..|b| - 1], b[|b| - 1];
      ValueConcat(a, c);
      assert (a + b)[..|a + b| - 1] == a + c;
      assert Value(a + b) == Value(a + c) * W + x;
      MulPlus(Value(a) * Pow(|c|), Value(c), W);
      MulAssoc(Value(a), Pow(|c|), W);
      MulComm(Pow(|c|), W);
    }
  }

  lemma MulComm(a: int, b: int)
    ensures a * b == b * a
  {
  }

  lemma {:induction false} ValueBound(s: seq<u64>)
    ensures Value(s) < Pow(|s|)
  {
    if |s| != 0 {
      var v, p := Value(s[..|s| - 1]), Pow(|s| - 1);
      ValueBound(s[..|s| - 1]);
      MulOrder(v + 1, p, W);
      MulPlus(v, 1, W);
      MulComm(p, W);
    }
  }

  lemma ValueOne(x: u64)
    ensures Value([x]) == x
  {
    assert [x][..0] == [];
  }

  lemma UpdateSum(a: int, x: int, y: int, p: int, b: int)
    ensures a + (x * p + b) == a + (y * p + b) + (x - y) * p
  {
    Arith.MulMinus(x, y, p);
  }

  /** Changing word k of n changes the value by the difference at that word's weight. */
  lemma ValueUpdate(s: seq<u64>, k: nat, x: u64)
    requires k < |s|
    ensures Value(s[k := x]) == Value(s) + (x - s[k]) * Pow(|s| - 1 - k)
  {
    hide Value, Pow;
    var a, b := s[..k], s[k + 1..];
    assert s == a + ([s[k]] + b) && s[k := x] == a + ([x] + b);
    ValueConcat(a, [s[k]] + b);
    ValueConcat(a, [x] + b);
    ValueConcat([s[k]], b);
    ValueConcat([x], b);
    ValueOne(x);
    ValueOne(s[k]);
    UpdateSum(Value(a) * Pow(|b| + 1), x, s[k], Pow(|b|), Value(b));
  }

  /** One turn of the carry loop, with carry `val` going into word k. */
  lemma CarryTurn(s: seq<u64>, k: nat, val: u64)
    requires k < |s|
    ensures var tmp := (s[k] + val) % W;
            var carry := if tmp >= val then 0 else 1;
            Value(s[k := tmp]) + carry * Pow(|s| - k) == Value(s) + val * Pow(|s| - 1 - k)
  {
    hide Value, Pow;
    var tmp: u64 := (s[k] + val) % W;
    var carry := if tmp >= val then 0 else 1;
    ValueUpdate(s, k, tmp);
    PowNext(|s| - 1 - k);
    CarrySum(Value(s), tmp, s[k], carry, val, Pow(|s| - 1 - k));
  }

  lemma PowNext(n: nat)
    ensures Pow(n + 1) == W * Pow(n)
  {
  }

  lemma CarrySum(v: int, tmp: int, x: int, carry: int, val: int, p: int)
    requires tmp + carry * W == x + val
    ensures v + (tmp - x) * p + carry * (W * p) == v + val * p
  {
    MulAssoc(carry, W, p);
    MulPlus(tmp - x, carry * W, p);
  }

  /** __add_u64_to_be on the n words of dst from `base` on; the result is the carry out. */
  method AddU64ToBe(dst: array<u64>, base: nat, n: nat, val0: u64) returns (val: u64)
    requires base + n <= dst.Length
    modifies dst
    ensures Value(dst[base..base + n]) + val * Pow(n) == Value(old(dst[base..base + n])) + val0
    ensures 0 < n ==> val <= 1
    ensures forall i :: (0 <= i < base || base + n <= i < dst.Length) ==> dst[i] == old(dst[i])
  {
    hide Value, Pow;
    val := val0;
    var i := n;
    PowZero();
    while val != 0 && i > 0
      invariant 0 <= i <= n && (i < n ==> val <= 1)
      invariant Value(dst[base..base + n]) + val * Pow(n - i) == Value(old(dst[base..base + n])) + val0
      invariant forall i :: (0 <= i < base || base + n <= i < dst.Length) ==> dst[i] == old(dst[i])
      decreases i
    {
      ghost var s := dst[base..base + n];
      CarryTurn(s, i - 1, val);
      var tmp: u64 := (dst[base + i - 1] + val) % W;
      val := if tmp >= val then 0 else 1;
      dst[base + i - 1] := tmp;
      assert dst[base..base + n] == s[i - 1 := tmp];
      i := i - 1;
    }
  }

  lemma PowZero()
    ensures Pow(0) == 1
  {
  }

  /** The arithmetic of the two folds and the increment; m is 2^(64n) - 1. */
  lemma Folded(h: nat, l: nat, m: nat, w: nat, l1: nat, h1: nat, l2: nat, h2: nat)
    requires 1 <= m && w <= m + 1 && h < w && l <= m && l1 <= m && l2 <= m && h1 <= 1
    requires l1 + h1 * (m + 1) == l + h && l2 + h2 * (m + 1) == l1 + h1
    ensures h2 == 0
    ensures (h * (m + 1) + l) % m == if l2 == m then 0 else l2
  {
    if h2 != 0 {
      Arith.MulAtLeast(h2, m + 1);
      assert false;
    }
    MulPlus(m, 1, h);
    MulComm(m, h);
    MulComm(m + 1, h);
    assert h * (m + 1) + l == h * m + h1 * m + l2;
    MulPlus(h, h1, m);
    if l2 == m {
      MulPlus(h + h1, 1, m);
      Arith.ModUnique(h * (m + 1) + l, h + h1 + 1, m, 0);
    } else {
      Arith.ModUnique(h * (m + 1) + l, h + h1, m, l2);
    }
  }

  /** n + 1 words are the first one and the number of the others. */
  lemma FirstWord(r: seq<u64>, n: nat)
    requires |r| == n + 1
    ensures Value(r) == r[0] * Pow(n) + Value(r[1..])
  {
    hide Value, Pow;
    assert r == [r[0]] + r[1..];
    ValueConcat([r[0]], r[1..]);
    ValueOne(r[0]);
  }

  /** The two additions of h that reduce the n + 1 words modulo 2^(64n) - 1. */
  method FoldTwice(key: array<u64>, n: nat) returns (h: u64)
    requires 1 <= n && key.Length == n + 1
    modifies key
    ensures h == 0
    ensures var m, v := Pow(n) - 1, Value(key[1..1 + n]);
            1 <= m && v <= m && Value(old(key[..])) % m == if v == m then 0 else v
  {
    hide Value, Pow;
    AtLeastOneWord(n);
    ghost var r := key[..];
    FirstWord(r, n);
    assert key[1..1 + n] == r[1..];
    ValueBound(r[1..]);
    h := AddU64ToBe(key, 1, n, key[0]);
    ghost var l1, h1 := Value(key[1..1 + n]), h;
    ValueBound(key[1..1 + n]);
    h := AddU64ToBe(key, 1, n, h);
    ValueBound(key[1..1 + n]);
    Folded(r[0], Value(r[1..]), Pow(n) - 1, W, l1, h1, Value(key[1..1 + n]), h);
  }

  /** The increment, which leaves 1 where it would carry out. */
  method AddOne(key: array<u64>, n: nat)
    requires 1 <= n && key.Length == n + 1
    modifies key
    ensures var m, v := Pow(n) - 1, Value(old(key[1..1 + n]));
            1 <= m && v <= m && Value(key[1..1 + n]) == (if v == m then 0 else v) + 1
  {
    hide Value, Pow;
    AtLeastOneWord(n);
    ValueBound(key[1..1 + n]);
    var o := AddU64ToBe(key, 1, n, 1);
    ValueBound(key[1..1 + n]);
    ghost var s := key[1..1 + n];
    CarriedOut(Value(old(key[1..1 + n])), Value(s), o, Pow(n));
    if o != 0 {
      key[n] := 1;
      assert key[1..1 + n] == s[n - 1 := 1];
      LastWord(s, 1);
    }
  }

  lemma CarriedOut(v: nat, s: nat, o: nat, p: nat)
    requires v < p && s < p && o <= 1 && s + o * p == v + 1
    ensures o != 0 ==> s == 0 && v == p - 1
    ensures o == 0 ==> s == v + 1 && v != p - 1
  {
  }

  /**
   dh_safe_prime_gen_privkey from the random words on: key holds n+1 of them and gets the private
   key in its first n.  `warn` is what WARN_ON_ONCE looks at.
   */
  method GenPrivkey(key: array<u64>, n: nat) returns (warn: u64)
    requires 1 <= n && key.Length == n + 1
    modifies key
    ensures Value(key[..n]) == Value(old(key[..])) % (Pow(n) - 1) + 1
    ensures 1 <= Value(key[..n]) <= Pow(n) - 1
    ensures warn == 0
  {
    hide Value, Pow;
    warn := FoldTwice(key, n);
    AddOne(key, n);
    ghost var t := key[1..1 + n];
    forall i | 0 <= i < n {
      key[i] := key[i + 1];
    }
    assert key[..n] == t;
  }

  lemma AtLeastOneWord(n: nat)
    requires 1 <= n
    ensures W <= Pow(n)
  {
    MulOrder(1, Pow(n - 1), W);
    MulComm(W, Pow(n - 1));
  }

  /** A number that is 0 becomes x when its last word is set to x. */
  lemma LastWord(s: seq<u64>, x: u64)
    requires 0 < |s| && Value(s) == 0
    ensures Value(s[|s| - 1 := x]) == x
  {
    ValueUpdate(s, |s| - 1, x);
    var v := Value(s[..|s| - 1]);
    assert Value(s) == v * W + s[|s| - 1];
    if v != 0 {
      Arith.MulAtLeast(v, W);
    }
  }
}
