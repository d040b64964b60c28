/** drbg_add_buf: a shorter big-endian number is added to a longer one in place. */
module AddBuf {
  import opened Bytes
  import opened Numbers
  import Arith
  import Ctr

  /** The sum with carry r, from the last bytes on. */
  function Added(d: Bytes, a: Bytes, r: nat): (s: Bytes)
    requires |a| <= |d| && r <= 1
    ensures |s| == |d|
    decreases |a|
  {
    if |a| == 0 then if r == 0 then d else Ctr.Inc(d)
    else
      var n, m := |d| - 1, |a| - 1;
      var x := ByteVal(d[n]) + ByteVal(a[m]) + r;
      Added(d[..n], a[..m], x / 0x100) + [ByteOf(x % 0x100)]
  }

  /** s is x modulo 256^|s|: what is cut off is 0 or 256^|s|. */
  ghost predicate IsSum(s: Bytes, x: nat) {
    Be(s) == x || Be(s) + Pow256(|s|) == x
  }

  lemma BeLast(s: Bytes)
    requires |s| != 0
    ensures Be(s) == Be(s[..|s| - 1]) * 0x100 + ByteVal(s[|s| - 1]) && Pow256(|s|) == 0x100 * Pow256(|s| - 1)
  {
  }

  lemma {:induction false} AddedIsSum(d: Bytes, a: Bytes, r: nat)
    requires |a| <= |d| && r <= 1
    ensures IsSum(Added(d, a, r), Be(d) + Be(a) + r)
    decreases |a|
  {
    hide Be, ByteVal, ByteOf, Pow256, Ctr.Inc;
    if |a| == 0 {
      Ctr.IncIsPlusOne(d);
      NoBytes(a);
    } else {
      var n, m := |d| - 1, |a| - 1;
      var x := ByteVal(d[n]) + ByteVal(a[m]) + r;
      AddedIsSum(d[..n], a[..m], x / 0x100);
      var s := Added(d, a, r);
      assert s[..n] == Added(d[..n], a[..m], x / 0x100) && s[n] == ByteOf(x % 0x100);
      ByteValOf(x % 0x100);
      BeLast(s);
      BeLast(d);
      BeLast(a);
    }
  }

  lemma NoBytes(a: Bytes)
    requires |a| == 0
    ensures Be(a) == 0
  {
  }

  /** Addition modulo 256^dstlen. */
  lemma AddedModulo(d: Bytes, a: Bytes)
    requires |a| <= |d|
    ensures Be(Added(d, a, 0)) == (Be(d) + Be(a)) % Pow256(|d|)
  {
    hide Be, Added, Pow256;
    AddedIsSum(d, a, 0);
    var s := Added(d, a, 0);
    BeBound(s);
    Arith.ModUnique(Be(d) + Be(a), if Be(s) == Be(d) + Be(a) then 0 else 1, Pow256(|d|), Be(s));
  }

  /** What is done and what is left: the sum of all is that of the first i bytes, followed by t. */
  lemma AddTurn(d: Bytes, a: Bytes, i: nat, j: nat, r: nat, t: Bytes, all: Bytes)
    requires 0 < j <= i <= |d| && j <= |a| && r <= 1 && all == Added(d[..i], a[..j], r) + t
    ensures var x := ByteVal(d[i - 1]) + ByteVal(a[j - 1]) + r;
            x / 0x100 <= 1 && all == Added(d[..i - 1], a[..j - 1], x / 0x100) + ([ByteOf(x % 0x100)] + t)
  {
    hide ByteVal, ByteOf;
    assert d[..i][..i - 1] == d[..i - 1] && a[..j][..j - 1] == a[..j - 1];
    var x := ByteVal(d[i - 1]) + ByteVal(a[j - 1]) + r;
    ConcatAssoc(Added(d[..i - 1], a[..j - 1], x / 0x100), [ByteOf(x % 0x100)], t);
  }

  /** One byte of the second loop. */
  lemma CarryTurn(d: Bytes, i: nat, t: Bytes, all: Bytes)
    requires 0 < i <= |d| && all == Ctr.Inc(d[..i]) + t
    ensures var x := ByteVal(d[i - 1]) + 1;
            if x / 0x100 == 0 then all == d[..i - 1] + ([ByteOf(x % 0x100)] + t)
            else x / 0x100 == 1 && all == Ctr.Inc(d[..i - 1]) + ([ByteOf(x % 0x100)] + t)
  {
    hide Ctr.Inc, ByteVal, ByteOf;
    var p, b := d[..i - 1], d[i - 1];
    assert d[..i] == p + [b];
    Ctr.IncSnoc(p, b);
    Ctr.ByteMax(b);
    Zero();
    var x := ByteVal(b) + 1;
    if b == 0xff {
      ConcatAssoc(Ctr.Inc(p), [0], t);
    } else {
      ConcatAssoc(p, [ByteOf(x)], t);
    }
  }

  lemma Zero()
    ensures ByteOf(0) == 0
  {
  }

  /** The array after a byte is stored in front of those done. */
  lemma Stored(d: Bytes, i: nat, t: Bytes, b: bv8)
    requires 0 < i && i + |t| == |d|
    ensures (d[..i] + t)[i - 1 := b] == d[..i - 1] + ([b] + t)
  {
  }

  /** What the first loop leaves: the sum of the first i bytes and the carry, followed by t. */
  method AddBytes(dst: array<bv8>, add: array<bv8>) returns (i: nat, remainder: nat, ghost t: Bytes)
    requires add.Length <= dst.Length && dst != add
    modifies dst
    ensures i + |t| == dst.Length && remainder <= 1 && dst[..] == old(dst[..])[..i] + t
    ensures Added(old(dst[..]), add[..], 0) == (if remainder == 0 then old(dst[..])[..i] else Ctr.Inc(old(dst[..])[..i])) + t
  {
    hide Added, ByteVal, ByteOf, Ctr.Inc;
    ghost var d, a := dst[..], add[..];
    ghost var all := Added(d, a, 0);
    t := [];
    remainder := 0;
    i := dst.Length;
    var j := add.Length;
    assert d[..i] == d && a[..j] == a && d + t == d && all + t == all;
    while j > 0
      invariant 0 <= j <= i && i - j == dst.Length - add.Length && remainder <= 1
      invariant i + |t| == |d| && dst[..] == d[..i] + t && all == Added(d[..i], a[..j], remainder) + t
    {
      AddTurn(d, a, i, j, remainder, t, all);
      remainder := remainder + ByteVal(dst[i - 1]) + ByteVal(add[j - 1]);
      Stored(d, i, t, ByteOf(remainder % 0x100));
      dst[i - 1] := ByteOf(remainder % 0x100);
      t := [ByteOf(remainder % 0x100)] + t;
      remainder := remainder / 0x100;
      i, j := i - 1, j - 1;
    }
    assert a[..0] == [];
    NoneLeft(d[..i], a[..0], remainder);
  }

  method DrbgAddBuf(dst: array<bv8>, add: array<bv8>)
    requires add.Length <= dst.Length && dst != add
    modifies dst
    ensures dst[..] == Added(old(dst[..]), add[..], 0)
  {
    hide Added, ByteVal, ByteOf, Ctr.Inc;
    ghost var d, all := dst[..], Added(dst[..], add[..], 0);
    ghost var t: Bytes;
    var i: nat, remainder: nat;
    i, remainder, t := AddBytes(dst, add);
    while i > 0 && remainder > 0
      invariant 0 <= i && remainder <= 1
      invariant i + |t| == |d| && dst[..] == d[..i] + t && all == (if remainder == 0 then d[..i] else Ctr.Inc(d[..i])) + t
      decreases i
    {
      CarryTurn(d, i, t, all);
      remainder := ByteVal(dst[i - 1]) + 1;
      Stored(d, i, t, ByteOf(remainder % 0x100));
      dst[i - 1] := ByteOf(remainder % 0x100);
      t := [ByteOf(remainder % 0x100)] + t;
      remainder := remainder / 0x100;
      i := i - 1;
    }
    if remainder != 0 {
      assert d[..i] == [];
      Ctr.IncEmpty();
    }
  }

  lemma NoneLeft(d: Bytes, a: Bytes, r: nat)
    requires |a| == 0 && r <= 1
    ensures Added(d, a, r) == if r == 0 then d else Ctr.Inc(d)
  {
  }
}
