/**
 The walk that hands a scatterlist to a synchronous hash page by page, and what it makes of an
 update or of the last call.  An entry without bytes ends the walk early; everything here says
 exactly when that matters.
 */
module HashWalk {
  import opened Bytes
  import opened Cmac

  const PAGE_SIZE: nat := 4096

  /** A scatterlist entry: length bytes from offset on, in the memory that starts at its page. */
  datatype Sg = Sg(mem: Bytes, offset: nat, length: nat) {
    predicate Valid() { offset + length <= |mem| }

    function Data(): Bytes
      requires Valid()
    {
      mem[offset..offset + length]
    }
  }

  ghost predicate AllValid(l: seq<Sg>) { forall i :: 0 <= i < |l| ==> l[i].Valid() }

  /** The bytes of a list of entries. */
  function Concat(l: seq<Sg>): Bytes
    requires AllValid(l)
  {
    if |l| == 0 then [] else l[0].Data() + Concat(l[1..])
  }

  /** The bytes a walk of n bytes hands out: it stops at the first entry without bytes. */
  function Walked(l: seq<Sg>, n: nat): (b: Bytes)
    requires AllValid(l)
    ensures |b| <= n
  {
    if n == 0 || |l| == 0 || l[0].length == 0 then []
    else if n <= l[0].length then l[0].Data()[..n]
    else l[0].Data() + Walked(l[1..], n - l[0].length)
  }

  /** No entry without bytes comes before n bytes are reached. */
  predicate NoHole(l: seq<Sg>, n: nat) {
    n == 0 || (|l| != 0 && l[0].length != 0 && (n <= l[0].length || NoHole(l[1..], n - l[0].length)))
  }

  /** The walk covers the first n bytes of the list if and only if there is no such entry. */
  lemma {:induction false} WalkedIsPrefix(l: seq<Sg>, n: nat)
    requires AllValid(l) && n <= |Concat(l)|
    ensures Walked(l, n) == Concat(l)[..n] <==> NoHole(l, n)
    ensures |Walked(l, n)| == n <==> NoHole(l, n)
    ensures Walked(l, n) <= Concat(l)[..n]
  {
    if n != 0 && |l| != 0 && l[0].length != 0 {
      if n <= l[0].length {
        assert Concat(l)[..n] == l[0].Data()[..n];
      } else {
        WalkedIsPrefix(l[1..], n - l[0].length);
        assert Concat(l)[..n] == l[0].Data() + Concat(l[1..])[..n - l[0].length];
      }
    }
  }

  function Least(a: nat, b: nat): nat { if a < b then a else b }

  /** struct crypto_hash_walk; `data` is the piece of the page that walk->data points to. */
  class Walk {
    const sgl: seq<Sg>
    var sg: nat
    var pg: nat
    var offset: nat
    var entrylen: nat
    var total: nat
    var data: Bytes

    /** The position in the entry's memory right after the current piece. */
    function Here(): nat
      reads this
    {
      pg * PAGE_SIZE + offset + |data|
    }

    ghost predicate Valid()
      reads this
    {
      && AllValid(sgl) && sg < |sgl|
      && Here() + entrylen <= |sgl[sg].mem| && offset + |data| <= PAGE_SIZE
      && (entrylen != 0 ==> offset + |data| == PAGE_SIZE)
      && total <= |Concat(sgl[sg + 1..])|
    }

    /** What the walk will hand out after the current piece. */
    ghost function Ahead(): Bytes
      requires Valid()
      reads this
    {
      sgl[sg].mem[Here()..Here() + entrylen] + Walked(sgl[sg + 1..], total)
    }

    constructor (sgl: seq<Sg>)
      requires AllValid(sgl)
      ensures this.sgl == sgl
    {
      this.sgl := sgl;
      sg, pg, offset, entrylen, total, data := 0, 0, 0, 0, 0, [];
    }

    /** crypto_hash_walk_first for n bytes. */
    method First(n: nat)
      requires AllValid(sgl) && n <= |Concat(sgl)|
      modifies this
      ensures n == 0 ==> data == [] && entrylen == 0 && total == 0
      ensures |data| + entrylen + total == n
      ensures n != 0 ==> Valid() && if data == [] then Walked(sgl, n) == [] else data + Ahead() == Walked(sgl, n)
    {
      total := n;
      if total == 0 {
        entrylen, data := 0, [];
        return;
      }
      sg := 0;
      assert sgl[0..] == sgl;
      NewEntry();
    }

    /** hash_walk_new_entry */
    method NewEntry()
      requires AllValid(sgl) && sg < |sgl| && 0 < total <= |Concat(sgl[sg..])|
      modifies this
      ensures Valid() && sg == old(sg) && |data| + entrylen + total == old(total)
      ensures var w := Walked(sgl[sg..], old(total)); if data == [] then w == [] else data + Ahead() == w
    {
      var e := sgl[sg];
      ghost var n := total;
      EntryWalk(sgl[sg..], n);
      assert sgl[sg..][1..] == sgl[sg + 1..];
      offset := e.offset;
      pg := offset / PAGE_SIZE;
      offset := offset % PAGE_SIZE;
      entrylen := e.length;
      if entrylen > total {
        entrylen := total;
      }
      total := total - entrylen;
      Next();
    }

    /** hash_walk_next: the piece up to the end of the page or of the entry. */
    method Next()
      requires AllValid(sgl) && sg < |sgl| && offset <= PAGE_SIZE && total <= |Concat(sgl[sg + 1..])|
      requires pg * PAGE_SIZE + offset + entrylen <= |sgl[sg].mem|
      modifies this
      ensures Valid() && sg == old(sg) && total == old(total) && |data| + entrylen == old(entrylen)
      ensures var at := old(pg * PAGE_SIZE + offset);
              data + Ahead() == sgl[sg].mem[at..at + old(entrylen)] + Walked(sgl[sg + 1..], total)
      ensures data == [] ==> old(entrylen) == 0 || old(offset) == PAGE_SIZE
    {
      var nbytes := Least(entrylen, PAGE_SIZE - offset);
      ghost var at, m := pg * PAGE_SIZE + offset, sgl[sg].mem;
      data := sgl[sg].mem[pg * PAGE_SIZE + offset..pg * PAGE_SIZE + offset + nbytes];
      entrylen := entrylen - nbytes;
      assert m[at..at + nbytes + entrylen] == m[at..at + nbytes] + m[at + nbytes..at + nbytes + entrylen];
      ConcatAssoc(data, m[Here()..Here() + entrylen], Walked(sgl[sg + 1..], total));
    }

    /** crypto_hash_walk_done without an error; an empty piece means that the walk is over. */
    method Done()
      requires Valid() && data != []
      modifies this
      ensures AllValid(sgl) && (old(Ahead()) == [] ==> data == [])
      ensures |data| + entrylen + total == old(entrylen + total)
      ensures old(Ahead()) != [] ==> Valid() && data != [] && data + Ahead() == old(Ahead())
    {
      hide Concat;
      if entrylen != 0 {
        offset := 0;
        pg := pg + 1;
        Next();
        return;
      }
      assert sgl[sg].mem[Here()..Here() + entrylen] + Walked(sgl[sg + 1..], total) == Walked(sgl[sg + 1..], total);
      if total == 0 {
        data := [];
        return;
      }
      MoreEntries(sgl[sg + 1..]);
      sg := sg + 1;
      NewEntry();
    }

    /** crypto_hash_walk_last: nothing follows the current piece. */
    predicate Last()
      reads this
    {
      entrylen == 0 && total == 0
    }
  }

  lemma MoreEntries(l: seq<Sg>)
    requires AllValid(l) && Concat(l) != []
    ensures l != []
  {
  }

  /** How an entry of the list takes part in a walk of n bytes. */
  lemma EntryWalk(l: seq<Sg>, n: nat)
    requires AllValid(l) && 0 < |l| && 0 < n <= |Concat(l)|
    ensures var k := Least(l[0].length, n);
            && n - k <= |Concat(l[1..])|
            && l[0].mem[l[0].offset..l[0].offset + k] == l[0].Data()[..k]
            && (k == 0 ==> Walked(l, n) == [])
            && (0 < k ==> Walked(l, n) == l[0].Data()[..k] + Walked(l[1..], n - k))
  {
    var k, e := Least(l[0].length, n), l[0];
    SubSlice(e.mem, e.offset, e.offset + e.length, 0, k);
    assert e.Data()[..k] == e.Data()[0..k];
    assert e.Data()[..e.length] == e.Data();
  }

  /** shash_ahash_update: the hash is fed what the walk hands out, piece by piece. */
  method ShashAhashUpdate(sgl: seq<Sg>, nbytes: nat, desc: CmacDesc)
    requires AllValid(sgl) && nbytes <= |Concat(sgl)| && desc.Valid()
    modifies desc, desc.odds, desc.prev
    ensures desc.Valid() && desc.msg == old(desc.msg) + Walked(sgl, nbytes)
    ensures NoHole(sgl, nbytes) ==> desc.msg == old(desc.msg) + Concat(sgl)[..nbytes]
  {
    hide Concat, NoHole;
    ghost var m := desc.msg;
    WalkedIsPrefix(sgl, nbytes);
    var walk := new Walk(sgl);
    walk.First(nbytes);
    ghost var fed := [];
    assert m + fed == m;
    assert fed + Walked(sgl, nbytes) == Walked(sgl, nbytes);
    while walk.data != []
      invariant desc.Valid() && desc.msg == m + fed && walk.sgl == sgl
      invariant if walk.data == [] then fed == Walked(sgl, nbytes)
                else walk.Valid() && fed + (walk.data + walk.Ahead()) == Walked(sgl, nbytes)
      decreases |Walked(sgl, nbytes)| - |fed|, |walk.data|
    {
      ghost var d, a := walk.data, walk.Ahead();
      desc.Update(walk.data);
      ConcatAssoc(m, fed, d);
      ConcatAssoc(fed, d, a);
      fed := fed + d;
      walk.Done();
      assert a == [] ==> fed + a == fed;
    }
  }

  datatype Digest = NotWritten | Digest(d: Bytes)

  /** crypto_shash_finup with the last piece of a walk that has fed `fed` to the descriptor so far. */
  method FinishWith(desc: CmacDesc, data: Bytes, ghost m: Bytes, ghost fed: Bytes, ghost w: Bytes) returns (digest: Bytes)
    requires desc.Valid() && desc.msg == m + fed && fed + data == w
    modifies desc, desc.odds, desc.prev
    ensures digest == OneShot(desc.c, desc.k1, desc.k2, m + w)
  {
    hide OneShot;
    ConcatAssoc(m, fed, data);
    desc.Update(data);
    digest := desc.Final();
  }

  /**
   shash_ahash_finup: with the last piece the hash is finished.  When the walk ends early no digest
   is written, or, if it ends at once, the digest of what came before is.
   */
  method ShashAhashFinup(sgl: seq<Sg>, nbytes: nat, desc: CmacDesc) returns (result: Digest)
    requires AllValid(sgl) && nbytes <= |Concat(sgl)| && desc.Valid()
    modifies desc, desc.odds, desc.prev
    ensures var m := old(desc.msg);
            result == if NoHole(sgl, nbytes) then Digest(OneShot(desc.c, desc.k1, desc.k2, m + Concat(sgl)[..nbytes]))
                      else if Walked(sgl, nbytes) == [] then Digest(OneShot(desc.c, desc.k1, desc.k2, m))
                      else NotWritten
  {
    hide Concat, NoHole, OneShot;
    ghost var m, w := desc.msg, Walked(sgl, nbytes);
    WalkedIsPrefix(sgl, nbytes);
    var walk := new Walk(sgl);
    walk.First(nbytes);
    result := NotWritten;
    if walk.data == [] {
      var d := desc.Final();
      result := Digest(d);
      assert m + [] == m;
      return;
    }
    ghost var fed := [];
    assert m + fed == m;
    assert fed + w == w;
    while true
      invariant desc.Valid() && desc.msg == m + fed && walk.sgl == sgl && result == NotWritten
      invariant walk.Valid() && walk.data != [] && fed + (walk.data + walk.Ahead()) == w
      invariant |fed| + |walk.data| + walk.entrylen + walk.total == nbytes
      decreases |w| - |fed|
    {
      ghost var d, a := walk.data, walk.Ahead();
      ConcatAssoc(m, fed, d);
      ConcatAssoc(fed, d, a);
      if walk.Last() {
        assert |w| <= nbytes && w == fed + d by {
          assert |fed + (d + a)| == |fed| + |d| + |a|;
          assert a == [];
          assert d + a == d;
        }
        var x := FinishWith(desc, walk.data, m, fed, w);
        result := Digest(x);
        return;
      }
      desc.Update(walk.data);
      fed := fed + d;
      walk.Done();
      if walk.data == [] {
        assert a == [] && fed + a == fed;
        break;
      }
    }
    assert w == fed && fed != [] && |fed| < nbytes;
  }
}
