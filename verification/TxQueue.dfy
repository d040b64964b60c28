/**
 The transmit queue of an AF_ALG operation socket: a list of scatterlists whose pages hold the
 bytes user space has sent.  Counting entries and pulling bytes off the front, to the byte.
 */
module TxQueue {
  import opened Bytes

  datatype Page = NoPage | Page(data: Bytes)

  /** One scatterlist entry; a page that was handed on or released leaves NoPage behind. */
  datatype Entry = Entry(page: Page, offset: nat, length: nat) {
    predicate Valid() { if page.NoPage? then length == 0 else offset + length <= |page.data| }

    function Content(): Bytes
      requires Valid()
    {
      if page.NoPage? then [] else page.data[offset..offset + length]
    }
  }

  predicate AllValid(f: seq<Entry>) { forall i :: 0 <= i < |f| ==> f[i].Valid() }

  /** The bytes of a run of entries. */
  function Content(f: seq<Entry>): (b: Bytes)
    requires AllValid(f)
  {
    if |f| == 0 then [] else f[0].Content() + Content(f[1..])
  }

  function Flat(l: seq<seq<Entry>>): seq<Entry> {
    if |l| == 0 then [] else l[0] + Flat(l[1..])
  }

  /** The entries that pulling n bytes hands to dst when the first `off` of them are dropped. */
  function Pulled(f: seq<Entry>, n: nat, off: nat): seq<Entry> {
    if |f| == 0 then []
    else if f[0].page.NoPage? then Pulled(f[1..], n, off)
    else
      var e := f[0];
      var plen := if n < e.length then n else e.length;
      var here := if off >= plen then [] else [Entry(e.page, e.offset + off, plen - off)];
      if plen < e.length then here
      else here + Pulled(f[1..], n - plen, if off >= plen then off - plen else 0)
  }

  /** af_alg_count_tsgl over the entries one after the other. */
  function CountFrom(f: seq<Entry>, bytes: nat, off: nat): nat
    requires off <= bytes
  {
    if |f| == 0 then 0
    else if off >= f[0].length then CountFrom(f[1..], bytes - f[0].length, off - f[0].length)
    else
      var here := f[0].length - off;
      if here >= bytes then 1 else 1 + CountFrom(f[1..], bytes - here, 0)
  }

  function Count(f: seq<Entry>, bytes: nat, off: nat): nat
    requires off <= bytes
  {
    if bytes == 0 then 0 else CountFrom(f, bytes, off)
  }

  lemma ContentCons(e: Entry, f: seq<Entry>)
    requires e.Valid() && AllValid(f)
    ensures AllValid([e] + f) && Content([e] + f) == e.Content() + Content(f)
  {
    assert ([e] + f)[1..] == f;
  }

  lemma ValidTail(f: seq<Entry>)
    requires AllValid(f) && 0 < |f|
    ensures f[0].Valid() && AllValid(f[1..]) && f == [f[0]] + f[1..]
  {
  }

  lemma NoContent()
    ensures AllValid([]) && Content([]) == []
  {
  }

  lemma {:induction false} ContentConcat(f: seq<Entry>, g: seq<Entry>)
    requires AllValid(f) && AllValid(g)
    ensures AllValid(f + g) && Content(f + g) == Content(f) + Content(g)
  {
    hide Content, AllValid;
    if |f| == 0 {
      NoContent();
      assert f + g == g && f == [];
    } else {
      ValidTail(f);
      ContentConcat(f[1..], g);
      assert f + g == [f[0]] + (f[1..] + g);
      ContentCons(f[0], f[1..]);
      ContentCons(f[0], f[1..] + g);
      ConcatAssoc(f[0].Content(), Content(f[1..]), Content(g));
    }
  }

  function Least(a: nat, b: nat): nat { if a < b then a else b }

  /** The hand-over when one entry at the front has been dealt with. */
  lemma EntryPulled(e: Entry, t: seq<Entry>, n: nat, off: nat)
    requires e.page.Page?
    ensures var plen := Least(n, e.length);
            Pulled([e] + t, n, off) == (if off >= plen then [] else [Entry(e.page, e.offset + off, plen - off)])
                                        + (if plen < e.length then [] else Pulled(t, n - plen, if off >= plen then off - plen else 0))
  {
    assert ([e] + t)[1..] == t;
  }

  /** An entry without a page is passed over. */
  lemma NoPageTurn(e: Entry, t: seq<Entry>, n: nat, off: nat)
    requires e.page.NoPage? && e.Valid() && AllValid(t)
    ensures AllValid([e] + t) && Content([e] + t) == Content(t) && Pulled([e] + t, n, off) == Pulled(t, n, off)
  {
    ContentCons(e, t);
    assert ([e] + t)[1..] == t;
  }

  lemma PulledEmpty(n: nat, off: nat)
    ensures Pulled([], n, off) == []
  {
  }

  /** Pulling hands over exactly the bytes off..n, and entries that are themselves valid. */
  lemma {:induction false} PulledContent(f: seq<Entry>, n: nat, off: nat)
    requires AllValid(f) && off <= n <= |Content(f)|
    ensures AllValid(Pulled(f, n, off)) && Content(Pulled(f, n, off)) == Content(f)[off..n]
  {
    hide Content, AllValid, Pulled;
    NoContent();
    if |f| == 0 {
      PulledEmpty(n, off);
      assert f == [];
    } else {
      var e, t := f[0], f[1..];
      ValidTail(f);
      ContentCons(e, t);
      if e.page.NoPage? {
        NoPageTurn(e, t, n, off);
        PulledContent(t, n, off);
      } else if e.length <= n {
        PulledContent(t, n - e.length, if off >= e.length then off - e.length else 0);
        EntryGoes(e, t, n, off);
      } else {
        EntryStays(e, t, n, off);
      }
    }
  }

  /** An entry that is pulled as a whole, when the rest is right. */
  lemma EntryGoes(e: Entry, t: seq<Entry>, n: nat, off: nat)
    requires e.Valid() && AllValid(t) && e.page.Page? && e.length <= n && off <= n <= e.length + |Content(t)|
    requires var off' := if off >= e.length then off - e.length else 0;
             AllValid(Pulled(t, n - e.length, off')) && Content(Pulled(t, n - e.length, off')) == Content(t)[off'..n - e.length]
    ensures AllValid(Pulled([e] + t, n, off)) && Content(Pulled([e] + t, n, off)) == (e.Content() + Content(t))[off..n]
  {
    hide Content, AllValid, Pulled;
    var off' := if off >= e.length then off - e.length else 0;
    var here := HerePulled(e, e.length, off);
    var rest := Pulled(t, n - e.length, off');
    EntryPulled(e, t, n, off);
    assert Pulled([e] + t, n, off) == here + rest;
    SliceConcat(e.Content(), Content(t), off, n);
    ContentConcat(here, rest);
    if off < e.length {
      assert e.Content()[off..e.length] == e.Content()[off..];
      assert Content(t)[0..n - e.length] == Content(t)[..n - e.length];
    } else {
      assert e.Content()[e.length..e.length] == [];
    }
  }

  /** An entry that is pulled in part, or left. */
  lemma EntryStays(e: Entry, t: seq<Entry>, n: nat, off: nat)
    requires e.Valid() && AllValid(t) && e.page.Page? && off <= n < e.length
    ensures AllValid(Pulled([e] + t, n, off)) && Content(Pulled([e] + t, n, off)) == (e.Content() + Content(t))[off..n]
  {
    hide Content, AllValid, Pulled;
    var here := HerePulled(e, n, off);
    EntryPulled(e, t, n, off);
    SliceConcat(e.Content(), Content(t), off, n);
    assert here + [] == here;
  }

  /** The entry that takes part of e along. */
  lemma HerePulled(e: Entry, plen: nat, off: nat) returns (here: seq<Entry>)
    requires e.Valid() && e.page.Page? && plen <= e.length
    ensures here == if off >= plen then [] else [Entry(e.page, e.offset + off, plen - off)]
    ensures AllValid(here) && Content(here) == e.Content()[if off < plen then off else plen..plen]
  {
    here := if off >= plen then [] else [Entry(e.page, e.offset + off, plen - off)];
    if off < plen {
      assert here[1..] == [];
      assert Content(here) == here[0].Content() + [];
    }
  }

  lemma SliceConcat(a: Bytes, b: Bytes, i: nat, j: nat)
    requires i <= j <= |a| + |b|
    ensures |a| <= j ==> (a + b)[i..j] == (if i < |a| then a[i..] + b[..j - |a|] else [] + b[i - |a|..j - |a|])
    ensures |a| > j ==> (a + b)[i..j] == a[i..j]
  {
    if |a| <= j {
      if i < |a| {
        assert (a + b)[i..j] == a[i..] + b[..j - |a|];
      } else {
        assert (a + b)[i..j] == b[i - |a|..j - |a|];
      }
    }
  }

  lemma {:induction false} CountMonotone(f: seq<Entry>, b: nat, b': nat, off: nat)
    requires off <= b <= b'
    ensures CountFrom(f, b, off) <= CountFrom(f, b', off)
  {
    if |f| != 0 {
      if off >= f[0].length {
        CountMonotone(f[1..], b - f[0].length, b' - f[0].length, off - f[0].length);
      } else {
        var here := f[0].length - off;
        if here < b {
          CountMonotone(f[1..], b - here, b' - here, 0);
        }
      }
    }
  }

  lemma {:induction false} PulledNothing(f: seq<Entry>)
    ensures Pulled(f, 0, 0) == []
  {
    if |f| != 0 {
      PulledNothing(f[1..]);
    }
  }

  /** dst sized by the count is large enough, and exactly so without an offset. */
  lemma {:induction false} CountBounds(f: seq<Entry>, n: nat, off: nat)
    requires AllValid(f) && off <= n <= |Content(f)|
    ensures |Pulled(f, n, off)| <= CountFrom(f, n, off)
    ensures 0 < n && off == 0 ==> |Pulled(f, n, off)| == CountFrom(f, n, off)
  {
    hide Content, AllValid, Pulled, CountFrom;
    if |f| == 0 {
      NoContent();
      PulledEmpty(n, off);
      CountEmpty(n, off);
      assert f == [];
    } else {
      var e, t := f[0], f[1..];
      ValidTail(f);
      ContentCons(e, t);
      CountCons(e, t, n, off);
      assert |e.Content()| == e.length;
      if e.page.NoPage? {
        NoPageTurn(e, t, n, off);
        CountBounds(t, n, off);
      } else {
        var plen := Least(n, e.length);
        EntryPulled(e, t, n, off);
        if plen == e.length {
          CountBounds(t, n - plen, if off >= plen then off - plen else 0);
          if off < plen {
            CountMonotone(t, n - plen, n - (plen - off), 0);
            PulledNothing(t);
          }
        }
      }
    }
  }

  lemma CountEmpty(n: nat, off: nat)
    requires off <= n
    ensures CountFrom([], n, off) == 0
  {
  }

  lemma CountCons(e: Entry, t: seq<Entry>, n: nat, off: nat)
    requires off <= n
    ensures CountFrom([e] + t, n, off) ==
            if off >= e.length then CountFrom(t, n - e.length, off - e.length)
            else if e.length - off >= n then 1 else 1 + CountFrom(t, n - (e.length - off), 0)
  {
    assert ([e] + t)[1..] == t;
  }

  /** An entry once plen of its bytes are gone. */
  function Shrunk(e: Entry, plen: nat): Entry
    requires plen <= e.length
  {
    Entry(if plen == e.length then NoPage else e.page, e.offset + plen, e.length - plen)
  }

  /** The bytes left when one entry at the front has been dealt with. */
  lemma EntryContent(e: Entry, t: seq<Entry>, plen: nat)
    requires e.Valid() && e.page.Page? && AllValid(t) && plen <= e.length
    ensures Shrunk(e, plen).Valid() && AllValid([e] + t) && AllValid([Shrunk(e, plen)] + t)
    ensures |Content([e] + t)| == e.length + |Content(t)|
    ensures Content([Shrunk(e, plen)] + t) == Content([e] + t)[plen..]
  {
    hide Content, AllValid;
    var e' := Shrunk(e, plen);
    ContentCons(e, t);
    ContentCons(e', t);
    assert e'.Content() == e.Content()[plen..];
    assert (e.Content() + Content(t))[plen..] == e.Content()[plen..] + Content(t);
  }

  /** The entries of the list from entry i of the first scatterlist on. */
  function Rest(l: seq<seq<Entry>>, i: nat): seq<Entry>
    requires 0 < |l| && i <= |l[0]|
  {
    l[0][i..] + Flat(l[1..])
  }

  lemma RestCons(l: seq<seq<Entry>>, i: nat)
    requires 0 < |l| && i < |l[0]|
    ensures Rest(l, i) == [l[0][i]] + Rest(l, i + 1)
  {
  }

  lemma RestUpdate(l: seq<seq<Entry>>, i: nat, e: Entry)
    requires 0 < |l| && i < |l[0]|
    ensures var l' := l[0 := l[0][i := e]];
            Rest(l', i) == [e] + Rest(l, i + 1) && Rest(l', i + 1) == Rest(l, i + 1)
  {
  }

  lemma RestEnds(l: seq<seq<Entry>>)
    requires 0 < |l|
    ensures Rest(l, 0) == Flat(l) && Rest(l, |l[0]|) == Flat(l[1..])
  {
  }

  lemma FrontAndRest(l: seq<seq<Entry>>, i: nat)
    requires 0 < |l| && i <= |l[0]|
    ensures l[0][..i] + Rest(l, i) == Flat(l)
  {
  }

  /** Entries before i that have no page hold no bytes. */
  lemma {:induction false} EmptyFront(a: seq<Entry>, t: seq<Entry>)
    requires (forall k :: 0 <= k < |a| ==> a[k].page.NoPage? && a[k].length == 0) && AllValid(t)
    ensures AllValid(a + t) && Content(a + t) == Content(t)
  {
    if |a| == 0 {
      assert a + t == t;
    } else {
      EmptyFront(a[1..], t);
      NoPageTurn(a[0], a[1..] + t, 0, 0);
      assert a + t == [a[0]] + (a[1..] + t);
    }
  }

  /** What one call of af_alg_pull_tsgl starts from: the content, the bytes to pull, and what goes to dst. */
  datatype Job = Job(c0: Bytes, bytes: nat, toDst: bool, p: seq<Entry>, d0: seq<Entry>)

  /** Where such a call stands: f is what is left of the queue and d what dst holds. */
  ghost predicate Going(g: Job, f: seq<Entry>, used: nat, n: nat, off: nat, j: nat, d: seq<Entry>) {
    && AllValid(f) && used == |Content(f)| && n <= used && g.bytes <= |g.c0| && used - n == |g.c0| - g.bytes
    && Content(f)[n..] == g.c0[g.bytes..]
    && (g.toDst ==> off <= n && j <= |g.p| <= |g.d0| && g.p == g.p[..j] + Pulled(f, n, off) && d == g.p[..j] + g.d0[j..])
  }

  /** One entry: its first plen bytes are taken. */
  lemma GoingOn(g: Job, e: Entry, t: seq<Entry>, used: nat, n: nat, off: nat, j: nat, d: seq<Entry>)
    requires Going(g, [e] + t, used, n, off, j, d) && e.page.Page?
    ensures var plen := Least(n, e.length);
            var write := g.toDst && off < plen;
            && e.length <= used
            && (write ==> j < |d|)
            && Going(g, if plen < e.length then [Shrunk(e, plen)] + t else t, used - plen, n - plen,
                     if !g.toDst then off else if write then 0 else off - plen, if write then j + 1 else j,
                     if write then d[j := Entry(e.page, e.offset + off, plen - off)] else d)
            && (plen < e.length ==> n == plen)
  {
    hide Content, Pulled, AllValid;
    HeadValid(e, t);
    var plen := Least(n, e.length);
    EntryContent(e, t, plen);
    PulledLeft(g.c0, Content([e] + t), g.bytes, n, plen);
    var rest := if plen < e.length then [] else Pulled(t, n - plen, if off >= plen then off - plen else 0);
    if g.toDst {
      EntryPulled(e, t, n, off);
      if off < plen {
        HandOver(g.p, j, g.d0, Entry(e.page, e.offset + off, plen - off), rest);
      } else {
        assert [] + rest == rest;
      }
    }
    if plen < e.length {
      if g.toDst {
        NothingToPull(Shrunk(e, plen), t, if off < plen then 0 else off - plen);
      }
    } else {
      NoPageTurn(Shrunk(e, plen), t, n - plen, 0);
    }
  }

  lemma NothingToPull(e: Entry, t: seq<Entry>, off: nat)
    requires e.page.Page? && 0 < e.length
    ensures Pulled([e] + t, 0, off) == []
  {
  }

  lemma GoingPast(g: Job, e: Entry, t: seq<Entry>, used: nat, n: nat, off: nat, j: nat, d: seq<Entry>)
    requires Going(g, [e] + t, used, n, off, j, d) && e.page.NoPage?
    ensures Going(g, t, used, n, off, j, d) && e.length == 0
  {
    HeadValid(e, t);
    NoPageTurn(e, t, n, off);
  }

  class TxQueue {
    var tsglList: seq<seq<Entry>>
    var used: nat
    var merge: bool
    var init: bool
    var more: bool

    /** `used` is the number of bytes in the queue. */
    ghost predicate Valid()
      reads this
    {
      AllValid(Flat(tsglList)) && used == |Content(Flat(tsglList))|
    }

    /** af_alg_count_tsgl */
    method CountTsgl(nbytes: nat, offs: nat) returns (n: nat)
      requires Valid() && offs <= nbytes
      ensures n == Count(Flat(tsglList), nbytes, offs)
    {
      var bytes: nat, offset: nat := nbytes, offs;
      n := 0;
      if bytes == 0 {
        return;
      }
      ghost var total := CountFrom(Flat(tsglList), nbytes, offs);
      for k := 0 to |tsglList|
        invariant offset <= bytes
        invariant n + CountFrom(Flat(tsglList[k..]), bytes, offset) == total
      {
        var sg := tsglList[k];
        assert Flat(tsglList[k..]) == sg[0..] + Flat(tsglList[k..][1..]);
        assert tsglList[k..][1..] == tsglList[k + 1..];
        for i := 0 to |sg|
          invariant offset <= bytes
          invariant n + CountFrom(sg[i..] + Flat(tsglList[k + 1..]), bytes, offset) == total
        {
          ghost var f := sg[i..] + Flat(tsglList[k + 1..]);
          assert f[0] == sg[i] && f[1..] == sg[i + 1..] + Flat(tsglList[k + 1..]);
          if offset >= sg[i].length {
            offset, bytes := offset - sg[i].length, bytes - sg[i].length;
          } else {
            var bytesCount := sg[i].length - offset;
            offset := 0;
            n := n + 1;
            if bytesCount >= bytes {
              return;
            }
            bytes := bytes - bytesCount;
          }
        }
        assert sg[|sg|..] + Flat(tsglList[k + 1..]) == Flat(tsglList[k + 1..]);
      }
    }

    /** The whole queue when the first i entries have been emptied. */
    lemma WholeOfRest(i: nat)
      requires 0 < |tsglList| && i <= |tsglList[0]| && AllValid(Rest(tsglList, i))
      requires forall k :: 0 <= k < i ==> tsglList[0][k].page.NoPage? && tsglList[0][k].length == 0
      ensures AllValid(Flat(tsglList)) && Content(Flat(tsglList)) == Content(Rest(tsglList, i))
    {
      hide AllValid, Content;
      EmptyFront(tsglList[0][..i], Rest(tsglList, i));
      FrontAndRest(tsglList, i);
    }

    /** The turn of the inner loop for entry i, which has a page; `stop` when the pull ends inside it. */
    method PullEntry(i: nat, toPull0: nat, dst: array?<Entry>, off0: nat, j0: nat, ghost g: Job)
      returns (toPull: nat, off: nat, j: nat, stop: bool)
      requires 0 < |tsglList| && i < |tsglList[0]| && tsglList[0][i].page.Page? && g.toDst == (dst != null)
      requires Going(g, Rest(tsglList, i), used, toPull0, off0, j0, Contents(dst))
      modifies this`tsglList, this`used, dst
      ensures |tsglList| == old(|tsglList|) && tsglList[1..] == old(tsglList[1..]) && |tsglList[0]| == old(|tsglList[0]|)
      ensures forall k :: 0 <= k < i ==> tsglList[0][k] == old(tsglList[0][k])
      ensures !stop ==> tsglList[0][i].page.NoPage? && tsglList[0][i].length == 0
                        && Going(g, Rest(tsglList, i + 1), used, toPull, off, j, Contents(dst))
      ensures stop ==> Stopped(g, Rest(tsglList, i), used, Contents(dst))
    {
      hide Content, Pulled, AllValid, Flat, Rest, Going;
      ghost var l, t := tsglList, Rest(tsglList, i + 1);
      RestCons(l, i);
      var e := tsglList[0][i];
      toPull, off, j := toPull0, off0, j0;
      var plen := Least(toPull, e.length);
      GoingOn(g, e, t, used, toPull, off, j, Contents(dst));
      if dst != null {
        if off >= plen {
          off := off - plen;
        } else {
          dst[j] := Entry(e.page, e.offset + off, plen - off);
          off := 0;
          j := j + 1;
        }
      }
      RestUpdate(l, i, Shrunk(e, plen));
      tsglList := tsglList[0 := tsglList[0][i := Shrunk(e, plen)]];
      toPull := toPull - plen;
      used := used - plen;
      stop := plen < e.length;
      if stop {
        GoingStop(g, Shrunk(e, plen), t, used, off, j, Contents(dst));
      }
    }

    /** af_alg_pull_tsgl.  The caller sized dst by the count with the same offset. */
    method PullTsgl(bytes: nat, dst: array?<Entry>, offset: nat)
      requires Valid() && offset <= bytes <= used
      requires dst != null ==> Count(Flat(tsglList), bytes, offset) <= dst.Length
      modifies this, dst
      ensures Valid() && used == old(used) - bytes
      ensures Content(Flat(tsglList)) == old(Content(Flat(tsglList)))[bytes..]
      ensures dst != null ==> var p := Pulled(old(Flat(tsglList)), bytes, offset);
                              |p| <= dst.Length && dst[..] == p + old(dst[..])[|p|..]
                              && AllValid(p) && Content(p) == old(Content(Flat(tsglList)))[offset..bytes]
      ensures more == old(more)
      ensures if used != 0 then merge == old(merge) && init == old(init) else !merge && init == more && tsglList == []
    {
      hide Content, Pulled, AllValid, Flat, Rest, Count, Going;
      var toPull: nat, off: nat, j: nat := bytes, offset, 0;
      ghost var f0 := Flat(tsglList);
      ghost var g := Job(Content(f0), bytes, dst != null, Pulled(f0, bytes, offset), Contents(dst));
      PulledContent(f0, bytes, offset);
      GoingStart(g, f0, used, bytes, offset);
      while |tsglList| != 0
        invariant Going(g, Flat(tsglList), used, toPull, off, j, Contents(dst))
        invariant more == old(more) && merge == old(merge) && init == old(init)
        decreases |tsglList|
      {
        RestEnds(tsglList);
        ghost var l := tsglList;
        for i := 0 to |tsglList[0]|
          invariant |tsglList| == |l| && tsglList[1..] == l[1..] && |tsglList[0]| == |l[0]|
          invariant forall k :: 0 <= k < i ==> tsglList[0][k].page.NoPage? && tsglList[0][k].length == 0
          invariant Going(g, Rest(tsglList, i), used, toPull, off, j, Contents(dst))
          invariant more == old(more) && merge == old(merge) && init == old(init)
        {
          var e := tsglList[0][i];
          if e.page.NoPage? {
            RestCons(tsglList, i);
            GoingPast(g, e, Rest(tsglList, i + 1), used, toPull, off, j, Contents(dst));
            continue;
          }
          var stop;
          toPull, off, j, stop := PullEntry(i, toPull, dst, off, j, g);
          if stop {
            WholeOfRest(i);
            return;
          }
        }
        RestEnds(tsglList);
        tsglList := tsglList[1..];
      }
      NothingLeft();
      assert tsglList == [];
      GoingEnd(g, used, toPull, off, j, Contents(dst));
      if used == 0 {
        merge := false;
      }
      init := more;
    }
  }

  lemma GoingStart(g: Job, f: seq<Entry>, used: nat, n: nat, off: nat)
    requires AllValid(f) && used == |Content(f)| && off <= n <= used
    requires g.c0 == Content(f) && g.bytes == n
    requires g.toDst ==> g.p == Pulled(f, n, off) && Count(f, n, off) <= |g.d0|
    ensures Going(g, f, used, n, off, 0, g.d0)
  {
    PulledFits(f, n, off);
    assert g.toDst ==> g.p == g.p[..0] + Pulled(f, n, off) && g.d0 == g.p[..0] + g.d0[0..];
  }

  /** What a finished call leaves: f in the queue and d in dst. */
  ghost predicate Stopped(g: Job, f: seq<Entry>, used: nat, d: seq<Entry>) {
    && AllValid(f) && g.bytes <= |g.c0| && used == |Content(f)| == |g.c0| - g.bytes && 0 < used
    && Content(f) == g.c0[g.bytes..] && (g.toDst ==> |g.p| <= |g.d0| && d == g.p + g.d0[|g.p|..])
  }

  /** The call ends inside an entry that still holds bytes. */
  lemma GoingStop(g: Job, e: Entry, t: seq<Entry>, used: nat, off: nat, j: nat, d: seq<Entry>)
    requires Going(g, [e] + t, used, 0, off, j, d) && e.page.Page? && 0 < e.length
    ensures Stopped(g, [e] + t, used, d)
  {
    HeadValid(e, t);
    ContentCons(e, t);
    NothingToPull(e, t, off);
  }

  /** The call ends with the list empty. */
  lemma GoingEnd(g: Job, used: nat, n: nat, off: nat, j: nat, d: seq<Entry>)
    requires Going(g, [], used, n, off, j, d)
    ensures used == 0 == |g.c0| - g.bytes && [] == g.c0[g.bytes..] && (g.toDst ==> d == g.p + g.d0[|g.p|..])
  {
  }

  lemma NothingLeft()
    ensures Flat([]) == [] && AllValid([]) && Content([]) == []
  {
  }

  lemma HeadValid(e: Entry, t: seq<Entry>)
    requires AllValid([e] + t)
    ensures e.Valid() && AllValid(t)
  {
    assert ([e] + t)[0] == e;
    assert forall i :: 0 <= i < |t| ==> ([e] + t)[i + 1] == t[i];
  }

  /** Taking plen more bytes off the front. */
  lemma PulledLeft(c0: Bytes, c: Bytes, bytes: nat, n: nat, plen: nat)
    requires plen <= n <= |c| && bytes <= |c0| && c[n..] == c0[bytes..]
    ensures c[plen..][n - plen..] == c0[bytes..]
  {
  }

  /** One more entry written to dst. */
  lemma HandOver(p: seq<Entry>, j: nat, d0: seq<Entry>, e: Entry, t: seq<Entry>)
    requires j <= |p| <= |d0| && p == p[..j] + ([e] + t)
    ensures j < |p| && p == p[..j + 1] + t && (p[..j] + d0[j..])[j := e] == p[..j + 1] + d0[j + 1..]
  {
    assert p[j] == e;
  }

  /** The caller's dst is large enough. */
  lemma PulledFits(f: seq<Entry>, n: nat, off: nat)
    requires AllValid(f) && off <= n <= |Content(f)|
    ensures |Pulled(f, n, off)| <= Count(f, n, off)
  {
    CountBounds(f, n, off);
    if n == 0 {
      PulledNothing(f);
    }
  }

  function Contents(dst: array?<Entry>): seq<Entry>
    reads dst
  {
    if dst == null then [] else dst[..]
  }
}
