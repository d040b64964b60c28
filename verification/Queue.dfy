/**
 The bounded request queue of the crypto layer.  Requests beyond max_qlen are accepted only when
 they may be backlogged, and `backlog` is a cursor into the same list, at the first of them.
 */
module Queue {
  import opened Options

  datatype Request = Request(id: nat, mayBacklog: bool)

  /** A position in the circular list: a request, or (None) the list head itself. */
  type Cursor = Option<Request>

  const EINPROGRESS := 115
  const EBUSY := 16
  const ENOSPC := 28

  ghost predicate Distinct<T>(s: seq<T>) {
    forall i, j :: 0 <= i < j < |s| ==> s[i] != s[j]
  }

  function IndexOf(list: seq<Request>, r: Request): (i: nat)
    requires r in list
    ensures i < |list| && list[i] == r
  {
    if list[0] == r then 0 else 1 + IndexOf(list[1..], r)
  }

  /** ->next of a list entry. */
  function Next(list: seq<Request>, p: Cursor): Cursor
    requires p.Some? ==> p.value in list
  {
    var i := if p.None? then 0 else IndexOf(list, p.value) + 1;
    if i < |list| then Some(list[i]) else None
  }

  /** ->prev of a list entry. */
  function Prev(list: seq<Request>, p: Cursor): Cursor
    requires p.Some? ==> p.value in list
  {
    var i := if p.None? then |list| else IndexOf(list, p.value);
    if 0 < i then Some(list[i - 1]) else None
  }

  /** The entry at index i, or the list head when the list is not that long. */
  function At(list: seq<Request>, i: nat): Cursor {
    if i < |list| then Some(list[i]) else None
  }

  lemma {:induction false} IndexUnique(list: seq<Request>, i: nat)
    requires Distinct(list) && i < |list|
    ensures IndexOf(list, list[i]) == i
  {
    if 0 < i {
      IndexUnique(list[1..], i - 1);
    }
  }

  /** Following a link from the entry at index i gets to the neighbouring index, through the head. */
  lemma Links(list: seq<Request>, i: nat)
    requires Distinct(list) && i <= |list|
    ensures i < |list| ==> Next(list, At(list, i)) == At(list, i + 1)
    ensures 0 < i ==> Prev(list, At(list, i)) == At(list, i - 1)
    ensures At(list, i).None? <==> i == |list|
    ensures Next(list, None) == At(list, 0) && Prev(list, None) == if |list| == 0 then None else At(list, |list| - 1)
  {
    if i < |list| {
      IndexUnique(list, i);
    }
  }

  /** What a queue of bound max answers to a request, and the list afterwards. */
  function Answer(list: seq<Request>, max: nat, r: Request): int {
    if |list| < max then -EINPROGRESS else if r.mayBacklog then -EBUSY else -ENOSPC
  }

  class CryptoQueue {
    var list: seq<Request>
    var backlog: Cursor
    var qlen: nat
    const maxQlen: nat

    /** The cursor is at index min(qlen, max_qlen). */
    ghost predicate Valid()
      reads this
    {
      Distinct(list) && qlen == |list| && backlog == At(list, maxQlen)
    }

    /** crypto_init_queue */
    constructor (max: nat)
      ensures Valid() && list == [] && maxQlen == max
    {
      list, backlog, qlen, maxQlen := [], None, 0, max;
    }

    /** crypto_enqueue_request */
    method Enqueue(request: Request) returns (err: int)
      requires Valid() && request !in list
      modifies this
      ensures Valid()
      ensures err == Answer(old(list), maxQlen, request)
      ensures list == if err == -ENOSPC then old(list) else old(list) + [request]
    {
      err := -EINPROGRESS;
      if qlen >= maxQlen {
        if !request.mayBacklog {
          return -ENOSPC;
        }
        err := -EBUSY;
        if backlog == None {
          backlog := Some(request);
        }
      }
      qlen := qlen + 1;
      list := list + [request];
    }

    /**
     crypto_enqueue_request_head: regardless of the bound and of the backlog flag.  With a bound of 0
     it loses the cursor.
     */
    method EnqueueHead(request: Request)
      requires Valid() && request !in list
      modifies this
      ensures 0 < maxQlen <==> Valid()
      ensures list == [request] + old(list) && qlen == |list| && (maxQlen == 0 ==> backlog == None)
    {
      Links(list, if maxQlen < |list| then maxQlen else |list|);
      if qlen >= maxQlen {
        backlog := Prev(list, backlog);
      }
      qlen := qlen + 1;
      list := [request] + list;
    }

    /** crypto_dequeue_request */
    method Dequeue() returns (request: Option<Request>)
      requires Valid()
      modifies this
      ensures Valid()
      ensures request == At(old(list), 0)
      ensures list == if old(list) == [] then [] else old(list)[1..]
    {
      if qlen == 0 {
        return None;
      }
      Links(list, if maxQlen < |list| then maxQlen else |list|);
      qlen := qlen - 1;
      if backlog != None {
        backlog := Next(list, backlog);
      }
      request := Some(list[0]);
      list := list[1..];
    }

    /** crypto_get_backlog: the request whose turn it is to be told that it was accepted. */
    method GetBacklog() returns (request: Option<Request>)
      requires Valid()
      ensures request == At(list, maxQlen)
    {
      request := backlog;
    }
  }
}
