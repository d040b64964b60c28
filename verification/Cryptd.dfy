/**
 The software crypto daemon as a step system: any number of CPUs, each with a bounded queue, a
 pending bit for its work item and a worker; users that submit requests from anywhere, their own
 callbacks included; and transforms with a reference count.  The queues are those of module
 Queue, whose contracts say what an enqueue answers and which request get_backlog hands out.
 */
module Cryptd {
  import opened Options
  import opened Queue

  /** What (complete, data) of a request can be: the user's own, cryptd's with a request as data, NULL. */
  datatype Callback = User(cookie: nat) | Daemon(obj: nat) | Nobody

  /** One invocation of a request's complete function: with -EINPROGRESS, or with a final result. */
  datatype Call = Note(cb: Callback) | Final(cb: Callback)

  /**
   A request object, which its user may submit again and again.  `base` is its own (complete, data)
   pair, `saved` the one in the context behind it.  `owner` is the submission it is in flight for.
   `refused` says that a submission got -ENOSPC since the user last set the callback to `cookie`.
   */
  datatype Obj = Obj(hash: bool, mayBacklog: bool, cookie: nat, base: Callback, saved: Callback,
                     owner: Option<nat>, refused: bool)

  /** Where an accepted submission is; one that was refused is not in the map. */
  datatype Place = Queued(cpu: nat) | Held(cpu: nat) | Calling(cpu: nat) | Done

  /**
   A submission.  `busy` records that the answer was -EBUSY rather than -EINPROGRESS, `stale` that
   the object had been refused since its callback was set, `counted` that it holds a reference.
   */
  datatype Rec = Rec(obj: nat, tfm: nat, busy: bool, cookie: nat, stale: bool,
                     counted: bool, calls: seq<Call>, place: Place)

  /** Program counter of a worker; between two values other CPUs and users may take steps. */
  datatype Pc =
    | Idle
    | Fetching
    | Fetched(backlog: Option<Request>, req: Request)
    | Notifying(note: Request, req: Request)
    | Completing(req: Request)
    | Nested(req: Request)                  // the completion has called cryptd's own function once more
    | Crashed(req: Request)                 // it has called NULL
    | UserCalled(req: Request, sawRef: bool)
    | Checking

  datatype Cpu = Cpu(queue: seq<Request>, pending: bool, pc: Pc)

  /** A transform: allocated through cryptd_alloc_* (managed, count starting at 1) or not (count 0). */
  datatype Tfm = Tfm(managed: bool, refcnt: nat, owned: bool, freed: nat)

  datatype State = State(cpus: seq<Cpu>, objs: map<nat, Obj>, recs: map<nat, Rec>, tfms: map<nat, Tfm>)

  datatype Step =
    | Alloc(t: nat, managed: bool)          // allocation of a transform
    | SetCallback(o: nat, hash: bool, cookie: nat, mayBacklog: bool)   // *_request_set_callback
    | Submit(cpu: nat, id: nat, o: nat, t: nat)   // cryptd_*_enqueue on that CPU
    | Drop(t: nat)                          // cryptd_free_*
    | Start(cpu: nat)                       // the workqueue runs the work item
    | Fetch(cpu: nat)                       // get_backlog and dequeue, bottom halves off
    | NotifyBegin(cpu: nat)                 // complete(backlog, -EINPROGRESS): prepare, then the callback
    | NotifyEnd(cpu: nat)                   // the callbacks are swapped back
    | CompleteBegin(cpu: nat)               // complete(req, 0): prepare, child cipher, count read, the callback
    | CompleteEnd(cpu: nat)                 // reference dropped
    | Check(cpu: nat)                       // the final look at qlen

  /** The start of cryptd_*_enqueue: cryptd's own pair goes in, whatever was there is saved. */
  function Swapped(x: Obj, o: nat): Obj { x.(saved := x.base, base := Daemon(o)) }

  /**
   prepare() before a final call: the saved pair goes back.  The cipher and AEAD forms then put
   NULL where it was saved, with the callback of the subrequest; the hash form leaves it.
   */
  function Restored(x: Obj): Obj { x.(base := x.saved, saved := if x.hash then x.saved else Nobody) }

  function Told(x: Rec, call: Call): Rec { x.(calls := x.calls + [call]) }

  function Acquire(t: Tfm): Tfm { if t.refcnt == 0 then t else t.(refcnt := t.refcnt + 1) }

  /** refcount_dec_and_test, freeing the transform when the count reaches 0. */
  function Release(t: Tfm): Tfm
    requires 0 < t.refcnt
  {
    if t.refcnt == 1 then t.(refcnt := 0, freed := t.freed + 1) else t.(refcnt := t.refcnt - 1)
  }

  /** The request a worker is about to call complete(req, 0) on. */
  predicate AtCompletion(pc: Pc) { pc.Completing? || pc.Nested? || (pc.Fetched? && pc.backlog.None?) }

  predicate Known(s: State, id: nat) { id in s.recs && s.recs[id].obj in s.objs && s.recs[id].tfm in s.tfms }

  /** A step may happen here.  Users' steps ask that the handle or request is theirs at that moment. */
  predicate Enabled(s: State, max: nat, step: Step) {
    match step
    case Alloc(t, managed) => t !in s.tfms
    case SetCallback(o, hash, cookie, mayBacklog) =>
      o in s.objs ==> s.objs[o].owner.None? && s.objs[o].hash == hash
    case Submit(cpu, id, o, t) =>
      && cpu < |s.cpus| && id !in s.recs && t in s.tfms && s.tfms[t].owned
      && o in s.objs && s.objs[o].owner.None?
    case Drop(t) => t in s.tfms && s.tfms[t].managed && s.tfms[t].owned && 0 < s.tfms[t].refcnt
    case Start(cpu) => cpu < |s.cpus| && s.cpus[cpu].pending && s.cpus[cpu].pc.Idle?
    case Fetch(cpu) => cpu < |s.cpus| && s.cpus[cpu].pc.Fetching?
    case NotifyBegin(cpu) =>
      cpu < |s.cpus| && s.cpus[cpu].pc.Fetched? && s.cpus[cpu].pc.backlog.Some? && Known(s, s.cpus[cpu].pc.backlog.value.id)
    case NotifyEnd(cpu) => cpu < |s.cpus| && s.cpus[cpu].pc.Notifying? && Known(s, s.cpus[cpu].pc.note.id)
    case CompleteBegin(cpu) => cpu < |s.cpus| && AtCompletion(s.cpus[cpu].pc) && Known(s, s.cpus[cpu].pc.req.id)
    case CompleteEnd(cpu) =>
      && cpu < |s.cpus| && s.cpus[cpu].pc.UserCalled? && s.cpus[cpu].pc.req.id in s.recs
      && s.recs[s.cpus[cpu].pc.req.id].tfm in s.tfms
      && (s.cpus[cpu].pc.sawRef ==> 0 < s.tfms[s.recs[s.cpus[cpu].pc.req.id].tfm].refcnt)
    case Check(cpu) => cpu < |s.cpus| && s.cpus[cpu].pc.Checking?
  }

  function SetCpu(s: State, cpu: nat, c: Cpu): State
    requires cpu < |s.cpus|
  {
    s.(cpus := s.cpus[cpu := c])
  }

  function Apply(s: State, max: nat, step: Step): State
    requires Enabled(s, max, step)
  {
    match step
    case Alloc(t, managed) => s.(tfms := s.tfms[t := Tfm(managed, if managed then 1 else 0, true, 0)])
    case SetCallback(o, hash, cookie, mayBacklog) =>
      var saved := if o in s.objs then s.objs[o].saved else Nobody;
      s.(objs := s.objs[o := Obj(hash, mayBacklog, cookie, User(cookie), saved, None, false)])
    case Submit(cpu, id, o, t) =>
      var c := s.cpus[cpu];
      var x := s.objs[o];
      var r := Request(id, x.mayBacklog);
      var err := Answer(c.queue, max, r);
      if err == -ENOSPC then s.(objs := s.objs[o := Swapped(x, o).(refused := true)])
      else
        State(s.cpus[cpu := c.(queue := c.queue + [r], pending := true)],
              s.objs[o := Swapped(x, o).(owner := Some(id))],
              s.recs[id := Rec(o, t, err == -EBUSY, x.cookie, x.refused, s.tfms[t].refcnt != 0, [], Queued(cpu))],
              s.tfms[t := Acquire(s.tfms[t])])
    case Drop(t) => s.(tfms := s.tfms[t := Release(s.tfms[t]).(owned := false)])
    case Start(cpu) => SetCpu(s, cpu, s.cpus[cpu].(pending := false, pc := Fetching))
    case Fetch(cpu) =>
      var c := s.cpus[cpu];
      if |c.queue| == 0 then SetCpu(s, cpu, c.(pc := Idle))
      else
        var req := c.queue[0];
        s.(cpus := s.cpus[cpu := c.(queue := c.queue[1..], pc := Fetched(At(c.queue, max), req))],
           recs := if req.id in s.recs then s.recs[req.id := s.recs[req.id].(place := Held(cpu))] else s.recs)
    case NotifyBegin(cpu) =>
      var c := s.cpus[cpu];
      var b := c.pc.backlog.value;
      var o := s.recs[b.id].obj;
      s.(cpus := s.cpus[cpu := c.(pc := Notifying(b, c.pc.req))],
         objs := s.objs[o := s.objs[o].(base := s.objs[o].saved)],
         recs := s.recs[b.id := Told(s.recs[b.id], Note(s.objs[o].saved))])
    case NotifyEnd(cpu) =>
      var c := s.cpus[cpu];
      var o := s.recs[c.pc.note.id].obj;
      s.(cpus := s.cpus[cpu := c.(pc := Completing(c.pc.req))], objs := s.objs[o := Swapped(s.objs[o], o)])
    case CompleteBegin(cpu) =>
      var c := s.cpus[cpu];
      var req := c.pc.req;
      var rec := s.recs[req.id];
      var x := s.objs[rec.obj];
      var told := Told(rec, Final(x.saved));
      if x.saved.User? then
        s.(cpus := s.cpus[cpu := c.(pc := UserCalled(req, s.tfms[rec.tfm].refcnt != 0))],
           objs := s.objs[rec.obj := Restored(x).(owner := None)],
           recs := s.recs[req.id := told.(place := Calling(cpu))])
      else
        s.(cpus := s.cpus[cpu := c.(pc := if x.saved.Daemon? then Nested(req) else Crashed(req))],
           objs := s.objs[rec.obj := Restored(x)],
           recs := s.recs[req.id := told])
    case CompleteEnd(cpu) =>
      var c := s.cpus[cpu];
      var x := s.recs[c.pc.req.id];
      s.(cpus := s.cpus[cpu := c.(pc := Checking)],
         recs := s.recs[c.pc.req.id := x.(counted := false, place := Done)],
         tfms := if c.pc.sawRef then s.tfms[x.tfm := Release(s.tfms[x.tfm])] else s.tfms)
    case Check(cpu) =>
      var c := s.cpus[cpu];
      SetCpu(s, cpu, c.(pending := c.pending || |c.queue| != 0, pc := Idle))
  }

  // ----- what holds in every run -----

  /** The calls a submission gets before its final one: one -EINPROGRESS exactly if it was told -EBUSY. */
  function Notes(x: Rec): seq<Call> { if x.busy then [Note(User(x.cookie))] else [] }

  function Full(x: Rec): seq<Call> { Notes(x) + [Final(User(x.cookie))] }

  /** Calls of which none reaches a user. */
  predicate Lost(calls: seq<Call>) { forall k | 0 <= k < |calls| :: calls[k].Final? && !calls[k].cb.User? }

  /** The pair that the submission found in its request and saved. */
  function Found(x: Rec): Callback { if x.stale then Daemon(x.obj) else User(x.cookie) }

  /** A request that is with its user. */
  predicate ObjOk(x: Obj, o: nat) {
    && (x.mayBacklog ==> !x.refused)
    && (x.owner.None? ==> x.base == if x.refused then Daemon(o) else User(x.cookie))
  }

  predicate InFlight(x: Rec) { x.place.Queued? || x.place.Held? }

  /** A submission in flight has its request object to itself. */
  predicate Bound(objs: map<nat, Obj>, x: Rec, id: nat) {
    && x.obj in objs && objs[x.obj].owner == Some(id) && (x.busy ==> !x.stale)
    && objs[x.obj].cookie == x.cookie && objs[x.obj].refused == x.stale
  }

  /** The worker has taken the cursor for this request but not yet made the call. */
  predicate Due(cpu: Cpu, id: nat) {
    cpu.pc.Fetched? && cpu.pc.backlog.Some? && cpu.pc.backlog.value.id == id
  }

  ghost predicate SlotOk(cpu: Cpu, objs: map<nat, Obj>, recs: map<nat, Rec>, max: nat, c: nat, i: nat)
    requires i < |cpu.queue|
  {
    var id := cpu.queue[i].id;
    && id in recs && recs[id].place == Queued(c) && recs[id].obj in objs
    && var x, y := recs[id], objs[recs[id].obj];
       && y.saved == Found(x) && (!x.busy ==> i < max)
       && if cpu.pc.Notifying? && cpu.pc.note.id == id then y.base == User(x.cookie) && x.calls == [Note(User(x.cookie))]
          else y.base == Daemon(x.obj) && x.calls == if i < max && !Due(cpu, id) then Notes(x) else []
  }

  ghost predicate HeldOk(objs: map<nat, Obj>, recs: map<nat, Rec>, c: nat, id: nat) {
    id in recs && var x := recs[id];
    && x.place == Held(c) && x.obj in objs
    && objs[x.obj].base == Daemon(x.obj) && objs[x.obj].saved == Found(x) && x.calls == Notes(x)
  }

  /** A worker that has entered cryptd's function a second time for the same request. */
  ghost predicate LostOk(objs: map<nat, Obj>, recs: map<nat, Rec>, c: nat, id: nat) {
    id in recs && var x := recs[id];
    x.place == Held(c) && x.obj in objs && !objs[x.obj].saved.User? && x.stale && Lost(x.calls)
  }

  ghost predicate WorkerOk(cpu: Cpu, objs: map<nat, Obj>, recs: map<nat, Rec>, max: nat, c: nat) {
    match cpu.pc
    case Fetched(b, req) =>
      HeldOk(objs, recs, c, req.id) &&
      (b.Some? ==> 0 < max <= |cpu.queue| && cpu.queue[max - 1] == b.value && b.value.id in recs && recs[b.value.id].busy)
    case Notifying(note, req) =>
      HeldOk(objs, recs, c, req.id) && 0 < max <= |cpu.queue| && cpu.queue[max - 1] == note && note.id in recs && recs[note.id].busy
    case Completing(req) => HeldOk(objs, recs, c, req.id)
    case Nested(req) => LostOk(objs, recs, c, req.id)
    case Crashed(req) => LostOk(objs, recs, c, req.id)
    case UserCalled(req, sawRef) =>
      req.id in recs && var x := recs[req.id]; x.place == Calling(c) && !x.stale && x.calls == Full(x) && sawRef == x.counted
    case _ => true
  }

  ghost predicate CpuOk(cpu: Cpu, objs: map<nat, Obj>, recs: map<nat, Rec>, max: nat, c: nat) {
    && 0 < max
    && (forall i, j :: 0 <= i < j < |cpu.queue| ==> cpu.queue[i].id != cpu.queue[j].id)
    && (forall i: nat | i < |cpu.queue| :: SlotOk(cpu, objs, recs, max, c, i))
    && WorkerOk(cpu, objs, recs, max, c)
    && (|cpu.queue| != 0 ==> cpu.pending || !cpu.pc.Idle?)
  }

  ghost predicate InQueue(queue: seq<Request>, id: nat) { exists i: nat :: i < |queue| && queue[i].id == id }

  predicate Holds(pc: Pc, id: nat) {
    (pc.Fetched? || pc.Notifying? || pc.Completing? || pc.Nested? || pc.Crashed?) && pc.req.id == id
  }

  /** Every submission is where its record says. */
  ghost predicate PlaceOk(s: State, id: nat)
    requires id in s.recs
  {
    match s.recs[id].place
    case Queued(c) => c < |s.cpus| && InQueue(s.cpus[c].queue, id)
    case Held(c) => c < |s.cpus| && Holds(s.cpus[c].pc, id)
    case Calling(c) => c < |s.cpus| && s.cpus[c].pc.UserCalled? && s.cpus[c].pc.req.id == id
    case Done => !s.recs[id].stale && s.recs[id].calls == Full(s.recs[id])
  }

  ghost predicate FlowOk(s: State, max: nat) {
    && (forall c: nat | c < |s.cpus| :: CpuOk(s.cpus[c], s.objs, s.recs, max, c))
    && (forall id | id in s.recs :: PlaceOk(s, id))
    && (forall id | id in s.recs && InFlight(s.recs[id]) :: Bound(s.objs, s.recs[id], id))
    && (forall o | o in s.objs :: ObjOk(s.objs[o], o))
  }

  /** The accepted submissions of t whose reference has not been dropped. */
  function Live(recs: map<nat, Rec>, t: nat): set<nat> {
    set id | id in recs && recs[id].tfm == t && recs[id].counted
  }

  ghost predicate TfmOk(x: Tfm, live: set<nat>) {
    if x.managed then x.refcnt == (if x.owned then 1 else 0) + |live| && x.freed == (if x.refcnt == 0 then 1 else 0)
    else x.refcnt == 0 && x.owned && x.freed == 0 && live == {}
  }

  ghost predicate RefsOk(s: State) {
    && (forall t | t in s.tfms :: TfmOk(s.tfms[t], Live(s.recs, t)))
    && (forall id | id in s.recs ::
          && s.recs[id].tfm in s.tfms
          && s.recs[id].counted == (s.tfms[s.recs[id].tfm].managed && !s.recs[id].place.Done?))
  }

  ghost predicate Inv(s: State, max: nat) { FlowOk(s, max) && RefsOk(s) }

  predicate OnCpu(x: Rec, c: nat) { x.place == Queued(c) || x.place == Held(c) || x.place == Calling(c) }

  /** Nothing of CPU c changes when only records and requests placed elsewhere do. */
  lemma CpuFrame(cpu: Cpu, s: State, s': State, max: nat, c: nat)
    requires CpuOk(cpu, s.objs, s.recs, max, c)
    requires forall id | id in s.recs && OnCpu(s.recs[id], c) :: id in s'.recs && s'.recs[id] == s.recs[id]
    requires forall id | id in s.recs && OnCpu(s.recs[id], c) && InFlight(s.recs[id]) && s.recs[id].obj in s.objs ::
      s.recs[id].obj in s'.objs && s'.objs[s.recs[id].obj] == s.objs[s.recs[id].obj]
    ensures CpuOk(cpu, s'.objs, s'.recs, max, c)
  {
    forall i: nat | i < |cpu.queue| ensures SlotOk(cpu, s'.objs, s'.recs, max, c, i) {
      assert SlotOk(cpu, s.objs, s.recs, max, c, i);
    }
    if (cpu.pc.Fetched? && cpu.pc.backlog.Some?) || cpu.pc.Notifying? {
      assert SlotOk(cpu, s.objs, s.recs, max, c, max - 1);
    }
  }

  /** No request changes but o. */
  ghost predicate OnlyObj(s: State, s': State, o: nat) {
    forall p | p in s.objs && p != o :: p in s'.objs && s'.objs[p] == s.objs[p]
  }

  /** Of the requests, only those with their users or in flight on CPU c change. */
  ghost predicate ObjsKept(s: State, s': State, c: nat) {
    forall p | p in s.objs ::
      && p in s'.objs
      && (s'.objs[p] != s.objs[p] && s.objs[p].owner.Some? ==>
            s.objs[p].owner.value in s.recs && OnCpu(s.recs[s.objs[p].owner.value], c))
  }

  /** A step on CPU c that leaves the other CPUs alone and moves no record in or out of them. */
  lemma OthersKept(s: State, s': State, max: nat, c: nat)
    requires FlowOk(s, max) && |s'.cpus| == |s.cpus| && c < |s.cpus|
    requires forall d: nat | d < |s.cpus| && d != c :: s'.cpus[d] == s.cpus[d]
    requires forall id | id in s.recs && !OnCpu(s.recs[id], c) :: id in s'.recs && s'.recs[id] == s.recs[id]
    requires ObjsKept(s, s', c)
    ensures forall d: nat | d < |s.cpus| && d != c :: CpuOk(s'.cpus[d], s'.objs, s'.recs, max, d)
    ensures forall id | id in s.recs && !OnCpu(s.recs[id], c) :: PlaceOk(s', id)
    ensures forall id | id in s.recs && !OnCpu(s.recs[id], c) && InFlight(s.recs[id]) :: Bound(s'.objs, s'.recs[id], id)
  {
    forall id | id in s.recs && !OnCpu(s.recs[id], c) && InFlight(s.recs[id])
      ensures var p := s.recs[id].obj; p in s.objs && p in s'.objs && s'.objs[p] == s.objs[p] && Bound(s'.objs, s'.recs[id], id)
    {
      assert Bound(s.objs, s.recs[id], id);
    }
    forall d: nat | d < |s.cpus| && d != c ensures CpuOk(s'.cpus[d], s'.objs, s'.recs, max, d) {
      CpuFrame(s.cpus[d], s, s', max, d);
    }
    forall id | id in s.recs && !OnCpu(s.recs[id], c) ensures PlaceOk(s', id) {
      assert PlaceOk(s, id);
    }
  }

  /** What a user does to a request that is not in flight. */
  lemma FreeFlow(s: State, s': State, max: nat, o: nat)
    requires FlowOk(s, max) && s'.cpus == s.cpus && s'.recs == s.recs && OnlyObj(s, s', o)
    requires o in s.objs ==> s.objs[o].owner.None?
    requires forall p | p in s'.objs && p != o :: p in s.objs
    requires o in s'.objs && ObjOk(s'.objs[o], o)
    ensures FlowOk(s', max)
  {
    forall id | id in s'.recs && InFlight(s'.recs[id]) ensures s.recs[id].obj != o && Bound(s'.objs, s'.recs[id], id) {
      assert Bound(s.objs, s.recs[id], id);
    }
    forall c: nat | c < |s'.cpus| ensures CpuOk(s'.cpus[c], s'.objs, s'.recs, max, c) {
      CpuFrame(s.cpus[c], s, s', max, c);
    }
    forall id | id in s'.recs ensures PlaceOk(s', id) {
      assert PlaceOk(s, id);
    }
    forall p | p in s'.objs ensures ObjOk(s'.objs[p], p) {
      assert p != o ==> s'.objs[p] == s.objs[p];
    }
  }

  lemma SubmitFlow(s: State, max: nat, cpu: nat, id: nat, o: nat, t: nat)
    requires FlowOk(s, max) && Enabled(s, max, Submit(cpu, id, o, t))
    ensures FlowOk(Apply(s, max, Submit(cpu, id, o, t)), max)
  {
    var s' := Apply(s, max, Submit(cpu, id, o, t));
    assert ObjOk(s.objs[o], o);
    if Answer(s.cpus[cpu].queue, max, Request(id, s.objs[o].mayBacklog)) == -ENOSPC {
      FreeFlow(s, s', max, o);
    } else {
      AcceptedFlow(s, s', max, cpu, id, o, t);
    }
  }

  lemma AcceptedFlow(s: State, s': State, max: nat, cpu: nat, id: nat, o: nat, t: nat)
    requires FlowOk(s, max) && Enabled(s, max, Submit(cpu, id, o, t)) && s' == Apply(s, max, Submit(cpu, id, o, t))
    requires Answer(s.cpus[cpu].queue, max, Request(id, s.objs[o].mayBacklog)) != -ENOSPC
    ensures FlowOk(s', max)
  {
    OthersKept(s, s', max, cpu);
    AcceptedCpu(s, s', max, cpu, id, o, t);
    var c, c' := s.cpus[cpu], s'.cpus[cpu];
    forall k | k in s'.recs ensures PlaceOk(s', k) {
      if k == id {
        assert c'.queue[|c.queue|].id == k;
      } else {
        assert PlaceOk(s, k);
        if s.recs[k].place == Queued(cpu) {
          var i: nat :| i < |c.queue| && c.queue[i].id == k;
          assert c'.queue[i].id == k;
        }
      }
    }
    assert ObjOk(s.objs[o], o);
    forall k | k in s'.recs && InFlight(s'.recs[k]) ensures Bound(s'.objs, s'.recs[k], k) {
      if k != id {
        assert Bound(s.objs, s.recs[k], k);
      }
    }
  }

  lemma AcceptedCpu(s: State, s': State, max: nat, cpu: nat, id: nat, o: nat, t: nat)
    requires FlowOk(s, max) && Enabled(s, max, Submit(cpu, id, o, t)) && s' == Apply(s, max, Submit(cpu, id, o, t))
    requires Answer(s.cpus[cpu].queue, max, Request(id, s.objs[o].mayBacklog)) != -ENOSPC
    ensures CpuOk(s'.cpus[cpu], s'.objs, s'.recs, max, cpu)
  {
    var c, c' := s.cpus[cpu], s'.cpus[cpu];
    assert CpuOk(c, s.objs, s.recs, max, cpu);
    assert ObjOk(s.objs[o], o);
    forall k | k in s.recs && OnCpu(s.recs[k], cpu) && InFlight(s.recs[k]) ensures s.recs[k].obj != o {
      assert Bound(s.objs, s.recs[k], k);
    }
    CpuFrame(c, s, s', max, cpu);
    forall i: nat | i < |c'.queue| ensures SlotOk(c', s'.objs, s'.recs, max, cpu, i) {
      if i < |c.queue| {
        assert SlotOk(c, s'.objs, s'.recs, max, cpu, i);
      } else {
        assert c.pc.Notifying? ==> SlotOk(c, s.objs, s.recs, max, cpu, max - 1);
        assert Due(c, id) ==> id in s.recs;
      }
    }
    forall i, j | 0 <= i < j < |c'.queue| ensures c'.queue[i].id != c'.queue[j].id {
      assert SlotOk(c, s.objs, s.recs, max, cpu, i);
    }
  }

  /** A step that changes only transforms, pending bits and a worker that holds nothing. */
  lemma QuietFlow(s: State, s': State, max: nat)
    requires FlowOk(s, max) && s'.objs == s.objs && s'.recs == s.recs && |s'.cpus| == |s.cpus|
    requires forall c: nat | c < |s.cpus| ::
      s'.cpus[c] == s.cpus[c] || (Resting(s.cpus[c].pc) && Resting(s'.cpus[c].pc) && s'.cpus[c].queue == s.cpus[c].queue
        && (|s.cpus[c].queue| != 0 ==> s'.cpus[c].pending || !s'.cpus[c].pc.Idle?))
    ensures FlowOk(s', max)
  {
    forall c: nat | c < |s'.cpus| ensures CpuOk(s'.cpus[c], s'.objs, s'.recs, max, c) {
      assert CpuOk(s.cpus[c], s.objs, s.recs, max, c);
      forall i: nat | i < |s'.cpus[c].queue| ensures SlotOk(s'.cpus[c], s'.objs, s'.recs, max, c, i) {
        assert SlotOk(s.cpus[c], s.objs, s.recs, max, c, i);
      }
    }
    forall id | id in s'.recs ensures PlaceOk(s', id) {
      assert PlaceOk(s, id);
    }
  }

  predicate Resting(pc: Pc) { pc.Idle? || pc.Fetching? || pc.Checking? }

  /** A step of the worker on CPU c that concerns one submission of its own and its request. */
  lemma OwnFlow(s: State, s': State, max: nat, c: nat, id: nat)
    requires FlowOk(s, max) && |s'.cpus| == |s.cpus| && c < |s.cpus| && id in s.recs && OnCpu(s.recs[id], c)
    requires forall d: nat | d < |s.cpus| && d != c :: s'.cpus[d] == s.cpus[d]
    requires s'.recs.Keys == s.recs.Keys && forall k | k in s.recs && k != id :: s'.recs[k] == s.recs[k]
    requires s'.objs.Keys == s.objs.Keys && forall p | p in s.objs && s'.objs[p] != s.objs[p] ::
               s.objs[p].owner == Some(id) && ObjOk(s'.objs[p], p)
    requires CpuOk(s'.cpus[c], s'.objs, s'.recs, max, c)
    requires forall k | k in s.recs && OnCpu(s.recs[k], c) :: PlaceOk(s', k)
    requires InFlight(s'.recs[id]) ==> Bound(s'.objs, s'.recs[id], id)
    ensures FlowOk(s', max)
  {
    OthersKept(s, s', max, c);
    forall k | k in s'.recs && InFlight(s'.recs[k]) ensures Bound(s'.objs, s'.recs[k], k) {
      if k != id {
        assert Bound(s.objs, s.recs[k], k);
      }
    }
    forall p | p in s'.objs ensures ObjOk(s'.objs[p], p) {
      assert ObjOk(s.objs[p], p);
    }
  }

  lemma FetchCpu(s: State, s': State, max: nat, cpu: nat)
    requires FlowOk(s, max) && Enabled(s, max, Fetch(cpu)) && s.cpus[cpu].queue != [] && s' == Apply(s, max, Fetch(cpu))
    ensures CpuOk(s'.cpus[cpu], s'.objs, s'.recs, max, cpu)
  {
    var c, c' := s.cpus[cpu], s'.cpus[cpu];
    assert CpuOk(c, s.objs, s.recs, max, cpu);
    assert SlotOk(c, s.objs, s.recs, max, cpu, 0);
    forall i: nat | i < |c'.queue| ensures SlotOk(c', s'.objs, s'.recs, max, cpu, i) {
      assert SlotOk(c, s.objs, s.recs, max, cpu, i + 1);
    }
    if max < |c.queue| {
      assert SlotOk(c, s.objs, s.recs, max, cpu, max);
    }
  }

  lemma FetchFlow(s: State, max: nat, cpu: nat)
    requires FlowOk(s, max) && Enabled(s, max, Fetch(cpu))
    ensures FlowOk(Apply(s, max, Fetch(cpu)), max)
  {
    var s' := Apply(s, max, Fetch(cpu));
    var c, c' := s.cpus[cpu], s'.cpus[cpu];
    assert CpuOk(c, s.objs, s.recs, max, cpu);
    if c.queue != [] {
      var id := c.queue[0].id;
      FetchCpu(s, s', max, cpu);
      assert SlotOk(c, s.objs, s.recs, max, cpu, 0);
      assert Bound(s.objs, s.recs[id], id);
      forall k | k in s.recs && OnCpu(s.recs[k], cpu) ensures PlaceOk(s', k) {
        assert PlaceOk(s, k);
        if k != id && s.recs[k].place == Queued(cpu) {
          var i: nat :| i < |c.queue| && c.queue[i].id == k;
          assert c'.queue[i - 1].id == k;
        }
      }
      OwnFlow(s, s', max, cpu, id);
    } else {
      QuietFlow(s, s', max);
    }
  }

  /** The request that is being notified is still in this CPU's queue. */
  lemma NotedQueued(s: State, max: nat, cpu: nat)
    requires FlowOk(s, max) && cpu < |s.cpus|
    ensures var pc := s.cpus[cpu].pc;
            && (pc.Fetched? && pc.backlog.Some? ==> pc.backlog.value.id in s.recs && s.recs[pc.backlog.value.id].place == Queued(cpu))
            && (pc.Notifying? ==> pc.note.id in s.recs && s.recs[pc.note.id].place == Queued(cpu))
  {
    var c := s.cpus[cpu];
    assert CpuOk(c, s.objs, s.recs, max, cpu);
    if (c.pc.Fetched? && c.pc.backlog.Some?) || c.pc.Notifying? {
      assert SlotOk(c, s.objs, s.recs, max, cpu, max - 1);
    }
  }

  lemma NotifyBeginCpu(s: State, s': State, max: nat, cpu: nat)
    requires FlowOk(s, max) && Enabled(s, max, NotifyBegin(cpu)) && s' == Apply(s, max, NotifyBegin(cpu))
    ensures CpuOk(s'.cpus[cpu], s'.objs, s'.recs, max, cpu)
  {
    var c, c' := s.cpus[cpu], s'.cpus[cpu];
    assert CpuOk(c, s.objs, s.recs, max, cpu);
    assert SlotOk(c, s.objs, s.recs, max, cpu, max - 1);
    forall i: nat | i < |c'.queue| ensures SlotOk(c', s'.objs, s'.recs, max, cpu, i) {
      assert SlotOk(c, s.objs, s.recs, max, cpu, i);
      assert Bound(s.objs, s.recs[c.queue[i].id], c.queue[i].id);
    }
    assert Bound(s.objs, s.recs[c.pc.req.id], c.pc.req.id);
  }

  lemma NotifyBeginFlow(s: State, max: nat, cpu: nat)
    requires FlowOk(s, max) && Enabled(s, max, NotifyBegin(cpu))
    ensures FlowOk(Apply(s, max, NotifyBegin(cpu)), max)
  {
    hide SlotOk, CpuOk;
    var s' := Apply(s, max, NotifyBegin(cpu));
    var id := s.cpus[cpu].pc.backlog.value.id;
    NotifyBeginCpu(s, s', max, cpu);
    NotedQueued(s, max, cpu);
    assert Bound(s.objs, s.recs[id], id) && ObjOk(s.objs[s.recs[id].obj], s.recs[id].obj);
    forall k | k in s.recs && OnCpu(s.recs[k], cpu) ensures PlaceOk(s', k) {
      assert PlaceOk(s, k);
    }
    OwnFlow(s, s', max, cpu, id);
  }

  lemma NotifyEndCpu(s: State, s': State, max: nat, cpu: nat)
    requires FlowOk(s, max) && Enabled(s, max, NotifyEnd(cpu)) && s' == Apply(s, max, NotifyEnd(cpu))
    ensures CpuOk(s'.cpus[cpu], s'.objs, s'.recs, max, cpu)
  {
    var c, c' := s.cpus[cpu], s'.cpus[cpu];
    assert CpuOk(c, s.objs, s.recs, max, cpu);
    assert SlotOk(c, s.objs, s.recs, max, cpu, max - 1);
    forall i: nat | i < |c'.queue| ensures SlotOk(c', s'.objs, s'.recs, max, cpu, i) {
      assert SlotOk(c, s.objs, s.recs, max, cpu, i);
      assert Bound(s.objs, s.recs[c.queue[i].id], c.queue[i].id);
    }
    assert Bound(s.objs, s.recs[c.pc.req.id], c.pc.req.id);
  }

  lemma NotifyEndFlow(s: State, max: nat, cpu: nat)
    requires FlowOk(s, max) && Enabled(s, max, NotifyEnd(cpu))
    ensures FlowOk(Apply(s, max, NotifyEnd(cpu)), max)
  {
    hide SlotOk, CpuOk;
    var s' := Apply(s, max, NotifyEnd(cpu));
    var id := s.cpus[cpu].pc.note.id;
    NotifyEndCpu(s, s', max, cpu);
    NotedQueued(s, max, cpu);
    assert Bound(s.objs, s.recs[id], id) && ObjOk(s.objs[s.recs[id].obj], s.recs[id].obj);
    forall k | k in s.recs && OnCpu(s.recs[k], cpu) ensures PlaceOk(s', k) {
      assert PlaceOk(s, k);
    }
    OwnFlow(s, s', max, cpu, id);
  }

  lemma CompleteBeginCpu(s: State, s': State, max: nat, cpu: nat)
    requires FlowOk(s, max) && RefsOk(s) && Enabled(s, max, CompleteBegin(cpu)) && s' == Apply(s, max, CompleteBegin(cpu))
    ensures CpuOk(s'.cpus[cpu], s'.objs, s'.recs, max, cpu)
  {
    hide RefsOk, PlaceOk, ObjOk;
    var c, c' := s.cpus[cpu], s'.cpus[cpu];
    assert CpuOk(c, s.objs, s.recs, max, cpu);
    CountMeansRef(s, c.pc.req.id);
    forall i: nat | i < |c'.queue| ensures SlotOk(c', s'.objs, s'.recs, max, cpu, i) {
      assert SlotOk(c, s.objs, s.recs, max, cpu, i);
      assert Bound(s.objs, s.recs[c.queue[i].id], c.queue[i].id);
    }
    assert Bound(s.objs, s.recs[c.pc.req.id], c.pc.req.id);
  }

  /** Whatever it is about to call, the worker holds the request; if a user's pair was saved, it is this user's. */
  lemma CompletionHeld(s: State, max: nat, cpu: nat)
    requires FlowOk(s, max) && Enabled(s, max, CompleteBegin(cpu))
    ensures var x := s.recs[s.cpus[cpu].pc.req.id];
            x.place == Held(cpu) && (s.objs[x.obj].saved.User? ==> !x.stale && s.objs[x.obj].saved == User(x.cookie))
  {
    hide SlotOk;
    assert CpuOk(s.cpus[cpu], s.objs, s.recs, max, cpu);
  }

  lemma CompleteBeginPlaces(s: State, s': State, max: nat, cpu: nat, k: nat)
    requires FlowOk(s, max) && Enabled(s, max, CompleteBegin(cpu)) && s' == Apply(s, max, CompleteBegin(cpu))
    requires k in s.recs && OnCpu(s.recs[k], cpu)
    ensures PlaceOk(s', k)
  {
    hide CpuOk, Bound, ObjOk;
    CompletionHeld(s, max, cpu);
    assert PlaceOk(s, k);
  }

  lemma CompleteBeginFlow(s: State, max: nat, cpu: nat)
    requires FlowOk(s, max) && RefsOk(s) && Enabled(s, max, CompleteBegin(cpu))
    ensures FlowOk(Apply(s, max, CompleteBegin(cpu)), max)
  {
    hide CpuOk, PlaceOk;
    var s' := Apply(s, max, CompleteBegin(cpu));
    var id := s.cpus[cpu].pc.req.id;
    CompleteBeginCpu(s, s', max, cpu);
    CompletionHeld(s, max, cpu);
    assert Bound(s.objs, s.recs[id], id) && ObjOk(s.objs[s.recs[id].obj], s.recs[id].obj);
    forall k | k in s.recs && OnCpu(s.recs[k], cpu) ensures PlaceOk(s', k) {
      CompleteBeginPlaces(s, s', max, cpu, k);
    }
    OwnFlow(s, s', max, cpu, id);
  }

  lemma CompleteEndFlow(s: State, max: nat, cpu: nat)
    requires FlowOk(s, max) && Enabled(s, max, CompleteEnd(cpu))
    ensures FlowOk(Apply(s, max, CompleteEnd(cpu)), max)
  {
    var s' := Apply(s, max, CompleteEnd(cpu));
    var c, c' := s.cpus[cpu], s'.cpus[cpu];
    assert CpuOk(c, s.objs, s.recs, max, cpu);
    forall i: nat | i < |c'.queue| ensures SlotOk(c', s'.objs, s'.recs, max, cpu, i) {
      assert SlotOk(c, s.objs, s.recs, max, cpu, i);
    }
    forall k | k in s.recs && OnCpu(s.recs[k], cpu) ensures PlaceOk(s', k) {
      assert PlaceOk(s, k);
    }
    OwnFlow(s, s', max, cpu, c.pc.req.id);
  }

  lemma SetCallbackFlow(s: State, max: nat, o: nat, hash: bool, cookie: nat, mayBacklog: bool)
    requires FlowOk(s, max) && Enabled(s, max, SetCallback(o, hash, cookie, mayBacklog))
    ensures FlowOk(Apply(s, max, SetCallback(o, hash, cookie, mayBacklog)), max)
  {
    FreeFlow(s, Apply(s, max, SetCallback(o, hash, cookie, mayBacklog)), max, o);
  }

  /** The count a completion reads is non-zero exactly for the submissions that hold a reference. */
  lemma CountMeansRef(s: State, id: nat)
    requires RefsOk(s) && id in s.recs && !s.recs[id].place.Done?
    ensures s.recs[id].tfm in s.tfms && (s.tfms[s.recs[id].tfm].refcnt != 0) == s.recs[id].counted
  {
    var t := s.recs[id].tfm;
    assert TfmOk(s.tfms[t], Live(s.recs, t));
    if s.recs[id].counted {
      assert id in Live(s.recs, t);
    }
  }

  lemma OtherFlow(s: State, max: nat, step: Step)
    requires FlowOk(s, max) && Enabled(s, max, step) && (step.Alloc? || step.Drop? || step.Start? || step.Check?)
    ensures FlowOk(Apply(s, max, step), max)
  {
    if step.Start? || step.Check? {
      assert CpuOk(s.cpus[step.cpu], s.objs, s.recs, max, step.cpu);
    }
    QuietFlow(s, Apply(s, max, step), max);
  }

  /** How Live changes when the record of one submission does. */
  lemma LiveUpdate(recs: map<nat, Rec>, id: nat, x: Rec, t: nat)
    ensures var before, after := Live(recs, t), Live(recs[id := x], t);
            after == (if x.tfm == t && x.counted then before + {id} else before - {id})
  {
  }

  lemma SubmitRefs(s: State, max: nat, cpu: nat, id: nat, o: nat, t: nat)
    requires Inv(s, max) && Enabled(s, max, Submit(cpu, id, o, t))
    ensures RefsOk(Apply(s, max, Submit(cpu, id, o, t)))
  {
    var s' := Apply(s, max, Submit(cpu, id, o, t));
    if Answer(s.cpus[cpu].queue, max, Request(id, s.objs[o].mayBacklog)) == -ENOSPC {
      RefsFrame(s, s');
    } else {
      NewRefs(s, s', id, t);
    }
  }

  lemma NewRefs(s: State, s': State, id: nat, t: nat)
    requires RefsOk(s) && id !in s.recs && t in s.tfms && s.tfms[t].owned && id in s'.recs
    requires s'.tfms == s.tfms[t := Acquire(s.tfms[t])] && s'.recs == s.recs[id := s'.recs[id]]
    requires s'.recs[id].tfm == t && s'.recs[id].counted == (s.tfms[t].refcnt != 0) && !s'.recs[id].place.Done?
    ensures RefsOk(s')
  {
    assert TfmOk(s.tfms[t], Live(s.recs, t));
    forall u | u in s'.tfms ensures TfmOk(s'.tfms[u], Live(s'.recs, u)) {
      assert TfmOk(s.tfms[u], Live(s.recs, u));
      LiveUpdate(s.recs, id, s'.recs[id], u);
      assert id !in Live(s.recs, u);
    }
  }

  lemma CalledFacts(s: State, max: nat, cpu: nat)
    requires FlowOk(s, max) && Enabled(s, max, CompleteEnd(cpu))
    ensures var x := s.recs[s.cpus[cpu].pc.req.id];
            x.place == Calling(cpu) && x.counted == s.cpus[cpu].pc.sawRef
  {
    hide SlotOk;
    assert CpuOk(s.cpus[cpu], s.objs, s.recs, max, cpu);
  }

  lemma ReleasedTfm(x: Tfm, live: set<nat>, live': set<nat>, id: nat)
    requires TfmOk(x, live) && id in live && live' == live - {id}
    ensures 0 < x.refcnt && TfmOk(Release(x), live')
  {
    assert |live'| == |live| - 1;
  }

  lemma DoneTfm(s: State, s': State, id: nat, u: nat)
    requires RefsOk(s) && id in s.recs && u in s.tfms
    requires s'.recs == s.recs[id := s.recs[id].(counted := false, place := Done)]
    requires s'.tfms == if s.recs[id].counted && 0 < s.tfms[s.recs[id].tfm].refcnt
                        then s.tfms[s.recs[id].tfm := Release(s.tfms[s.recs[id].tfm])] else s.tfms
    ensures TfmOk(s'.tfms[u], Live(s'.recs, u))
  {
    hide TfmOk;
    assert TfmOk(s.tfms[u], Live(s.recs, u));
    LiveUpdate(s.recs, id, s'.recs[id], u);
    if s.recs[id].tfm == u && s.recs[id].counted {
      assert id in Live(s.recs, u);
      ReleasedTfm(s.tfms[u], Live(s.recs, u), Live(s'.recs, u), id);
    } else {
      assert Live(s'.recs, u) == Live(s.recs, u);
    }
  }

  lemma CompleteEndRefs(s: State, max: nat, cpu: nat)
    requires Inv(s, max) && Enabled(s, max, CompleteEnd(cpu))
    ensures RefsOk(Apply(s, max, CompleteEnd(cpu)))
  {
    hide FlowOk, TfmOk;
    var s' := Apply(s, max, CompleteEnd(cpu));
    CalledFacts(s, max, cpu);
    forall u | u in s'.tfms ensures TfmOk(s'.tfms[u], Live(s'.recs, u)) {
      DoneTfm(s, s', s.cpus[cpu].pc.req.id, u);
    }
  }

  /** Moving records about without touching references. */
  lemma RefsFrame(s: State, s': State)
    requires RefsOk(s) && s'.tfms == s.tfms && s'.recs.Keys == s.recs.Keys
    requires forall id | id in s.recs ::
      var x, y := s.recs[id], s'.recs[id]; y.tfm == x.tfm && y.counted == x.counted && y.place.Done? == x.place.Done?
    ensures RefsOk(s')
  {
    forall u | u in s'.tfms ensures TfmOk(s'.tfms[u], Live(s'.recs, u)) {
      assert Live(s'.recs, u) == Live(s.recs, u);
    }
  }

  lemma HandleRefs(s: State, max: nat, step: Step)
    requires Inv(s, max) && Enabled(s, max, step) && (step.Alloc? || step.Drop?)
    ensures RefsOk(Apply(s, max, step))
  {
    var s' := Apply(s, max, step);
    forall u | u in s'.tfms ensures TfmOk(s'.tfms[u], Live(s'.recs, u)) {
      if u in s.tfms {
        assert TfmOk(s.tfms[u], Live(s.recs, u));
      } else {
        assert Live(s.recs, u) == {};
      }
    }
  }

  // The steps of a worker other than the last one on a request.

  lemma FetchRefs(s: State, max: nat, step: Step)
    requires Inv(s, max) && Enabled(s, max, step) && (step.Start? || step.Fetch? || step.Check?)
    ensures RefsOk(Apply(s, max, step))
  {
    var cpu := s.cpus[step.cpu];
    assert CpuOk(cpu, s.objs, s.recs, max, step.cpu);
    if |cpu.queue| != 0 {
      assert SlotOk(cpu, s.objs, s.recs, max, step.cpu, 0);
    }
    RefsFrame(s, Apply(s, max, step));
  }

  lemma NoteRefs(s: State, max: nat, step: Step)
    requires Inv(s, max) && Enabled(s, max, step) && (step.NotifyBegin? || step.NotifyEnd?)
    ensures RefsOk(Apply(s, max, step))
  {
    hide FlowOk, TfmOk;
    RefsFrame(s, Apply(s, max, step));
  }

  lemma CompleteBeginRefs(s: State, max: nat, cpu: nat)
    requires Inv(s, max) && Enabled(s, max, CompleteBegin(cpu))
    ensures RefsOk(Apply(s, max, CompleteBegin(cpu)))
  {
    CompletionHeld(s, max, cpu);
    hide FlowOk, TfmOk;
    RefsFrame(s, Apply(s, max, CompleteBegin(cpu)));
  }

  /** Every step of every worker and every user keeps the invariant. */
  lemma StepKeepsInv(s: State, max: nat, step: Step)
    requires Inv(s, max) && Enabled(s, max, step)
    ensures Inv(Apply(s, max, step), max)
  {
    match step
    case SetCallback(o, hash, cookie, mayBacklog) =>
      SetCallbackFlow(s, max, o, hash, cookie, mayBacklog);
      RefsFrame(s, Apply(s, max, step));
    case Submit(cpu, id, o, t) =>
      SubmitFlow(s, max, cpu, id, o, t);
      SubmitRefs(s, max, cpu, id, o, t);
    case Fetch(cpu) =>
      FetchFlow(s, max, cpu);
      FetchRefs(s, max, step);
    case NotifyBegin(cpu) =>
      NotifyBeginFlow(s, max, cpu);
      NoteRefs(s, max, step);
    case NotifyEnd(cpu) =>
      NotifyEndFlow(s, max, cpu);
      NoteRefs(s, max, step);
    case CompleteBegin(cpu) =>
      CompleteBeginFlow(s, max, cpu);
      CompleteBeginRefs(s, max, cpu);
    case CompleteEnd(cpu) =>
      CompleteEndFlow(s, max, cpu);
      CompleteEndRefs(s, max, cpu);
    case _ =>
      OtherFlow(s, max, step);
      if step.Alloc? || step.Drop? {
        HandleRefs(s, max, step);
      } else {
        FetchRefs(s, max, step);
      }
  }

  /** The state cryptd_init_queue leaves: n CPUs with empty queues, no transform, no request. */
  function Init(n: nat): State { State(seq(n, _ => Cpu([], false, Idle)), map[], map[], map[]) }

  /** The state after a run of steps from s, each of them enabled when it is taken. */
  ghost predicate Reaches(s: State, max: nat, steps: seq<Step>, s': State)
    decreases |steps|
  {
    if |steps| == 0 then s' == s
    else Enabled(s, max, steps[0]) && Reaches(Apply(s, max, steps[0]), max, steps[1..], s')
  }

  lemma {:induction false} RunKeepsInv(s: State, max: nat, steps: seq<Step>, s': State)
    requires Inv(s, max) && Reaches(s, max, steps, s')
    ensures Inv(s', max)
    decreases |steps|
  {
    if |steps| != 0 {
      StepKeepsInv(s, max, steps[0]);
      RunKeepsInv(Apply(s, max, steps[0]), max, steps[1..], s');
    }
  }

  lemma {:induction false} Then(s: State, max: nat, steps: seq<Step>, s1: State, step: Step)
    requires Reaches(s, max, steps, s1) && Enabled(s1, max, step)
    ensures Reaches(s, max, steps + [step], Apply(s1, max, step))
    decreases |steps|
  {
    if |steps| == 0 {
      assert Reaches(Apply(s1, max, step), max, (steps + [step])[1..], Apply(s1, max, step));
    } else {
      Then(Apply(s, max, steps[0]), max, steps[1..], s1, step);
      assert (steps + [step])[1..] == steps[1..] + [step];
    }
  }

  lemma InitInv(n: nat, max: nat)
    requires 0 < max
    ensures Inv(Init(n), max)
  {
    forall c: nat | c < n ensures CpuOk(Init(n).cpus[c], Init(n).objs, Init(n).recs, max, c) {
    }
  }

  // ----- what a user can rely on, in any reachable state -----

  /** In state s, this step submits request o and is told -ENOSPC. */
  predicate Refuses(s: State, max: nat, step: Step, o: nat) {
    && step.Submit? && step.o == o && o in s.objs && step.cpu < |s.cpus|
    && Answer(s.cpus[step.cpu].queue, max, Request(step.id, s.objs[o].mayBacklog)) == -ENOSPC
  }

  function StateAfter(s: State, max: nat, steps: seq<Step>): State
    decreases |steps|
  {
    if |steps| == 0 || !Enabled(s, max, steps[0]) then s else StateAfter(Apply(s, max, steps[0]), max, steps[1..])
  }

  /** Step k of the run refused request o, and its callback was not set afterwards. */
  ghost predicate RefusedSince(s: State, max: nat, steps: seq<Step>, o: nat, k: nat) {
    && k < |steps| && Refuses(StateAfter(s, max, steps[..k]), max, steps[k], o)
    && forall j | k < j < |steps| :: !(steps[j].SetCallback? && steps[j].o == o)
  }

  predicate Refused(s: State, o: nat) { o in s.objs && s.objs[o].refused }

  lemma RefusedStep(s: State, max: nat, step: Step, o: nat)
    requires Enabled(s, max, step)
    ensures Refused(Apply(s, max, step), o) <==> !(step.SetCallback? && step.o == o) && (Refused(s, o) || Refuses(s, max, step, o))
  {
  }

  lemma {:induction false} LastStep(s: State, max: nat, steps: seq<Step>, s': State, m: nat) returns (s1: State)
    requires Reaches(s, max, steps, s') && |steps| == m + 1
    ensures s1 == StateAfter(s, max, steps[..m])
    ensures Reaches(s, max, steps[..m], s1) && Enabled(s1, max, steps[m]) && s' == Apply(s1, max, steps[m])
    decreases |steps|
  {
    hide Enabled, Apply;
    if m == 0 {
      s1 := s;
      assert steps[1..] == [] && steps[..0] == [];
    } else {
      var t := Apply(s, max, steps[0]);
      s1 := LastStep(t, max, steps[1..], s', m - 1);
      assert steps[..m][1..] == steps[1..][..m - 1] && steps[..m][0] == steps[0] && steps[1..][m - 1] == steps[m];
    }
  }

  lemma SinceStep(s: State, max: nat, steps: seq<Step>, o: nat, m: nat)
    requires |steps| == m + 1
    ensures (exists k: nat :: RefusedSince(s, max, steps, o, k)) <==>
              && !(steps[m].SetCallback? && steps[m].o == o)
              && ((exists k: nat :: RefusedSince(s, max, steps[..m], o, k)) || Refuses(StateAfter(s, max, steps[..m]), max, steps[m], o))
  {
    hide Answer, StateAfter;
    if k: nat :| RefusedSince(s, max, steps, o, k) {
      if k < m {
        assert steps[..m][..k] == steps[..k] && RefusedSince(s, max, steps[..m], o, k);
      }
    }
    if !(steps[m].SetCallback? && steps[m].o == o) {
      if Refuses(StateAfter(s, max, steps[..m]), max, steps[m], o) {
        assert RefusedSince(s, max, steps, o, m);
      }
      if k: nat :| RefusedSince(s, max, steps[..m], o, k) {
        assert steps[..m][..k] == steps[..k] && RefusedSince(s, max, steps, o, k);
      }
    }
  }

  /** The flag tells what the run was: the request has been refused since its callback was last set. */
  lemma {:induction false} RefusedMeans(n: nat, max: nat, steps: seq<Step>, s: State, o: nat)
    requires Reaches(Init(n), max, steps, s)
    ensures Refused(s, o) <==> exists k: nat :: RefusedSince(Init(n), max, steps, o, k)
    decreases |steps|
  {
    hide Enabled, Apply, Refuses, StateAfter, RefusedSince;
    if |steps| == 0 {
      NeverRefused(n, max, o);
    } else {
      var m := |steps| - 1;
      var s1 := LastStep(Init(n), max, steps, s, m);
      RefusedMeans(n, max, steps[..m], s1, o);
      RefusedStep(s1, max, steps[m], o);
      SinceStep(Init(n), max, steps, o, m);
    }
  }

  lemma NeverRefused(n: nat, max: nat, o: nat)
    ensures !Refused(Init(n), o) && forall k: nat :: !RefusedSince(Init(n), max, [], o, k)
  {
  }

  // ----- the order of handling, read off a run -----

  /** The submission that this step puts into the queue of a CPU, if it is accepted there. */
  function AcceptedBy(s: State, max: nat, step: Step, cpu: nat): seq<nat>
    requires Enabled(s, max, step)
  {
    if step.Submit? && step.cpu == cpu && step.id in Apply(s, max, step).recs then [step.id] else []
  }

  /** The submission that the worker of a CPU has in hand after this step and not before. */
  function TakenBy(s: State, max: nat, step: Step, cpu: nat): seq<nat>
    requires Enabled(s, max, step) && cpu < |s.cpus|
  {
    var pc := Apply(s, max, step).cpus[cpu].pc;
    if s.cpus[cpu].pc.Fetching? && pc.Fetched? then [pc.req.id] else []
  }

  function Accepted(s: State, max: nat, steps: seq<Step>, cpu: nat): seq<nat>
    decreases |steps|
  {
    if |steps| == 0 || !Enabled(s, max, steps[0]) then []
    else AcceptedBy(s, max, steps[0], cpu) + Accepted(Apply(s, max, steps[0]), max, steps[1..], cpu)
  }

  function Taken(s: State, max: nat, steps: seq<Step>, cpu: nat): seq<nat>
    requires cpu < |s.cpus|
    decreases |steps|
  {
    if |steps| == 0 || !Enabled(s, max, steps[0]) then []
    else TakenBy(s, max, steps[0], cpu) + Taken(Apply(s, max, steps[0]), max, steps[1..], cpu)
  }

  function Ids(queue: seq<Request>): (r: seq<nat>)
    ensures |r| == |queue|
  {
    seq(|queue|, i requires 0 <= i < |queue| => queue[i].id)
  }

  lemma SubmitOrder(s: State, max: nat, step: Step, cpu: nat)
    requires Enabled(s, max, step) && cpu < |s.cpus| && step.Submit?
    ensures Ids(s.cpus[cpu].queue) + AcceptedBy(s, max, step, cpu) == TakenBy(s, max, step, cpu) + Ids(Apply(s, max, step).cpus[cpu].queue)
  {
  }

  lemma FetchOrder(s: State, max: nat, step: Step, cpu: nat)
    requires Enabled(s, max, step) && cpu < |s.cpus| && step.Fetch?
    ensures Ids(s.cpus[cpu].queue) + AcceptedBy(s, max, step, cpu) == TakenBy(s, max, step, cpu) + Ids(Apply(s, max, step).cpus[cpu].queue)
  {
  }

  lemma StepOrder(s: State, max: nat, step: Step, cpu: nat)
    requires Enabled(s, max, step) && cpu < |s.cpus|
    ensures Ids(s.cpus[cpu].queue) + AcceptedBy(s, max, step, cpu) == TakenBy(s, max, step, cpu) + Ids(Apply(s, max, step).cpus[cpu].queue)
  {
    if step.Submit? {
      hide AcceptedBy, TakenBy, Enabled, Apply, Ids;
      SubmitOrder(s, max, step, cpu);
    } else if step.Fetch? {
      hide AcceptedBy, TakenBy, Enabled, Apply, Ids;
      FetchOrder(s, max, step, cpu);
    }
  }

  lemma {:induction false} OrderFrom(s: State, max: nat, steps: seq<Step>, s': State, cpu: nat)
    requires Reaches(s, max, steps, s') && cpu < |s.cpus|
    ensures cpu < |s'.cpus|
    ensures Ids(s.cpus[cpu].queue) + Accepted(s, max, steps, cpu) == Taken(s, max, steps, cpu) + Ids(s'.cpus[cpu].queue)
    decreases |steps|
  {
    hide Apply, Enabled, Ids, AcceptedBy, TakenBy;
    if |steps| == 0 {
      assert Ids(s.cpus[cpu].queue) + [] == [] + Ids(s.cpus[cpu].queue);
    } else {
      var s1 := Apply(s, max, steps[0]);
      SameCpus(s, max, steps[0]);
      StepOrder(s, max, steps[0], cpu);
      OrderFrom(s1, max, steps[1..], s', cpu);
      var a, b, x := Ids(s.cpus[cpu].queue), AcceptedBy(s, max, steps[0], cpu), Accepted(s1, max, steps[1..], cpu);
      var c, d, y := TakenBy(s, max, steps[0], cpu), Ids(s1.cpus[cpu].queue), Taken(s1, max, steps[1..], cpu);
      assert a + (b + x) == (a + b) + x && c + (d + x) == (c + d) + x;
      assert c + (y + Ids(s'.cpus[cpu].queue)) == (c + y) + Ids(s'.cpus[cpu].queue);
    }
  }

  lemma SameCpus(s: State, max: nat, step: Step)
    requires Enabled(s, max, step)
    ensures |Apply(s, max, step).cpus| == |s.cpus|
  {
  }

  /**
   First come, first served: on every CPU the submissions accepted there, in order of acceptance, are
   those that its worker has taken, in the order taken, followed by its queue.
   */
  lemma EnqueueOrder(n: nat, max: nat, steps: seq<Step>, s: State, cpu: nat)
    requires Reaches(Init(n), max, steps, s) && cpu < n
    ensures |s.cpus| == n
    ensures Accepted(Init(n), max, steps, cpu) == Taken(Init(n), max, steps, cpu) + Ids(s.cpus[cpu].queue)
  {
    OrderFrom(Init(n), max, steps, s, cpu);
    CpusKept(Init(n), max, steps, s);
    assert Ids([]) == [] && Ids([]) + Accepted(Init(n), max, steps, cpu) == Accepted(Init(n), max, steps, cpu);
  }

  lemma {:induction false} CpusKept(s: State, max: nat, steps: seq<Step>, s': State)
    requires Reaches(s, max, steps, s')
    ensures |s'.cpus| == |s.cpus|
    decreases |steps|
  {
    hide Apply, Enabled;
    if |steps| != 0 {
      SameCpus(s, max, steps[0]);
      CpusKept(Apply(s, max, steps[0]), max, steps[1..], s');
    }
  }

  // ----- the steps on the queue, as the code takes them -----

  lemma FreshRequest(s: State, max: nat, cpu: nat, id: nat, mayBacklog: bool)
    requires Inv(s, max) && cpu < |s.cpus| && id !in s.recs
    ensures Request(id, mayBacklog) !in s.cpus[cpu].queue
  {
    var c := s.cpus[cpu];
    assert CpuOk(c, s.objs, s.recs, max, cpu);
    forall i: nat | i < |c.queue| ensures c.queue[i] != Request(id, mayBacklog) {
      assert SlotOk(c, s.objs, s.recs, max, cpu, i);
    }
  }

  /** cryptd_enqueue_request on the CPU's crypto_queue leaves the queue that the Submit step has. */
  method EnqueueRequest(queue: CryptoQueue, request: Request, ghost s: State, ghost max: nat, ghost cpu: nat, ghost o: nat, ghost t: nat)
    returns (err: int)
    requires Inv(s, max) && Enabled(s, max, Submit(cpu, request.id, o, t)) && request.mayBacklog == s.objs[o].mayBacklog
    requires queue.Valid() && queue.maxQlen == max && queue.list == s.cpus[cpu].queue
    modifies queue
    ensures var s' := Apply(s, max, Submit(cpu, request.id, o, t));
            && queue.Valid() && queue.list == s'.cpus[cpu].queue
            && (err == -ENOSPC <==> request.id !in s'.recs)
            && (err == -EBUSY <==> request.id in s'.recs && s'.recs[request.id].busy)
  {
    FreshRequest(s, max, cpu, request.id, request.mayBacklog);
    err := queue.Enqueue(request);
  }

  /** The part of cryptd_queue_worker with bottom halves off leaves queue and worker of the Fetch step. */
  method TakeRequest(queue: CryptoQueue, ghost s: State, ghost max: nat, ghost cpu: nat) returns (backlog: Option<Request>, req: Option<Request>)
    requires Enabled(s, max, Fetch(cpu))
    requires queue.Valid() && queue.maxQlen == max && queue.list == s.cpus[cpu].queue
    modifies queue
    ensures var c := Apply(s, max, Fetch(cpu)).cpus[cpu];
            && queue.Valid() && queue.list == c.queue
            && c.pc == if req.None? then Idle else Fetched(backlog, req.value)
  {
    backlog := queue.GetBacklog();
    req := queue.Dequeue();
  }

  /** What has been called for a submission wherever it is. */
  lemma CallsOk(s: State, max: nat, id: nat)
    requires Inv(s, max) && id in s.recs
    ensures var x := s.recs[id];
            if x.stale then InFlight(x) && Lost(x.calls) else x.calls <= Full(x) && (x.place.Done? ==> x.calls == Full(x))
  {
    assert PlaceOk(s, id);
    assert InFlight(s.recs[id]) ==> Bound(s.objs, s.recs[id], id);
    match s.recs[id].place
    case Queued(c) =>
      var i: nat :| i < |s.cpus[c].queue| && s.cpus[c].queue[i].id == id;
      assert CpuOk(s.cpus[c], s.objs, s.recs, max, c);
      assert SlotOk(s.cpus[c], s.objs, s.recs, max, c, i);
      if s.cpus[c].pc.Notifying? {
        assert SlotOk(s.cpus[c], s.objs, s.recs, max, c, max - 1);
      }
    case Held(c) => assert CpuOk(s.cpus[c], s.objs, s.recs, max, c);
    case Calling(c) => assert CpuOk(s.cpus[c], s.objs, s.recs, max, c);
    case Done =>
  }

  /**
   Exactly once, if the callback was set after the last -ENOSPC of the request: a finished
   submission has been called with its user's own complete and data, once with -EINPROGRESS if
   and only if the answer was -EBUSY, and then once with the result; an unfinished one has seen a
   prefix of that.
   */
  lemma ExactlyOnce(n: nat, max: nat, steps: seq<Step>, s: State, id: nat)
    requires 0 < max && Reaches(Init(n), max, steps, s) && id in s.recs && !s.recs[id].stale
    ensures var x := s.recs[id];
            x.calls <= Full(x) && (x.place.Done? ==> x.calls == Full(x))
  {
    InitInv(n, max);
    RunKeepsInv(Init(n), max, steps, s);
    CallsOk(s, max, id);
  }

  /** ... and if it was not, no run ever reaches the user, nor finishes the submission. */
  lemma StaleIsLost(n: nat, max: nat, steps: seq<Step>, s: State, id: nat)
    requires 0 < max && Reaches(Init(n), max, steps, s) && id in s.recs && s.recs[id].stale
    ensures !s.recs[id].place.Done? && Lost(s.recs[id].calls)
  {
    InitInv(n, max);
    RunKeepsInv(Init(n), max, steps, s);
    CallsOk(s, max, id);
  }

  /** So the calls of a submission are its user's own if and only if it was not stale. */
  lemma OwnCallsIff(n: nat, max: nat, steps: seq<Step>, s: State, id: nat)
    requires 0 < max && Reaches(Init(n), max, steps, s) && id in s.recs && s.recs[id].calls != []
    ensures (forall call | call in s.recs[id].calls :: call.cb == User(s.recs[id].cookie)) <==> !s.recs[id].stale
  {
    InitInv(n, max);
    RunKeepsInv(Init(n), max, steps, s);
    CallsOk(s, max, id);
    var x := s.recs[id];
    assert x.calls[0] in x.calls;
    if !x.stale {
      forall call | call in x.calls ensures call.cb == User(x.cookie) {
        assert call in Full(x);
      }
    }
  }

  /** A request that may be backlogged is never refused: its submissions are not stale. */
  lemma BacklogSuffices(n: nat, max: nat, steps: seq<Step>, s: State, o: nat)
    requires 0 < max && Reaches(Init(n), max, steps, s) && o in s.objs && s.objs[o].mayBacklog
    ensures s.objs[o].owner.None? ==> s.objs[o].base == User(s.objs[o].cookie)
    ensures forall id | id in s.recs && InFlight(s.recs[id]) && s.recs[id].obj == o :: !s.recs[id].stale
  {
    InitInv(n, max);
    RunKeepsInv(Init(n), max, steps, s);
    assert ObjOk(s.objs[o], o);
    forall id | id in s.recs && InFlight(s.recs[id]) && s.recs[id].obj == o ensures !s.recs[id].stale {
      assert Bound(s.objs, s.recs[id], id);
    }
  }

  // A run in which that happens, for each form of request: one CPU, queues of length 1 and two
  // requests that may not be backlogged.  The second is refused while the first waits, and submitted
  // again later without setting its callback.

  function First(place: Place): Rec {
    Rec(0, 0, false, 7, false, false, if place.Queued? || place.Held? then [] else [Final(User(7))], place)
  }

  /** The first request is waiting, the second has been refused. */
  function Refusal(hash: bool): State {
    State([Cpu([Request(0, false)], true, Idle)],
          map[0 := Obj(hash, false, 7, Daemon(0), User(7), Some(0), false), 1 := Obj(hash, false, 8, Daemon(1), User(8), None, true)],
          map[0 := First(Queued(0))], map[0 := Tfm(false, 0, true, 0)])
  }

  /** The first request is finished and the worker idle. */
  function Emptied(hash: bool): State {
    Refusal(hash).(cpus := [Cpu([], false, Idle)],
                   objs := Refusal(hash).objs[0 := Restored(Refusal(hash).objs[0]).(owner := None)],
                   recs := map[0 := First(Done)])
  }

  lemma ReachSubmitted(hash: bool) returns (steps: seq<Step>, s: State)
    ensures Reaches(Init(1), 1, steps, s)
    ensures s.cpus == [Cpu([Request(0, false)], true, Idle)] && s.recs == Refusal(hash).recs && s.tfms == Refusal(hash).tfms
    ensures s.objs == Refusal(hash).objs[1 := Obj(hash, false, 8, User(8), Nobody, None, false)]
  {
    var s0 := Init(1);
    assert s0.cpus == [Cpu([], false, Idle)];
    Then(s0, 1, [], s0, Alloc(0, false));
    var s1 := Apply(s0, 1, Alloc(0, false));
    Then(s0, 1, [] + [Alloc(0, false)], s1, SetCallback(0, hash, 7, false));
    var s2 := Apply(s1, 1, SetCallback(0, hash, 7, false));
    steps := [] + [Alloc(0, false)] + [SetCallback(0, hash, 7, false)];
    Then(s0, 1, steps, s2, SetCallback(1, hash, 8, false));
    var s3 := Apply(s2, 1, SetCallback(1, hash, 8, false));
    steps := steps + [SetCallback(1, hash, 8, false)];
    Then(s0, 1, steps, s3, Submit(0, 0, 0, 0));
    s := Apply(s3, 1, Submit(0, 0, 0, 0));
    steps := steps + [Submit(0, 0, 0, 0)];
    assert [] + [Request(0, false)] == [Request(0, false)];
    assert s.cpus[0] == Cpu([Request(0, false)], true, Idle);
    assert s.recs == map[0 := First(Queued(0))];
  }

  lemma ReachRefusal(hash: bool) returns (steps: seq<Step>)
    ensures Reaches(Init(1), 1, steps, Refusal(hash))
  {
    var t, s := ReachSubmitted(hash);
    Then(Init(1), 1, t, s, Submit(0, 1, 1, 0));
    steps := t + [Submit(0, 1, 1, 0)];
    assert Apply(s, 1, Submit(0, 1, 1, 0)).objs == Refusal(hash).objs;
  }

  /** A waiting request alone in the queue gets into the worker's hands. */
  lemma ReachHeld(steps: seq<Step>, s: State, r: Request) returns (run: seq<Step>, held: State)
    requires Reaches(Init(1), 1, steps, s) && s.cpus == [Cpu([r], true, Idle)] && r.id in s.recs
    ensures Reaches(Init(1), 1, run, held)
    ensures held == s.(cpus := [Cpu([], false, Fetched(None, r))], recs := s.recs[r.id := s.recs[r.id].(place := Held(0))])
  {
    Then(Init(1), 1, steps, s, Start(0));
    var s1 := Apply(s, 1, Start(0));
    assert s1.cpus == [Cpu([r], false, Fetching)];
    Then(Init(1), 1, steps + [Start(0)], s1, Fetch(0));
    run := steps + [Start(0)] + [Fetch(0)];
    held := Apply(s1, 1, Fetch(0));
    assert [r][1..] == [];
    assert held.cpus == [Cpu([], false, Fetched(None, r))];
  }

  lemma ReachCalled(hash: bool) returns (steps: seq<Step>, s: State)
    ensures Reaches(Init(1), 1, steps, s)
    ensures s == Emptied(hash).(cpus := [Cpu([], false, UserCalled(Request(0, false), false))], recs := map[0 := First(Calling(0))])
  {
    var t0 := ReachRefusal(hash);
    var t, s0 := ReachHeld(t0, Refusal(hash), Request(0, false));
    Then(Init(1), 1, t, s0, CompleteBegin(0));
    steps := t + [CompleteBegin(0)];
    s := Apply(s0, 1, CompleteBegin(0));
    assert [] + [Final(User(7))] == [Final(User(7))];
    assert s.recs == map[0 := First(Calling(0))];
    assert s.cpus == [Cpu([], false, UserCalled(Request(0, false), false))];
    assert s.objs == Emptied(hash).objs;
  }

  lemma ReachEmptied(hash: bool) returns (steps: seq<Step>)
    ensures Reaches(Init(1), 1, steps, Emptied(hash))
  {
    var t, s := ReachCalled(hash);
    Then(Init(1), 1, t, s, CompleteEnd(0));
    var s1 := Apply(s, 1, CompleteEnd(0));
    assert s1.recs == Emptied(hash).recs;
    Then(Init(1), 1, t + [CompleteEnd(0)], s1, Check(0));
    steps := t + [CompleteEnd(0)] + [Check(0)];
    assert Apply(s1, 1, Check(0)).cpus == [Cpu([], false, Idle)];
  }

  lemma ReachHeldAgain(hash: bool) returns (steps: seq<Step>, s: State)
    ensures Reaches(Init(1), 1, steps, s)
    ensures s.cpus == [Cpu([], false, Fetched(None, Request(1, false)))] && s.tfms == Refusal(hash).tfms
    ensures 1 in s.objs && s.objs[1] == Obj(hash, false, 8, Daemon(1), Daemon(1), Some(1), true)
    ensures 1 in s.recs && s.recs[1] == Rec(1, 0, false, 8, true, false, [], Held(0))
  {
    var t := ReachEmptied(hash);
    var s0 := Emptied(hash);
    Then(Init(1), 1, t, s0, Submit(0, 1, 1, 0));
    var s1 := Apply(s0, 1, Submit(0, 1, 1, 0));
    assert [] + [Request(1, false)] == [Request(1, false)];
    assert s1.cpus == [Cpu([Request(1, false)], true, Idle)];
    assert s1.recs[1] == Rec(1, 0, false, 8, true, false, [], Queued(0));
    steps, s := ReachHeld(t + [Submit(0, 1, 1, 0)], s1, Request(1, false));
  }

  /** The second submission enters cryptd's function twice over, and never gets to the user. */
  lemma ResubmissionCanBeLost(hash: bool) returns (steps: seq<Step>, s: State)
    ensures Reaches(Init(1), 1, steps, s) && 1 in s.recs && s.recs[1].stale && !s.recs[1].busy
    ensures s.recs[1].calls == [Final(Daemon(1)), Final(if hash then Daemon(1) else Nobody)]
    ensures s.cpus == [Cpu([], false, if hash then Nested(Request(1, false)) else Crashed(Request(1, false)))]
  {
    var t, s0 := ReachHeldAgain(hash);
    Then(Init(1), 1, t, s0, CompleteBegin(0));
    var s1 := Apply(s0, 1, CompleteBegin(0));
    Then(Init(1), 1, t + [CompleteBegin(0)], s1, CompleteBegin(0));
    steps := t + [CompleteBegin(0)] + [CompleteBegin(0)];
    s := Apply(s1, 1, CompleteBegin(0));
  }

  /**
   Conservation: the count of a managed transform is one for its owner, if not dropped, plus one
   for each accepted submission not finally completed; it is freed once, when that reaches 0.
   */
  lemma Conservation(n: nat, max: nat, steps: seq<Step>, s: State, t: nat)
    requires 0 < max && Reaches(Init(n), max, steps, s) && t in s.tfms && s.tfms[t].managed
    ensures var open := set id | id in s.recs && s.recs[id].tfm == t && !s.recs[id].place.Done?;
            var x := s.tfms[t];
            x.refcnt == (if x.owned then 1 else 0) + |open| && x.freed == (if !x.owned && open == {} then 1 else 0)
  {
    InitInv(n, max);
    RunKeepsInv(Init(n), max, steps, s);
    assert TfmOk(s.tfms[t], Live(s.recs, t));
    assert Live(s.recs, t) == set id | id in s.recs && s.recs[id].tfm == t && !s.recs[id].place.Done?;
  }

  /** What helps: a user may set the callback of any request that is with it, and then no submission of it is of the lost kind. */
  lemma SettingAgainHelps(max: nat, s: State, o: nat, cookie: nat, cpu: nat, id: nat, t: nat)
    requires o in s.objs && s.objs[o].owner.None?
    ensures Enabled(s, max, SetCallback(o, s.objs[o].hash, cookie, s.objs[o].mayBacklog))
    ensures var s1 := Apply(s, max, SetCallback(o, s.objs[o].hash, cookie, s.objs[o].mayBacklog));
            Enabled(s1, max, Submit(cpu, id, o, t)) ==>
              var s2 := Apply(s1, max, Submit(cpu, id, o, t));
              if id in s2.recs then !s2.recs[id].stale && s2.recs[id].cookie == cookie
              else s2.objs[o].refused && s2.cpus == s.cpus && s2.tfms == s.tfms
  {
  }

  /** The owner of a managed transform can always drop it; that frees it at once if nothing is open, and otherwise leaves it to the last submission. */
  lemma DropFrees(n: nat, max: nat, steps: seq<Step>, s: State, t: nat)
    requires 0 < max && Reaches(Init(n), max, steps, s) && t in s.tfms && s.tfms[t].managed && s.tfms[t].owned
    ensures Enabled(s, max, Drop(t))
    ensures var open := set id | id in s.recs && s.recs[id].tfm == t && !s.recs[id].place.Done?;
            var s' := Apply(s, max, Drop(t));
            && s'.recs == s.recs && !s'.tfms[t].owned && s'.tfms[t].refcnt == |open|
            && s'.tfms[t].freed == if open == {} then 1 else 0
  {
    Conservation(n, max, steps, s, t);
    var open := set id | id in s.recs && s.recs[id].tfm == t && !s.recs[id].place.Done?;
    assert s.tfms[t].refcnt == 1 + |open|;
  }

  lemma InFlightKnown(s: State, max: nat, id: nat)
    requires Inv(s, max) && id in s.recs && InFlight(s.recs[id])
    ensures Known(s, id)
  {
    assert Bound(s.objs, s.recs[id], id);
  }

  /** The step a worker takes next. */
  function NextStep(pc: Pc, cpu: nat): Step
    requires !pc.Idle? && !pc.Crashed?
  {
    match pc
    case Fetching => Fetch(cpu)
    case Fetched(b, req) => if b.Some? then NotifyBegin(cpu) else CompleteBegin(cpu)
    case Notifying(note, req) => NotifyEnd(cpu)
    case Completing(req) => CompleteBegin(cpu)
    case Nested(req) => CompleteBegin(cpu)
    case UserCalled(req, sawRef) => CompleteEnd(cpu)
    case Checking => Check(cpu)
  }

  lemma HeldKnown(s: State, max: nat, cpu: nat)
    requires Inv(s, max) && cpu < |s.cpus|
    ensures var pc := s.cpus[cpu].pc;
            pc.Fetched? || pc.Completing? || pc.Nested? ==> Known(s, pc.req.id)
  {
    hide SlotOk, TfmOk;
    assert CpuOk(s.cpus[cpu], s.objs, s.recs, max, cpu);
    var pc := s.cpus[cpu].pc;
    if pc.Fetched? || pc.Completing? || pc.Nested? {
      InFlightKnown(s, max, pc.req.id);
    }
  }

  lemma NotedKnown(s: State, max: nat, cpu: nat)
    requires Inv(s, max) && cpu < |s.cpus|
    ensures var pc := s.cpus[cpu].pc;
            && (pc.Fetched? && pc.backlog.Some? ==> Known(s, pc.backlog.value.id))
            && (pc.Notifying? ==> Known(s, pc.note.id))
  {
    hide FlowOk, RefsOk;
    var pc := s.cpus[cpu].pc;
    NotedQueued(s, max, cpu);
    if pc.Fetched? && pc.backlog.Some? {
      InFlightKnown(s, max, pc.backlog.value.id);
    } else if pc.Notifying? {
      InFlightKnown(s, max, pc.note.id);
    }
  }

  lemma CalledKnown(s: State, max: nat, cpu: nat)
    requires Inv(s, max) && cpu < |s.cpus| && s.cpus[cpu].pc.UserCalled?
    ensures Enabled(s, max, CompleteEnd(cpu))
  {
    hide SlotOk, TfmOk;
    assert CpuOk(s.cpus[cpu], s.objs, s.recs, max, cpu);
    CountMeansRef(s, s.cpus[cpu].pc.req.id);
  }

  lemma NextEnabled(s: State, max: nat, cpu: nat)
    requires Inv(s, max) && cpu < |s.cpus| && !s.cpus[cpu].pc.Idle? && !s.cpus[cpu].pc.Crashed?
    ensures Enabled(s, max, NextStep(s.cpus[cpu].pc, cpu))
  {
    hide Inv, Known;
    HeldKnown(s, max, cpu);
    NotedKnown(s, max, cpu);
    if s.cpus[cpu].pc.UserCalled? {
      CalledKnown(s, max, cpu);
    }
  }

  /**
   No request is forgotten: a non-empty queue has its work pending or its worker still before the
   qlen check, and a worker that is not idle can take its next step, unless a stale submission has
   made it call NULL.
   */
  lemma WorkNotLost(n: nat, max: nat, steps: seq<Step>, s: State, cpu: nat)
    requires 0 < max && Reaches(Init(n), max, steps, s) && cpu < |s.cpus|
    ensures |s.cpus[cpu].queue| != 0 ==> s.cpus[cpu].pending || !s.cpus[cpu].pc.Idle?
    ensures var pc := s.cpus[cpu].pc;
            if pc.Crashed? then pc.req.id in s.recs && s.recs[pc.req.id].stale
            else pc.Idle? || Enabled(s, max, NextStep(pc, cpu))
  {
    InitInv(n, max);
    RunKeepsInv(Init(n), max, steps, s);
    assert CpuOk(s.cpus[cpu], s.objs, s.recs, max, cpu);
    if !s.cpus[cpu].pc.Idle? && !s.cpus[cpu].pc.Crashed? {
      NextEnabled(s, max, cpu);
    }
  }

  // ----- a worker that is let run finishes what it has -----

  ghost predicate NoneStale(s: State, cpu: nat) {
    forall id | id in s.recs && OnCpu(s.recs[id], cpu) :: !s.recs[id].stale
  }

  predicate Rested(c: Cpu) { c.pc.Idle? && c.queue == [] }

  /** What the worker is still going to do, in steps. */
  function Rank(c: Cpu): nat {
    if Rested(c) then 0
    else
      10 * |c.queue| + match c.pc
        case Fetched(_, _) => 8
        case Notifying(_, _) => 7
        case Completing(_) => 6
        case UserCalled(_, _) => 5
        case Checking => 4
        case Idle => 3
        case _ => 2
  }

  /** Records move only from this CPU to where they are finished. */
  ghost predicate OnlyFinishes(s: State, s': State, cpu: nat) {
    && s'.recs.Keys == s.recs.Keys
    && forall id | id in s.recs ::
         s'.recs[id] == s.recs[id]
         || (OnCpu(s.recs[id], cpu) && s'.recs[id].stale == s.recs[id].stale && (OnCpu(s'.recs[id], cpu) || s'.recs[id].place.Done?))
  }

  function RunStep(c: Cpu, cpu: nat): Step
    requires !c.pc.Crashed?
  {
    if c.pc.Idle? then Start(cpu) else NextStep(c.pc, cpu)
  }

  lemma NotLost(s: State, max: nat, cpu: nat)
    requires Inv(s, max) && cpu < |s.cpus| && NoneStale(s, cpu)
    ensures var pc := s.cpus[cpu].pc;
            && !pc.Nested? && !pc.Crashed?
            && (AtCompletion(pc) ==> pc.req.id in s.recs && s.recs[pc.req.id].obj in s.objs && s.objs[s.recs[pc.req.id].obj].saved.User?)
  {
    hide SlotOk;
    assert CpuOk(s.cpus[cpu], s.objs, s.recs, max, cpu);
  }

  lemma RunStepEnabled(s: State, max: nat, cpu: nat)
    requires Inv(s, max) && cpu < |s.cpus| && NoneStale(s, cpu) && !Rested(s.cpus[cpu])
    ensures !s.cpus[cpu].pc.Crashed? && Enabled(s, max, RunStep(s.cpus[cpu], cpu))
  {
    NotLost(s, max, cpu);
    assert CpuOk(s.cpus[cpu], s.objs, s.recs, max, cpu);
    hide Inv;
    if !s.cpus[cpu].pc.Idle? {
      NextEnabled(s, max, cpu);
    }
  }

  lemma RunStepRank(s: State, max: nat, cpu: nat)
    requires cpu < |s.cpus| && !Rested(s.cpus[cpu]) && !s.cpus[cpu].pc.Crashed? && !s.cpus[cpu].pc.Nested?
    requires Enabled(s, max, RunStep(s.cpus[cpu], cpu))
    requires var pc := s.cpus[cpu].pc; AtCompletion(pc) ==> s.objs[s.recs[pc.req.id].obj].saved.User?
    ensures Rank(Apply(s, max, RunStep(s.cpus[cpu], cpu)).cpus[cpu]) < Rank(s.cpus[cpu])
  {
    if AtCompletion(s.cpus[cpu].pc) {
      hide Rank, Enabled;
      CompletionPc(s, max, cpu);
      CompletionRank(s.cpus[cpu], Apply(s, max, CompleteBegin(cpu)).cpus[cpu]);
    }
  }

  lemma CompletionPc(s: State, max: nat, cpu: nat)
    requires cpu < |s.cpus| && AtCompletion(s.cpus[cpu].pc) && Enabled(s, max, CompleteBegin(cpu))
    requires s.objs[s.recs[s.cpus[cpu].pc.req.id].obj].saved.User?
    ensures RunStep(s.cpus[cpu], cpu) == CompleteBegin(cpu)
    ensures var c := Apply(s, max, CompleteBegin(cpu)).cpus[cpu]; c.pc.UserCalled? && c.queue == s.cpus[cpu].queue
  {
  }

  lemma CompletionRank(c: Cpu, c': Cpu)
    requires AtCompletion(c.pc) && !c.pc.Nested? && c'.pc.UserCalled? && c'.queue == c.queue
    ensures Rank(c') < Rank(c)
  {
  }

  /** The record that a worker is about to deal with is its own. */
  lemma DealtWith(s: State, max: nat, cpu: nat)
    requires Inv(s, max) && cpu < |s.cpus|
    ensures var c := s.cpus[cpu];
            && (c.queue != [] ==> c.queue[0].id in s.recs && OnCpu(s.recs[c.queue[0].id], cpu))
            && (AtCompletion(c.pc) && c.pc.req.id in s.recs ==> OnCpu(s.recs[c.pc.req.id], cpu))
            && (c.pc.UserCalled? && c.pc.req.id in s.recs ==> OnCpu(s.recs[c.pc.req.id], cpu))
  {
    var c := s.cpus[cpu];
    assert CpuOk(c, s.objs, s.recs, max, cpu);
    if c.queue != [] {
      assert SlotOk(c, s.objs, s.recs, max, cpu, 0);
    }
  }

  lemma FetchMoves(s: State, max: nat, cpu: nat)
    requires Enabled(s, max, Fetch(cpu)) && (s.cpus[cpu].queue != [] ==> s.cpus[cpu].queue[0].id in s.recs && OnCpu(s.recs[s.cpus[cpu].queue[0].id], cpu))
    ensures OnlyFinishes(s, Apply(s, max, Fetch(cpu)), cpu)
  {
  }

  lemma NoteMoves(s: State, max: nat, step: Step)
    requires (step.NotifyBegin? || step.NotifyEnd?) && Enabled(s, max, step)
    requires step.NotifyBegin? ==> OnCpu(s.recs[s.cpus[step.cpu].pc.backlog.value.id], step.cpu)
    ensures OnlyFinishes(s, Apply(s, max, step), step.cpu)
  {
  }

  lemma CompleteMoves(s: State, max: nat, step: Step)
    requires (step.CompleteBegin? || step.CompleteEnd?) && Enabled(s, max, step) && OnCpu(s.recs[s.cpus[step.cpu].pc.req.id], step.cpu)
    ensures OnlyFinishes(s, Apply(s, max, step), step.cpu)
  {
  }

  lemma RunStepMoves(s: State, max: nat, cpu: nat)
    requires Inv(s, max) && cpu < |s.cpus| && !Rested(s.cpus[cpu]) && !s.cpus[cpu].pc.Crashed?
    requires Enabled(s, max, RunStep(s.cpus[cpu], cpu))
    ensures OnlyFinishes(s, Apply(s, max, RunStep(s.cpus[cpu], cpu)), cpu)
  {
    var step := RunStep(s.cpus[cpu], cpu);
    DealtWith(s, max, cpu);
    NotedQueued(s, max, cpu);
    hide Inv, OnlyFinishes, Apply;
    if step.Fetch? {
      FetchMoves(s, max, cpu);
    } else if step.NotifyBegin? || step.NotifyEnd? {
      NoteMoves(s, max, step);
    } else if step.CompleteBegin? || step.CompleteEnd? {
      CompleteMoves(s, max, step);
    } else {
      OtherMoves(s, max, step);
      SameRecs(s, Apply(s, max, step), cpu);
    }
  }

  lemma OtherMoves(s: State, max: nat, step: Step)
    requires (step.Start? || step.Check?) && Enabled(s, max, step)
    ensures Apply(s, max, step).recs == s.recs
  {
  }

  lemma SameRecs(s: State, s': State, cpu: nat)
    requires s'.recs == s.recs
    ensures OnlyFinishes(s, s', cpu)
  {
  }

  lemma FinishesOn(s: State, s1: State, s2: State, cpu: nat)
    requires OnlyFinishes(s, s1, cpu) && OnlyFinishes(s1, s2, cpu)
    requires forall id | id in s1.recs && OnCpu(s1.recs[id], cpu) :: s2.recs[id].place.Done?
    ensures OnlyFinishes(s, s2, cpu)
    ensures forall id | id in s.recs && OnCpu(s.recs[id], cpu) :: s2.recs[id].place.Done?
  {
  }

  lemma StillNoneStale(s: State, s1: State, cpu: nat)
    requires NoneStale(s, cpu) && OnlyFinishes(s, s1, cpu)
    ensures NoneStale(s1, cpu)
  {
  }

  /**
   From any reachable state, a worker without stale submissions that is let run, and nobody else,
   comes to rest with an empty queue, and every submission that was on its CPU is finished.
   */
  lemma {:induction false} WorkerFinishes(s: State, max: nat, cpu: nat) returns (steps: seq<Step>, s': State)
    requires Inv(s, max) && cpu < |s.cpus| && NoneStale(s, cpu)
    ensures Reaches(s, max, steps, s') && Inv(s', max) && cpu < |s'.cpus| && Rested(s'.cpus[cpu])
    ensures OnlyFinishes(s, s', cpu)
    ensures forall id | id in s.recs && OnCpu(s.recs[id], cpu) :: s'.recs[id].place.Done?
    decreases if cpu < |s.cpus| then Rank(s.cpus[cpu]) else 0
  {
    hide Enabled, Apply, Rank, Inv, OnlyFinishes, NoneStale;
    if Rested(s.cpus[cpu]) {
      steps, s' := [], s;
      RestedHasNone(s, max, cpu);
      SameRecs(s, s, cpu);
    } else {
      NotLost(s, max, cpu);
      RunStepEnabled(s, max, cpu);
      var step := RunStep(s.cpus[cpu], cpu);
      RunStepRank(s, max, cpu);
      RunStepMoves(s, max, cpu);
      StepKeepsInv(s, max, step);
      SameCpus(s, max, step);
      var s1 := Apply(s, max, step);
      StillNoneStale(s, s1, cpu);
      var more;
      more, s' := WorkerFinishes(s1, max, cpu);
      steps := [step] + more;
      assert steps[1..] == more;
      FinishesOn(s, s1, s', cpu);
    }
  }

  lemma RestedHasNone(s: State, max: nat, cpu: nat)
    requires Inv(s, max) && cpu < |s.cpus| && Rested(s.cpus[cpu])
    ensures forall id | id in s.recs :: !OnCpu(s.recs[id], cpu)
  {
    forall id | id in s.recs ensures !OnCpu(s.recs[id], cpu) {
      assert PlaceOk(s, id);
    }
  }

  /** When every queue is empty and every worker idle, every accepted submission is finished. */
  lemma QuiescentMeansDone(n: nat, max: nat, steps: seq<Step>, s: State, id: nat)
    requires 0 < max && Reaches(Init(n), max, steps, s) && id in s.recs
    requires forall c: nat | c < |s.cpus| :: s.cpus[c].queue == [] && s.cpus[c].pc.Idle?
    ensures s.recs[id].place.Done? && s.recs[id].calls == Full(s.recs[id])
  {
    InitInv(n, max);
    RunKeepsInv(Init(n), max, steps, s);
    assert PlaceOk(s, id);
  }
}
