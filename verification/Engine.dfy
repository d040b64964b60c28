/**
 The crypto engine: one pump thread that takes requests from a bounded queue and hands them to
 hardware, which may refuse for lack of room; users submit and hardware finishes in between.
 A refused request goes back to the head of the queue.
 */
module Engine {
  import opened Options
  import opened Queue

  const ESHUTDOWN := 108

  /** What the hardware answers, or the driver when it cannot even ask. */
  datatype Verdict = Accepted | Full | Failed

  /** Program counter of the pump at the points where the lock is not held. */
  datatype Pc =
    | Resting
    | Unpreparing
    | Asking(req: Request, backlog: Option<Request>)
    | Noting(backlog: Option<Request>)
    | Again

  /** History of an accepted request: told -EBUSY, pushed into the backlog by a requeue, times told -EINPROGRESS. */
  datatype Rec = Rec(busy: bool, bumped: bool, notes: nat)

  /**
   `submitted`, `handled` and `recs` are history: the requests accepted into the queue, and those the
   pump is done with, in order; `outstanding` are the ones the hardware has and has not finished.
   */
  datatype State = State(
    queue: seq<Request>, cur: Option<Request>, busy: bool, idling: bool, running: bool, work: bool, pc: Pc,
    submitted: seq<Request>, handled: seq<Request>, outstanding: set<Request>, recs: map<Request, Rec>)

  /** max_qlen and retry_support. */
  datatype Config = Config(max: nat, retry: bool)

  datatype Step =
    | Transfer(r: Request)       // crypto_transfer_request
    | SetRunning(on: bool)       // crypto_engine_start, which queues the pump, and _stop, when there is nothing left to do
    | Pump                       // crypto_pump_requests up to the first unlock
    | Unprepared                 // the hardware is unprepared
    | Ask(v: Verdict)            // prepare, do_one_request, and what follows its result
    | Tell                       // the backlogged request is told -EINPROGRESS
    | Refill                     // start_request again, with retry support
    | Finalize(r: Request)       // crypto_finalize_request

  function Submit(s: State, c: Config, r: Request): State {
    if !s.running then s
    else
      var err := Answer(s.queue, c.max, r);
      var s1 := s.(work := s.work || !s.busy);
      if err == -ENOSPC then s1
      else s1.(queue := s.queue + [r], submitted := s.submitted + [r], recs := s.recs[r := Rec(err == -EBUSY, false, 0)])
  }

  /** start_request: take the cursor and the first request. */
  function Fetch(s: State, c: Config): State {
    if |s.queue| == 0 then s.(pc := Resting)
    else s.(queue := s.queue[1..], cur := if c.retry then s.cur else Some(s.queue[0]), busy := true,
            pc := Asking(s.queue[0], At(s.queue, c.max)))
  }

  /** The requeue at the head; `bumped` is history for the request that crosses the bound. */
  function Requeue(s: State, c: Config, r: Request): State {
    var q := [r] + s.queue;
    var recs := if c.max < |q| && q[c.max] in s.recs && !s.recs[q[c.max]].busy
                then s.recs[q[c.max] := s.recs[q[c.max]].(bumped := true)] else s.recs;
    s.(queue := q, recs := recs, work := true, pc := Resting)
  }

  predicate Enabled(s: State, step: Step) {
    match step
    case Transfer(r) => r !in s.submitted
    case SetRunning(on) => true
    case Pump => s.work && s.pc.Resting?
    case Unprepared => s.pc.Unpreparing?
    case Ask(v) => s.pc.Asking?
    case Tell => s.pc.Noting?
    case Refill => s.pc.Again?
    case Finalize(r) => r in s.outstanding
  }

  function Apply(s: State, c: Config, step: Step): State
    requires Enabled(s, step)
  {
    match step
    case Transfer(r) => Submit(s, c, r)
    case SetRunning(on) =>
      if on then if s.running || s.busy then s else s.(running := true, work := true)
      else if |s.queue| != 0 || s.busy then s else s.(running := false)
    case Pump =>
      var s1 := s.(work := false);
      if !c.retry && s.cur.Some? then s1
      else if s.idling then s1.(work := true)
      else if |s.queue| == 0 || !s.running then
        if !s.busy then s1 else s1.(busy := false, idling := true, pc := Unpreparing)
      else Fetch(s1, c)
    case Unprepared => s.(idling := false, pc := Resting)
    case Ask(v) =>
      var req, done := s.pc.req, s.(handled := s.handled + [s.pc.req], pc := Noting(s.pc.backlog));
      if v == Full && c.retry then Requeue(s, c, req)
      else if v == Accepted then done.(outstanding := s.outstanding + {req})
      else done
    case Tell =>
      var s1 := if s.pc.backlog.Some? && s.pc.backlog.value in s.recs
                then var b := s.pc.backlog.value; s.(recs := s.recs[b := s.recs[b].(notes := s.recs[b].notes + 1)]) else s;
      s1.(pc := if c.retry then Again else Resting)
    case Refill => Fetch(s, c)
    case Finalize(r) =>
      s.(outstanding := s.outstanding - {r}, work := true,
         cur := if !c.retry && s.cur == Some(r) then None else s.cur)
  }

  function Init(): State { State([], None, false, false, true, false, Resting, [], [], {}, map[]) }

  ghost predicate Reaches(s: State, c: Config, steps: seq<Step>, s': State)
    decreases |steps|
  {
    if |steps| == 0 then s' == s
    else Enabled(s, steps[0]) && Reaches(Apply(s, c, steps[0]), c, steps[1..], s')
  }

  // ----- what holds in every run -----

  /** The request between queue and hardware. */
  function InFlight(s: State): seq<Request> { if s.pc.Asking? then [s.pc.req] else [] }

  /** Enqueue order is handling order, and nothing is lost or doubled. */
  ghost predicate Ordered(s: State) {
    && s.submitted == s.handled + InFlight(s) + s.queue
    && Distinct(s.submitted)
    && (forall r :: r in s.submitted <==> r in s.recs)
    && (forall r :: r in s.outstanding ==> r in s.handled)
  }

  /** Without retry support the hardware has at most the one request the engine calls current. */
  ghost predicate OneAtATime(s: State, c: Config) {
    && (s.pc.Again? ==> c.retry)
    && (!c.retry ==>
          && s.outstanding <= (if s.cur.Some? then {s.cur.value} else {})
          && (s.pc.Asking? ==> s.cur == Some(s.pc.req) && s.outstanding == {}))
  }

  predicate Late(x: Rec) { x.busy || x.bumped }

  /** The history of the request at index i of the queue. */
  ghost predicate SlotOk(s: State, c: Config, i: nat)
    requires i < |s.queue|
  {
    s.queue[i] in s.recs && var x := s.recs[s.queue[i]];
    if i >= c.max then Late(x) && x.notes == 0
    else if i == c.max - 1 && s.pc.Asking? then
      x.notes == 0 && Late(x) == (s.pc.backlog == Some(s.queue[i]))
    else if i == c.max - 1 && s.pc.Noting? && s.pc.backlog == Some(s.queue[i]) then x.notes == 0 && Late(x)
    else x.notes == if Late(x) then 1 else 0
  }

  ghost predicate NotesOk(s: State, c: Config) {
    && 0 < c.max
    && (forall i: nat | i < |s.queue| :: SlotOk(s, c, i))
    && (forall r | r in s.handled || r in InFlight(s) :: r in s.recs && s.recs[r].notes == if Late(s.recs[r]) then 1 else 0)
    && (s.pc.Asking? && s.pc.backlog.Some? ==> c.max <= |s.queue| && s.queue[c.max - 1] == s.pc.backlog.value)
    && (s.pc.Noting? && s.pc.backlog.Some? ==> c.max <= |s.queue| && s.queue[c.max - 1] == s.pc.backlog.value)
  }

  ghost predicate Inv(s: State, c: Config) { Ordered(s) && OneAtATime(s, c) && NotesOk(s, c) && (s.idling ==> s.pc.Unpreparing?) }

  lemma FetchOrder(s: State, c: Config)
    requires Ordered(s) && OneAtATime(s, c) && !s.pc.Asking? && (c.retry || s.cur.None?)
    ensures Ordered(Fetch(s, c)) && OneAtATime(Fetch(s, c), c)
  {
    if |s.queue| != 0 {
      assert s.handled + [] + s.queue == s.handled + [s.queue[0]] + s.queue[1..];
    }
  }

  lemma SubmitOrder(s: State, c: Config, r: Request)
    requires Ordered(s) && OneAtATime(s, c) && r !in s.submitted
    ensures Ordered(Submit(s, c, r)) && OneAtATime(Submit(s, c, r), c)
  {
    assert s.handled + InFlight(s) + (s.queue + [r]) == (s.handled + InFlight(s) + s.queue) + [r];
  }

  lemma AskOrder(s: State, c: Config, v: Verdict)
    requires Ordered(s) && s.pc.Asking?
    ensures Ordered(Apply(s, c, Ask(v)))
  {
    var req, s' := s.pc.req, Apply(s, c, Ask(v));
    QueuedIsSubmitted(s);
    assert s.submitted[|s.handled|] == req;
    Regroup(s.handled, req, s.queue);
    forall r ensures r in s'.submitted <==> r in s'.recs {
      assert r in s.submitted <==> r in s.recs;
    }
  }

  lemma Regroup(h: seq<Request>, r: Request, q: seq<Request>)
    ensures h + [r] + q == h + [] + ([r] + q) && h + [r] + q == (h + [r]) + [] + q
  {
  }

  lemma SameOrder(s: State, s': State)
    requires Ordered(s) && s'.submitted == s.submitted && s'.handled == s.handled && s'.queue == s.queue
    requires InFlight(s') == InFlight(s) && s'.recs.Keys == s.recs.Keys && s'.outstanding <= s.outstanding
    ensures Ordered(s')
  {
  }

  lemma QueuedIsSubmitted(s: State)
    requires Ordered(s)
    ensures forall i :: 0 <= i < |s.queue| ==> s.queue[i] in s.submitted
    ensures forall r :: r in s.handled ==> r in s.submitted
  {
    assert forall i :: 0 <= i < |s.queue| ==> s.queue[i] == s.submitted[|s.handled| + |InFlight(s)| + i];
    assert forall i :: 0 <= i < |s.handled| ==> s.handled[i] == s.submitted[i];
  }

  lemma StepKeepsOrder(s: State, c: Config, step: Step)
    requires Ordered(s) && OneAtATime(s, c) && Enabled(s, step)
    ensures Ordered(Apply(s, c, step)) && OneAtATime(Apply(s, c, step), c)
  {
    hide Ordered;
    match step
    case Transfer(r) => SubmitOrder(s, c, r);
    case Pump =>
      var s1 := s.(work := false);
      SameOrder(s, s1);
      if (c.retry || s.cur.None?) && !s.idling && |s.queue| != 0 && s.running {
        FetchOrder(s1, c);
      } else {
        SameOrder(s, Apply(s, c, step));
      }
    case Refill => FetchOrder(s, c);
    case Ask(v) => AskOrder(s, c, v);
    case _ =>
      SameOrder(s, Apply(s, c, step));
  }

  lemma FetchNotes(s: State, c: Config)
    requires Ordered(s) && NotesOk(s, c) && (s.pc.Resting? || s.pc.Again?)
    ensures NotesOk(Fetch(s, c), c)
  {
    var s' := Fetch(s, c);
    if |s.queue| != 0 {
      assert SlotOk(s, c, 0);
      forall i: nat | i < |s'.queue| ensures SlotOk(s', c, i) {
        assert SlotOk(s, c, i + 1);
        if i == c.max - 1 {
          assert s'.pc.backlog == Some(s'.queue[i]);
        }
      }
    }
  }

  lemma SubmitNotes(s: State, c: Config, r: Request)
    requires Ordered(s) && NotesOk(s, c) && r !in s.submitted
    ensures NotesOk(Submit(s, c, r), c)
  {
    var s' := Submit(s, c, r);
    QueuedIsSubmitted(s);
    forall i: nat | i < |s'.queue| ensures SlotOk(s', c, i) {
      if i < |s.queue| {
        assert SlotOk(s, c, i);
        assert s'.queue[i] == s.queue[i] && s.queue[i] in s.submitted;
      } else {
        assert i == |s.queue|;
        if i == c.max - 1 && (s.pc.Asking? || s.pc.Noting?) {
          assert s.pc.backlog.None?;
        }
      }
    }
  }

  lemma RequeueNotes(s: State, c: Config)
    requires Ordered(s) && NotesOk(s, c) && s.pc.Asking?
    ensures NotesOk(Requeue(s, c, s.pc.req), c)
  {
    var s' := Requeue(s, c, s.pc.req);
    QueueDistinct(s);
    forall i: nat | i < |s'.queue| ensures SlotOk(s', c, i) {
      if 0 < i {
        assert SlotOk(s, c, i - 1);
      } else {
        assert s.pc.req in InFlight(s);
      }
      if c.max < |s'.queue| {
        assert SlotOk(s, c, c.max - 1);
      }
    }
  }

  lemma QueueDistinct(s: State)
    requires Ordered(s)
    ensures Distinct(s.queue)
    ensures forall i :: 0 <= i < |s.queue| ==> s.queue[i] !in s.handled && s.queue[i] !in InFlight(s)
    ensures s.pc.Asking? ==> s.pc.req !in s.handled
  {
    var n := |s.handled| + |InFlight(s)|;
    assert forall i :: 0 <= i < |s.queue| ==> s.queue[i] == s.submitted[n + i];
    assert forall i :: 0 <= i < |s.handled| ==> s.handled[i] == s.submitted[i];
    assert s.pc.Asking? ==> s.submitted[|s.handled|] == s.pc.req;
  }

  lemma HandledNotes(s: State, c: Config, v: Verdict)
    requires Ordered(s) && NotesOk(s, c) && s.pc.Asking? && !(v == Full && c.retry)
    ensures NotesOk(Apply(s, c, Ask(v)), c)
  {
    var s' := Apply(s, c, Ask(v));
    assert s.pc.req in InFlight(s);
    forall i: nat | i < |s'.queue| ensures SlotOk(s', c, i) {
      assert SlotOk(s, c, i);
    }
  }

  lemma TellHandled(s: State, c: Config, r: Request)
    requires Ordered(s) && NotesOk(s, c) && s.pc.Noting? && r in s.handled
    ensures var recs := Apply(s, c, Tell).recs; r in recs && recs[r].notes == if Late(recs[r]) then 1 else 0
  {
    QueueDistinct(s);
    if s.pc.backlog.Some? {
      assert SlotOk(s, c, c.max - 1);
      assert s.pc.backlog.value !in s.handled;
    }
  }

  lemma TellNotes(s: State, c: Config)
    requires Ordered(s) && NotesOk(s, c) && s.pc.Noting?
    ensures NotesOk(Apply(s, c, Tell), c)
  {
    hide SlotOk, Late, Ordered;
    var s' := Apply(s, c, Tell);
    assert Distinct(s.queue) by { QueueDistinct(s); }
    forall i: nat | i < |s'.queue| ensures SlotOk(s', c, i) {
      TellSlot(s, c, i);
    }
    forall r | r in s'.handled || r in InFlight(s') ensures r in s'.recs && s'.recs[r].notes == if Late(s'.recs[r]) then 1 else 0 {
      TellHandled(s, c, r);
    }
  }

  lemma TellSlot(s: State, c: Config, i: nat)
    requires NotesOk(s, c) && s.pc.Noting? && i < |s.queue| && Distinct(s.queue)
    ensures SlotOk(Apply(s, c, Tell), c, i)
  {
    assert SlotOk(s, c, i);
    if s.pc.backlog.Some? {
      assert SlotOk(s, c, c.max - 1);
      if i != c.max - 1 {
        assert s.queue[i] != s.pc.backlog.value;
      }
    }
  }

  lemma StepKeepsInv(s: State, c: Config, step: Step)
    requires Inv(s, c) && Enabled(s, step)
    ensures Inv(Apply(s, c, step), c)
  {
    StepKeepsOrder(s, c, step);
    match step
    case Transfer(r) => SubmitNotes(s, c, r);
    case Pump =>
      var s1 := s.(work := false);
      SameNotes(s, s1, c);
      if (c.retry || s.cur.None?) && !s.idling {
        if |s.queue| != 0 && s.running {
          FetchNotes(s1, c);
        } else {
          SameNotes(s, Apply(s, c, step), c);
        }
      }
    case Refill => FetchNotes(s, c);
    case Ask(v) =>
      if v == Full && c.retry {
        RequeueNotes(s, c);
      } else {
        HandledNotes(s, c, v);
      }
    case Tell => TellNotes(s, c);
    case _ => SameNotes(s, Apply(s, c, step), c);
  }

  lemma SameNotes(s: State, s': State, c: Config)
    requires NotesOk(s, c) && s'.queue == s.queue && s'.recs == s.recs && s'.handled == s.handled
    requires s'.pc == s.pc || (!s.pc.Asking? && !s.pc.Noting? && !s'.pc.Asking? && !s'.pc.Noting?)
    ensures NotesOk(s', c)
  {
    forall i: nat | i < |s'.queue| ensures SlotOk(s', c, i) {
      assert SlotOk(s, c, i);
    }
  }

  lemma {:induction false} RunKeepsInv(s: State, c: Config, steps: seq<Step>, s': State)
    requires Inv(s, c) && Reaches(s, c, steps, s')
    ensures Inv(s', c)
    decreases |steps|
  {
    if |steps| != 0 {
      StepKeepsInv(s, c, steps[0]);
      RunKeepsInv(Apply(s, c, steps[0]), c, steps[1..], s');
    }
  }

  // ----- what the engine promises -----

  /** The pump deals with requests exactly in the order in which they were accepted, whatever is refused and retried. */
  lemma EnqueueOrder(c: Config, steps: seq<Step>, s: State)
    requires 0 < c.max && Reaches(Init(), c, steps, s)
    ensures s.submitted == s.handled + InFlight(s) + s.queue && Distinct(s.submitted)
  {
    RunKeepsInv(Init(), c, steps, s);
  }

  /** Without retry support at most one request is with the hardware at any time. */
  lemma AtMostOne(c: Config, steps: seq<Step>, s: State)
    requires 0 < c.max && !c.retry && Reaches(Init(), c, steps, s)
    ensures |s.outstanding| <= 1 && (s.pc.Asking? ==> s.outstanding == {})
  {
    RunKeepsInv(Init(), c, steps, s);
    if s.outstanding != {} {
      var r :| r in s.outstanding;
      assert s.cur == Some(r);
      assert s.outstanding == {r};
    }
  }

  /**
   A request the pump is done with was told -EINPROGRESS once if it had been answered -EBUSY, or if
   a requeue at the head had pushed it out of the first max_qlen; and otherwise not at all.
   */
  lemma NotifiedOnce(c: Config, steps: seq<Step>, s: State, r: Request)
    requires 0 < c.max && Reaches(Init(), c, steps, s) && r in s.handled
    ensures r in s.recs && s.recs[r].notes == if s.recs[r].busy || s.recs[r].bumped then 1 else 0
  {
    RunKeepsInv(Init(), c, steps, s);
  }

  lemma Stay(s: State, c: Config)
    ensures Reaches(s, c, [], s)
  {
  }

  lemma Before(s: State, c: Config, step: Step, steps: seq<Step>, s': State)
    requires Enabled(s, step) && Reaches(Apply(s, c, step), c, steps, s')
    ensures Reaches(s, c, [step] + steps, s')
  {
    hide Enabled, Apply;
    assert ([step] + steps)[1..] == steps;
  }

  /** The second case happens: here a request answered -EINPROGRESS is told -EINPROGRESS again. */
  lemma RequeueCanNotifyTwice() returns (c: Config, steps: seq<Step>, s: State, r: Request)
    ensures c.max == 1 && c.retry && Reaches(Init(), c, steps, s)
    ensures r in s.recs && !s.recs[r].busy && s.recs[r].notes == 1
  {
    c := Config(1, true);
    var a := Request(0, true);
    r := Request(1, true);
    var s1 := Apply(Init(), c, Transfer(a));
    var s2 := Apply(s1, c, Pump);
    var s3 := Apply(s2, c, Transfer(r));
    var s4 := Apply(s3, c, Ask(Full));
    var s5 := Apply(s4, c, Pump);
    var s6 := Apply(s5, c, Ask(Accepted));
    s := Apply(s6, c, Tell);
    assert s3.queue == [r] && s4.queue == [a, r] && s5.queue == [r];
    hide Reaches;
    Stay(s, c);
    Before(s6, c, Tell, [], s);
    Before(s5, c, Ask(Accepted), [Tell] + [], s);
    Before(s4, c, Pump, [Ask(Accepted)] + ([Tell] + []), s);
    steps := [Pump] + ([Ask(Accepted)] + ([Tell] + []));
    Before(s3, c, Ask(Full), steps, s);
    steps := [Ask(Full)] + steps;
    Before(s2, c, Transfer(r), steps, s);
    steps := [Transfer(r)] + steps;
    Before(s1, c, Pump, steps, s);
    steps := [Pump] + steps;
    Before(Init(), c, Transfer(a), steps, s);
    steps := [Transfer(a)] + steps;
  }

  /** cur_req names a request that the hardware does not have: a driver failed it, without retry support. */
  predicate Stuck(s: State, c: Config) {
    !c.retry && s.cur.Some? && s.cur.value !in s.outstanding && s.outstanding == {} && !s.pc.Asking? && !s.pc.Again?
  }

  /** From then on no request is taken from the queue, whatever happens. */
  lemma {:induction false} StuckForGood(s: State, c: Config, steps: seq<Step>, s': State)
    requires Stuck(s, c) && Reaches(s, c, steps, s')
    ensures Stuck(s', c) && s'.handled == s.handled && s.queue <= s'.queue
    decreases |steps|
  {
    if |steps| != 0 {
      var s1 := Apply(s, c, steps[0]);
      assert Stuck(s1, c) && s1.handled == s.handled && s.queue <= s1.queue;
      StuckForGood(s1, c, steps[1..], s');
    }
  }

  /** Without retry support a request the driver fails is exactly what gets the engine stuck. */
  lemma FailureSticks(s: State, c: Config, step: Step)
    requires Inv(s, c) && Enabled(s, step) && !c.retry && !Stuck(s, c)
    ensures Stuck(Apply(s, c, step), c) <==> step.Ask? && !step.v.Accepted?
  {
    if step.Ask? {
      assert s.cur == Some(s.pc.req);
    }
  }

  // ----- nothing is forgotten -----

  /** With retry support: the driver has failed the last request, and nothing will wake the pump. */
  predicate Asleep(s: State, c: Config) {
    c.retry && s.pc.Resting? && s.busy && s.running && !s.work && !s.idling && s.outstanding == {}
  }

  /** From then on it is never woken. */
  lemma {:induction false} AsleepForGood(s: State, c: Config, steps: seq<Step>, s': State)
    requires Asleep(s, c) && Reaches(s, c, steps, s')
    ensures Asleep(s', c) && s'.handled == s.handled && s.queue <= s'.queue
    decreases |steps|
  {
    if |steps| != 0 {
      var s1 := Apply(s, c, steps[0]);
      assert Asleep(s1, c) && s1.handled == s.handled && s.queue <= s1.queue;
      AsleepForGood(s1, c, steps[1..], s');
    }
  }

  /** What keeps the pump coming back. */
  ghost predicate Steady(s: State, c: Config) {
    && (s.busy || s.queue != [] ==> s.work || !s.pc.Resting? || s.outstanding != {})
    && (!c.retry && s.cur.Some? ==> s.cur.value in s.outstanding || s.pc.Asking?)
    && (s.idling <==> s.pc.Unpreparing?)
    && (s.pc.Unpreparing? ==> !s.busy && (s.queue != [] ==> s.work))
    && (s.queue != [] || s.pc.Asking? ==> s.running) && (s.pc.Asking? || s.pc.Noting? || s.pc.Again? ==> s.busy && s.running)
    && (s.pc.Noting? && !c.retry ==> s.work || s.outstanding != {})
  }

  ghost predicate Lively(s: State, c: Config) { Steady(s, c) || Stuck(s, c) || Asleep(s, c) }

  lemma AskSteady(s: State, c: Config, v: Verdict)
    requires Steady(s, c) && OneAtATime(s, c) && s.pc.Asking?
    ensures Lively(Apply(s, c, Ask(v)), c)
  {
    if v.Accepted? {
      assert s.pc.req in Apply(s, c, Ask(v)).outstanding;
    }
  }

  lemma PumpSteady(s: State, c: Config)
    requires Steady(s, c) && OneAtATime(s, c) && Enabled(s, Pump)
    ensures Lively(Apply(s, c, Pump), c)
  {
  }

  lemma StepKeepsLively(s: State, c: Config, step: Step)
    requires Lively(s, c) && OneAtATime(s, c) && Enabled(s, step)
    ensures Lively(Apply(s, c, step), c)
  {
    if !Steady(s, c) {
      StillFailed(s, c, step);
    } else if step.Ask? {
      hide Lively, Apply;
      AskSteady(s, c, step.v);
    } else if step.Pump? {
      hide Lively, Apply;
      PumpSteady(s, c);
    }
  }

  lemma StillFailed(s: State, c: Config, step: Step)
    requires (Stuck(s, c) || Asleep(s, c)) && Enabled(s, step)
    ensures Stuck(Apply(s, c, step), c) || Asleep(Apply(s, c, step), c)
  {
  }

  lemma {:induction false} RunKeepsLively(s: State, c: Config, steps: seq<Step>, s': State)
    requires Inv(s, c) && Lively(s, c) && Reaches(s, c, steps, s')
    ensures Lively(s', c)
    decreases |steps|
  {
    hide Lively, Enabled, Apply, Ordered, NotesOk, OneAtATime;
    if |steps| != 0 {
      StepKeepsLively(s, c, steps[0]);
      StepKeepsInv(s, c, steps[0]);
      RunKeepsLively(Apply(s, c, steps[0]), c, steps[1..], s');
    }
  }

  /** What the driver does not fail: a request it takes, or one for which a retry is asked. */
  predicate Good(c: Config, steps: seq<Step>) {
    forall i | 0 <= i < |steps| && steps[i].Ask? :: steps[i].v.Accepted? || (steps[i].v.Full? && c.retry)
  }

  /**
   No request is forgotten.  In every run a non-empty queue has the pump's work pending, or the pump
   on its way, or a request with the hardware, unless a failing driver has left the engine in a state
   that it never gets out of; and that never happens when the driver fails no request.
   */
  lemma WorkNotLost(c: Config, steps: seq<Step>, s: State)
    requires 0 < c.max && Reaches(Init(), c, steps, s)
    ensures s.queue != [] ==> s.work || !s.pc.Resting? || s.outstanding != {} || Stuck(s, c) || Asleep(s, c)
    ensures Good(c, steps) ==> !Stuck(s, c) && !Asleep(s, c)
  {
    RunKeepsLively(Init(), c, steps, s);
    if Good(c, steps) {
      RunKeepsFed(Init(), c, steps, s);
      RunKeepsInv(Init(), c, steps, s);
    }
  }

  /** ... in which also the pump that is telling somebody has something to come back for. */
  ghost predicate Fed(s: State, c: Config) {
    Steady(s, c) && (s.pc.Noting? || s.pc.Again? ==> s.work || s.outstanding != {})
  }

  lemma AskFed(s: State, c: Config, v: Verdict)
    requires Fed(s, c) && OneAtATime(s, c) && s.pc.Asking? && (v.Accepted? || (v.Full? && c.retry))
    ensures Fed(Apply(s, c, Ask(v)), c)
  {
    if v.Accepted? {
      assert s.pc.req in Apply(s, c, Ask(v)).outstanding;
    }
  }

  lemma PumpFed(s: State, c: Config)
    requires Fed(s, c) && OneAtATime(s, c) && Enabled(s, Pump)
    ensures Fed(Apply(s, c, Pump), c)
  {
  }

  lemma StepKeepsFed(s: State, c: Config, step: Step)
    requires Fed(s, c) && OneAtATime(s, c) && Enabled(s, step) && Good(c, [step])
    ensures Fed(Apply(s, c, step), c)
  {
    assert [step][0] == step;
    if step.Ask? {
      hide Fed, Apply;
      AskFed(s, c, step.v);
    } else if step.Pump? {
      hide Fed, Apply;
      PumpFed(s, c);
    }
  }

  lemma {:induction false} RunKeepsFed(s: State, c: Config, steps: seq<Step>, s': State)
    requires Inv(s, c) && Fed(s, c) && Good(c, steps) && Reaches(s, c, steps, s')
    ensures Fed(s', c)
    decreases |steps|
  {
    hide Fed, Enabled, Apply, Ordered, NotesOk, OneAtATime;
    if |steps| != 0 {
      assert Good(c, [steps[0]]) && Good(c, steps[1..]);
      StepKeepsFed(s, c, steps[0]);
      StepKeepsInv(s, c, steps[0]);
      RunKeepsFed(Apply(s, c, steps[0]), c, steps[1..], s');
    }
  }

  // ----- and everything can be done -----

  /** Nothing is waiting, and the pump has unprepared the hardware or is about to. */
  predicate Quiet(s: State) { s.queue == [] && !s.pc.Asking? && !s.busy }

  /** A request that the hardware has to give back before the pump can go on. */
  predicate Waiting(s: State, c: Config) { s.pc.Resting? && (!s.work || (!c.retry && s.cur.Some?)) }

  /** What the engine is still going to do, in steps. */
  function Rank(s: State, c: Config): nat {
    16 * |s.queue| + (if s.busy then 8 else 0) + match s.pc
      case Asking(_, _) => 5
      case Noting(_) => 4
      case Resting => if Waiting(s, c) then 2 else 1
      case _ => 3
  }

  /** The next step, of the pump or of hardware that takes and finishes what it is given. */
  ghost function NextStep(s: State, c: Config): Step
    requires Fed(s, c) && OneAtATime(s, c) && !Quiet(s)
  {
    match s.pc
    case Asking(_, _) => Ask(Accepted)
    case Noting(_) => Tell
    case Again => Refill
    case Unpreparing => Unprepared
    case Resting => if Waiting(s, c) then var r :| r in s.outstanding; Finalize(r) else Pump
  }

  lemma NextStepGoesOn(s: State, c: Config)
    requires Fed(s, c) && OneAtATime(s, c) && !Quiet(s)
    ensures var step := NextStep(s, c);
            Enabled(s, step) && Good(c, [step]) && Rank(Apply(s, c, step), c) < Rank(s, c) && Apply(s, c, step).submitted == s.submitted
  {
  }

  /** From every state that satisfies the invariants, the engine can be run on until the hardware has had every request and the pump is idle. */
  lemma {:induction false} CanDrain(s: State, c: Config) returns (steps: seq<Step>, s': State)
    requires Inv(s, c) && Fed(s, c)
    ensures Reaches(s, c, steps, s') && Good(c, steps) && Quiet(s') && Fed(s', c) && s'.handled == s'.submitted == s.submitted
    decreases Rank(s, c)
  {
    hide Fed, Enabled, Apply, NotesOk, OneAtATime, Rank, NextStep;
    if Quiet(s) {
      steps, s' := [], s;
      assert s.handled + [] + [] == s.handled;
    } else {
      var step := NextStep(s, c);
      NextStepGoesOn(s, c);
      StepKeepsFed(s, c, step);
      StepKeepsInv(s, c, step);
      var more;
      more, s' := CanDrain(Apply(s, c, step), c);
      steps := [step] + more;
      assert steps[1..] == more && [step][0] == step;
    }
  }

  /** Any run without failures, whatever users and hardware have done in it, can be gone on with until every accepted request is handled. */
  lemma EveryRunDrains(c: Config, steps: seq<Step>, s: State) returns (more: seq<Step>, s': State)
    requires 0 < c.max && Good(c, steps) && Reaches(Init(), c, steps, s)
    ensures Reaches(s, c, more, s') && Good(c, more) && s'.queue == [] && s'.handled == s'.submitted == s.submitted
  {
    RunKeepsFed(Init(), c, steps, s);
    RunKeepsInv(Init(), c, steps, s);
    more, s' := CanDrain(s, c);
  }

  // ----- stopping and starting -----

  /** So any such run can be gone on with until the engine is stopped, with all that was accepted handled. */
  lemma CanStop(c: Config, steps: seq<Step>, s: State) returns (more: seq<Step>, s': State)
    requires 0 < c.max && Good(c, steps) && Reaches(Init(), c, steps, s)
    ensures Reaches(s, c, more, s') && Good(c, more) && !s'.running && s'.handled == s'.submitted == s.submitted
  {
    RunKeepsFed(Init(), c, steps, s);
    RunKeepsInv(Init(), c, steps, s);
    more, s' := CanDrain(s, c);
    ThenStop(s, c, more, s');
    more, s' := more + [SetRunning(false)], Apply(s', c, SetRunning(false));
  }

  lemma {:induction false} ThenStop(s: State, c: Config, steps: seq<Step>, s': State)
    requires Reaches(s, c, steps, s') && Good(c, steps)
    ensures Reaches(s, c, steps + [SetRunning(false)], Apply(s', c, SetRunning(false))) && Good(c, steps + [SetRunning(false)])
    decreases |steps|
  {
    hide Apply, Enabled;
    var more := steps + [SetRunning(false)];
    if |steps| == 0 {
      assert Enabled(s, SetRunning(false)) by { CanSet(s); }
      assert more[1..] == [];
    } else {
      assert Good(c, steps[1..]);
      ThenStop(Apply(s, c, steps[0]), c, steps[1..], s');
      assert more[1..] == steps[1..] + [SetRunning(false)] && more[0] == steps[0];
    }
  }

  lemma CanSet(s: State)
    ensures Enabled(s, SetRunning(false))
  {
  }

  ghost predicate RunsOn(s: State) {
    (s.queue != [] || s.busy ==> s.running) && (s.pc.Asking? || s.pc.Noting? || s.pc.Again? ==> s.busy)
  }

  /** In every run stopping is refused exactly while something is queued or the engine is busy; starting a stopped engine undoes it, and wakes the pump. */
  lemma StartUndoesStop(c: Config, steps: seq<Step>, s: State)
    requires Reaches(Init(), c, steps, s)
    ensures var s1 := Apply(s, c, SetRunning(false));
            if s.queue != [] || s.busy then s1 == s && s.running
            else !s1.running && Apply(s1, c, SetRunning(true)) == s.(running := true, work := true)
    ensures s.running ==> Apply(s, c, SetRunning(true)) == s
  {
    RunKeepsRunsOn(Init(), c, steps, s);
  }

  lemma {:induction false} RunKeepsRunsOn(s: State, c: Config, steps: seq<Step>, s': State)
    requires RunsOn(s) && Reaches(s, c, steps, s')
    ensures RunsOn(s')
    decreases |steps|
  {
    if |steps| != 0 {
      StepKeepsRunsOn(s, c, steps[0]);
      RunKeepsRunsOn(Apply(s, c, steps[0]), c, steps[1..], s');
    }
  }

  lemma StepKeepsRunsOn(s: State, c: Config, step: Step)
    requires RunsOn(s) && Enabled(s, step)
    ensures RunsOn(Apply(s, c, step))
  {
  }

  /** An engine that has been stopped has handled all it ever accepted, whatever its driver failed. */
  lemma StoppedIsDrained(c: Config, steps: seq<Step>, s: State)
    requires 0 < c.max && Reaches(Init(), c, steps, s) && !s.running
    ensures s.handled == s.submitted
  {
    RunKeepsRunsOn(Init(), c, steps, s);
    EnqueueOrder(c, steps, s);
    assert s.handled + [] + [] == s.handled;
  }

  /** A driver with retry support that fails its last request puts the engine to sleep: here, with one request. */
  lemma FailureSleeps() returns (c: Config, steps: seq<Step>, s: State)
    ensures 0 < c.max && Reaches(Init(), c, steps, s) && Asleep(s, c)
  {
    c := Config(1, true);
    var a := Request(0, true);
    var s1 := Apply(Init(), c, Transfer(a));
    var s2 := Apply(s1, c, Pump);
    var s3 := Apply(s2, c, Ask(Failed));
    var s4 := Apply(s3, c, Tell);
    s := Apply(s4, c, Refill);
    hide Reaches;
    Stay(s, c);
    Before(s4, c, Refill, [], s);
    Before(s3, c, Tell, [Refill] + [], s);
    Before(s2, c, Ask(Failed), [Tell] + ([Refill] + []), s);
    Before(s1, c, Pump, [Ask(Failed)] + ([Tell] + ([Refill] + [])), s);
    steps := [Pump] + ([Ask(Failed)] + ([Tell] + ([Refill] + [])));
    Before(Init(), c, Transfer(a), steps, s);
    steps := [Transfer(a)] + steps;
  }

  // ----- the steps on the queue, as the code takes them -----

  /** crypto_transfer_request on the crypto_queue leaves queue and pending work of the Transfer step. */
  method TransferRequest(queue: CryptoQueue, request: Request, running: bool, busy: bool, work: bool, ghost s: State, ghost c: Config)
    returns (err: int, work': bool)
    requires Inv(s, c) && Enabled(s, Transfer(request)) && running == s.running && busy == s.busy && work == s.work
    requires queue.Valid() && queue.maxQlen == c.max && queue.list == s.queue
    modifies queue
    ensures var s' := Apply(s, c, Transfer(request));
            && queue.Valid() && queue.list == s'.queue && work' == s'.work
            && (err == -ESHUTDOWN <==> !s.running)
            && (request in s'.recs <==> err == -EINPROGRESS || err == -EBUSY)
            && (err == -EBUSY <==> request in s'.recs && s'.recs[request].busy)
  {
    assert request !in queue.list && request !in s.recs by { QueuedIsSubmitted(s); }
    work' := work;
    if !running {
      return -ESHUTDOWN, work;
    }
    err := queue.Enqueue(request);
    if !busy {
      work' := true;
    }
  }

  /** start_request up to the unlock takes the request and the cursor of Fetch. */
  method StartRequest(queue: CryptoQueue, ghost s: State, ghost c: Config) returns (backlog: Option<Request>, req: Option<Request>)
    requires queue.Valid() && queue.maxQlen == c.max && queue.list == s.queue
    modifies queue
    ensures var s' := Fetch(s, c);
            queue.Valid() && queue.list == s'.queue && s'.pc == if req.None? then Resting else Asking(req.value, backlog)
  {
    backlog := queue.GetBacklog();
    req := queue.Dequeue();
  }

  /** Hardware that is full: the request goes back to where it came from. */
  method RequeueRequest(queue: CryptoQueue, request: Request, ghost s: State, ghost c: Config)
    requires Inv(s, c) && c.retry && s.pc.Asking? && s.pc.req == request
    requires queue.Valid() && queue.maxQlen == c.max && queue.list == s.queue
    modifies queue
    ensures queue.Valid() && queue.list == Apply(s, c, Ask(Full)).queue
  {
    RequestNotQueued(s, c);
    queue.EnqueueHead(request);
  }

  lemma RequestNotQueued(s: State, c: Config)
    requires Inv(s, c) && s.pc.Asking?
    ensures s.pc.req !in s.queue
  {
    assert s.submitted[|s.handled|] == s.pc.req;
    assert forall i :: 0 <= i < |s.queue| ==> s.queue[i] == s.submitted[|s.handled| + 1 + i];
  }
}
