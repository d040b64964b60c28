/**
 The AF_ALG parent socket and the operation sockets accepted from it.  setsockopt, bind, accept
 and the first use of an unkeyed child run under the parent's lock; the release of a child takes
 no lock and may run between any two atomic operations of the others.
 */
module AlgSocket {

  /** Fresh: inside accept.  Keying: inside check_key.  Then release, one atomic operation at a time. */
  datatype Phase = Fresh | Live | Keying | Dying | Uncounted | Putting

  /** A child; `tfm` and `key` are history: what it was accepted on, and the key it was last known to use. */
  datatype Child = Child(phase: Phase, nokey: bool, tfm: nat, key: nat)

  /** Where the holder of the parent's lock is. */
  datatype Pc =
    | Free
    | Accepted(c: nat, hold: bool, nokey: bool)
    | SetRead(refcnt: nat)
    | Setting
    | Binding
    | InCheckKey(c: nat)

  /**
   refcnt and nokey are the atomic counters of the parent, `extra` the references on the parent
   socket that children account for, `tfm` and `key` number the transforms bound and keys set.
   */
  datatype State = State(refcnt: int, nokey: int, extra: int, bound: bool, needKey: bool, tfm: nat, key: nat,
                         pc: Pc, children: map<nat, Child>)

  datatype Step =
    | AcceptInc(c: nat)              // lock, type->accept, atomic_inc_return
    | AcceptHold                     // sock_hold when the count became 1
    | AcceptNokey                    // the child had no key to use: nokey_refcnt
    | AcceptDone
    | SetReadRef                     // setsockopt: lock, read refcnt
    | SetReadNokey                   // ... read nokey_refcnt and compare
    | SetDone(changed: bool, ok: bool)  // ... the type's setkey, setauthsize or setentropy, or an error before it
    | BindCheck                      // bind: lock, read refcnt
    | BindSwap(needKey: bool)
    | CheckKey(c: nat)               // check_key: lock, read the key flag, atomic_dec
    | CheckKeyDone                   // ... the child's own mark
    | ReleaseStart(c: nat)
    | ReleaseNokey(c: nat)
    | ReleaseRef(c: nat)             // atomic_dec_and_test
    | ReleasePut(c: nat)             // sock_put

  predicate Is(s: State, c: nat, p: Phase) { c in s.children && s.children[c].phase == p }

  predicate Enabled(s: State, step: Step) {
    match step
    case AcceptInc(c) => s.pc.Free? && s.bound && c !in s.children
    case AcceptHold => s.pc.Accepted? && s.pc.hold
    case AcceptNokey => s.pc.Accepted? && !s.pc.hold && s.pc.nokey && s.pc.c in s.children
    case AcceptDone => s.pc.Accepted? && !s.pc.hold && !s.pc.nokey && s.pc.c in s.children
    case SetReadRef => s.pc.Free? && 0 <= s.refcnt
    case SetReadNokey => s.pc.SetRead?
    case SetDone(changed, ok) => s.pc.Setting?
    case BindCheck => s.pc.Free?
    case BindSwap(needKey) => s.pc.Binding?
    case CheckKey(c) => s.pc.Free? && Is(s, c, Live) && s.children[c].nokey
    case CheckKeyDone => s.pc.InCheckKey? && s.pc.c in s.children
    case ReleaseStart(c) => Is(s, c, Live)
    case ReleaseNokey(c) => Is(s, c, Dying)
    case ReleaseRef(c) => Is(s, c, Uncounted)
    case ReleasePut(c) => Is(s, c, Putting)
  }

  function With(s: State, c: nat, x: Child): State { s.(children := s.children[c := x]) }

  function Apply(s: State, step: Step): State
    requires Enabled(s, step)
  {
    match step
    case AcceptInc(c) =>
      With(s, c, Child(Fresh, false, s.tfm, s.key)).(refcnt := s.refcnt + 1, pc := Accepted(c, s.refcnt + 1 == 1, s.needKey))
    case AcceptHold => s.(extra := s.extra + 1, pc := s.pc.(hold := false))
    case AcceptNokey =>
      With(s, s.pc.c, s.children[s.pc.c].(nokey := true)).(nokey := s.nokey + 1, pc := s.pc.(nokey := false))
    case AcceptDone => With(s, s.pc.c, s.children[s.pc.c].(phase := Live)).(pc := Free)
    case SetReadRef => s.(pc := SetRead(s.refcnt))
    case SetReadNokey => s.(pc := if s.pc.refcnt == s.nokey then Setting else Free)
    case SetDone(changed, ok) =>
      if changed then s.(key := s.key + 1, needKey := !ok, pc := Free) else s.(pc := Free)
    case BindCheck => s.(pc := if s.refcnt != 0 then Free else Binding)
    case BindSwap(needKey) => s.(tfm := s.tfm + 1, bound := true, needKey := needKey, pc := Free)
    case CheckKey(c) =>
      if s.needKey then s else With(s, c, s.children[c].(phase := Keying)).(nokey := s.nokey - 1, pc := InCheckKey(c))
    case CheckKeyDone => With(s, s.pc.c, s.children[s.pc.c].(phase := Live, nokey := false, key := s.key)).(pc := Free)
    case ReleaseStart(c) => With(s, c, s.children[c].(phase := Dying))
    case ReleaseNokey(c) =>
      With(s, c, s.children[c].(phase := Uncounted)).(nokey := if s.children[c].nokey then s.nokey - 1 else s.nokey)
    case ReleaseRef(c) =>
      (if s.refcnt == 1 then With(s, c, s.children[c].(phase := Putting)) else s.(children := s.children - {c})).(refcnt := s.refcnt - 1)
    case ReleasePut(c) => s.(extra := s.extra - 1, children := s.children - {c})
  }

  function Init(): State { State(0, 0, 0, false, true, 0, 0, Free, map[]) }

  ghost predicate Reaches(s: State, steps: seq<Step>, s': State)
    decreases |steps|
  {
    if |steps| == 0 then s' == s
    else Enabled(s, steps[0]) && Reaches(Apply(s, steps[0]), steps[1..], s')
  }

  // ----- what the counters count -----

  function Counted(ch: map<nat, Child>): set<nat> { set c | c in ch && ch[c].phase != Putting }

  /** Children that count as unkeyed in the parent. */
  predicate Unkeyed(x: Child) { x.nokey && (x.phase == Fresh || x.phase == Live || x.phase == Dying) }

  function UnkeyedSet(ch: map<nat, Child>): set<nat> { set c | c in ch && Unkeyed(ch[c]) }

  function PuttingSet(ch: map<nat, Child>): set<nat> { set c | c in ch && ch[c].phase == Putting }

  /** Children that can use the transform with its key. */
  predicate Keyed(x: Child) { x.phase == Live && !x.nokey }

  function KeyedSet(ch: map<nat, Child>): set<nat> { set c | c in ch && Keyed(ch[c]) }

  ghost predicate CountersOk(s: State) {
    && s.refcnt == |Counted(s.children)|
    && s.nokey == |UnkeyedSet(s.children)|
    && s.extra == (if 0 < s.refcnt then 1 else 0) + |PuttingSet(s.children)| - (if s.pc.Accepted? && s.pc.hold then 1 else 0)
  }

  /** Fresh and Keying children are exactly those the lock holder is working on. */
  ghost predicate LockOk(s: State) {
    && (forall c | c in s.children :: s.children[c].phase == Fresh <==> s.pc.Accepted? && s.pc.c == c)
    && (forall c | c in s.children :: s.children[c].phase == Keying <==> s.pc.InCheckKey? && s.pc.c == c)
    && (s.pc.Accepted? || s.pc.InCheckKey? ==> s.pc.c in s.children)
    && (s.pc.SetRead? ==> s.nokey + |KeyedSet(s.children)| <= s.pc.refcnt)
    && (s.pc.Setting? ==> |KeyedSet(s.children)| == 0)
    && (s.pc.Binding? ==> |Counted(s.children)| == 0)
    && (s.pc.Accepted? && s.pc.nokey ==> !s.children[s.pc.c].nokey)
  }

  /** A live child still has the transform it was accepted on and, once keyed, the key it knows. */
  ghost predicate FrozenOk(s: State) {
    forall c | c in s.children && s.children[c].phase != Putting ::
      s.children[c].tfm == s.tfm &&
      (Keyed(s.children[c]) || (s.children[c].phase == Fresh && !s.children[c].nokey) ==> s.children[c].key == s.key)
  }

  ghost predicate Inv(s: State) { CountersOk(s) && LockOk(s) && FrozenOk(s) }

  // ----- sets under one update -----

  function One(b: bool): int { if b then 1 else 0 }

  /** Whether c is in each of the four sets, as numbers. */
  function Member(ch: map<nat, Child>, c: nat): (int, int, int, int) {
    if c !in ch then (0, 0, 0, 0)
    else (One(ch[c].phase != Putting), One(Unkeyed(ch[c])), One(ch[c].phase == Putting), One(Keyed(ch[c])))
  }

  lemma {:induction false} SizeOfUpdate(a: set<nat>, b: set<nat>, c: nat)
    requires a - {c} == b - {c}
    ensures |b| == |a| + One(c in b) - One(c in a)
  {
    var rest := a - {c};
    assert c in a ==> a == rest + {c};
    assert c !in a ==> a == rest;
    assert c in b ==> b == rest + {c};
    assert c !in b ==> b == rest;
  }

  /** The sets differ at most in c. */
  lemma SetsUpdated(ch: map<nat, Child>, ch': map<nat, Child>, c: nat)
    requires ch - {c} == ch' - {c}
    ensures Counted(ch) - {c} == Counted(ch') - {c} && UnkeyedSet(ch) - {c} == UnkeyedSet(ch') - {c}
    ensures PuttingSet(ch) - {c} == PuttingSet(ch') - {c} && KeyedSet(ch) - {c} == KeyedSet(ch') - {c}
  {
    assert forall d | d != c :: d in ch <==> d in ch - {c};
    assert forall d | d != c :: d in ch' <==> d in ch' - {c};
    assert forall d | d != c && d in ch :: ch[d] == (ch - {c})[d] == (ch' - {c})[d] == ch'[d];
  }

  lemma SizesUpdated(ch: map<nat, Child>, ch': map<nat, Child>, c: nat)
    requires ch - {c} == ch' - {c}
    ensures |Counted(ch')| == |Counted(ch)| + Member(ch', c).0 - Member(ch, c).0
    ensures |UnkeyedSet(ch')| == |UnkeyedSet(ch)| + Member(ch', c).1 - Member(ch, c).1
    ensures |PuttingSet(ch')| == |PuttingSet(ch)| + Member(ch', c).2 - Member(ch, c).2
    ensures |KeyedSet(ch')| == |KeyedSet(ch)| + Member(ch', c).3 - Member(ch, c).3
  {
    SetsUpdated(ch, ch', c);
    SizeOfUpdate(Counted(ch), Counted(ch'), c);
    SizeOfUpdate(UnkeyedSet(ch), UnkeyedSet(ch'), c);
    SizeOfUpdate(PuttingSet(ch), PuttingSet(ch'), c);
    SizeOfUpdate(KeyedSet(ch), KeyedSet(ch'), c);
  }

  lemma DisjointSizes(a: set<nat>, b: set<nat>, u: set<nat>)
    requires a !! b && a <= u && b <= u
    ensures |a| + |b| <= |u|
  {
    SubsetSize(a + b, u);
  }

  lemma {:induction false} SubsetSize(a: set<nat>, u: set<nat>)
    requires a <= u
    ensures |a| <= |u|
  {
    if a != {} {
      var x :| x in a;
      SubsetSize(a - {x}, u - {x});
    }
  }

  /** Unkeyed and keyed children are different counted ones. */
  lemma SizesFit(ch: map<nat, Child>)
    ensures |UnkeyedSet(ch)| + |KeyedSet(ch)| <= |Counted(ch)|
  {
    DisjointSizes(UnkeyedSet(ch), KeyedSet(ch), Counted(ch));
  }

  lemma AcceptKeepsInv(s: State, step: Step)
    requires Inv(s) && Enabled(s, step) && (step.AcceptInc? || step.AcceptHold? || step.AcceptNokey? || step.AcceptDone?)
    ensures Inv(Apply(s, step))
  {
    hide Counted, UnkeyedSet, PuttingSet, KeyedSet;
    if !step.AcceptHold? {
      SizesUpdated(s.children, Apply(s, step).children, if step.AcceptInc? then step.c else s.pc.c);
    }
  }

  lemma CheckKeyKeepsInv(s: State, step: Step)
    requires Inv(s) && Enabled(s, step) && (step.CheckKey? || step.CheckKeyDone?)
    ensures Inv(Apply(s, step))
  {
    hide Counted, UnkeyedSet, PuttingSet, KeyedSet;
    SizesUpdated(s.children, Apply(s, step).children, if step.CheckKey? then step.c else s.pc.c);
  }

  lemma ParentKeepsInv(s: State, step: Step)
    requires Inv(s) && Enabled(s, step) && (step.SetReadRef? || step.SetReadNokey? || step.SetDone? || step.BindCheck? || step.BindSwap?)
    ensures Inv(Apply(s, step))
  {
    SizesFit(s.children);
    if step.SetDone? {
      assert forall c | c in s.children && Keyed(s.children[c]) :: c in KeyedSet(s.children);
    } else if step.BindSwap? {
      assert forall c | c in s.children && s.children[c].phase != Putting :: c in Counted(s.children);
    }
  }

  lemma ReleaseStartKeepsInv(s: State, step: Step)
    requires Inv(s) && Enabled(s, step) && (step.ReleaseStart? || step.ReleaseNokey?)
    ensures Inv(Apply(s, step))
  {
    hide Counted, UnkeyedSet, PuttingSet, KeyedSet;
    SizesUpdated(s.children, Apply(s, step).children, step.c);
  }

  lemma ReleaseRefCounters(s: State, step: Step)
    requires Inv(s) && Enabled(s, step) && step.ReleaseRef?
    ensures CountersOk(Apply(s, step))
  {
    hide Counted, UnkeyedSet, PuttingSet, KeyedSet, LockOk, FrozenOk;
    SizesUpdated(s.children, Apply(s, step).children, step.c);
  }

  lemma ReleaseRefLock(s: State, step: Step)
    requires Inv(s) && Enabled(s, step) && step.ReleaseRef?
    ensures LockOk(Apply(s, step))
  {
    hide Counted, UnkeyedSet, PuttingSet, KeyedSet, CountersOk, FrozenOk;
    SizesUpdated(s.children, Apply(s, step).children, step.c);
  }

  lemma ReleaseRefKeepsInv(s: State, step: Step)
    requires Inv(s) && Enabled(s, step) && step.ReleaseRef?
    ensures Inv(Apply(s, step))
  {
    ReleaseRefCounters(s, step);
    ReleaseRefLock(s, step);
    hide CountersOk, LockOk;
  }

  lemma ReleasePutKeepsInv(s: State, step: Step)
    requires Inv(s) && Enabled(s, step) && step.ReleasePut?
    ensures Inv(Apply(s, step))
  {
    hide Counted, UnkeyedSet, PuttingSet, KeyedSet;
    SizesUpdated(s.children, Apply(s, step).children, step.c);
  }

  /** Every step, releases between any two steps under the lock included, keeps the invariant. */
  lemma StepKeepsInv(s: State, step: Step)
    requires Inv(s) && Enabled(s, step)
    ensures Inv(Apply(s, step))
  {
    hide Inv, Apply;
    match step
    case AcceptInc(_) => AcceptKeepsInv(s, step);
    case AcceptHold => AcceptKeepsInv(s, step);
    case AcceptNokey => AcceptKeepsInv(s, step);
    case AcceptDone => AcceptKeepsInv(s, step);
    case CheckKey(_) => CheckKeyKeepsInv(s, step);
    case CheckKeyDone => CheckKeyKeepsInv(s, step);
    case ReleaseStart(_) => ReleaseStartKeepsInv(s, step);
    case ReleaseNokey(_) => ReleaseStartKeepsInv(s, step);
    case ReleaseRef(_) => ReleaseRefKeepsInv(s, step);
    case ReleasePut(_) => ReleasePutKeepsInv(s, step);
    case _ => ParentKeepsInv(s, step);
  }

  lemma {:induction false} RunKeepsInv(s: State, steps: seq<Step>, s': State)
    requires Inv(s) && Reaches(s, steps, s')
    ensures Inv(s')
    decreases |steps|
  {
    if |steps| != 0 {
      StepKeepsInv(s, steps[0]);
      RunKeepsInv(Apply(s, steps[0]), steps[1..], s');
    }
  }

  lemma InitInv()
    ensures Inv(Init())
  {
    assert Counted(map[]) == {} && UnkeyedSet(map[]) == {} && PuttingSet(map[]) == {} && KeyedSet(map[]) == {};
  }

  // ----- what user space can rely on -----

  /**
   While a keyed child is live, its transform and its key are the ones it got; and no key setting is
   under way, if setsockopt reads refcnt first.
   */
  lemma KeyFrozen(steps: seq<Step>, s: State, c: nat)
    requires Reaches(Init(), steps, s) && c in s.children && Keyed(s.children[c])
    ensures s.children[c].tfm == s.tfm && s.children[c].key == s.key
    ensures !s.pc.Setting? && !s.pc.Binding?
  {
    InitInv();
    RunKeepsInv(Init(), steps, s);
    assert c in KeyedSet(s.children) && c in Counted(s.children);
  }

  lemma {:induction false} Then(s: State, steps: seq<Step>, s1: State, step: Step)
    requires Reaches(s, steps, s1) && Enabled(s1, step)
    ensures Reaches(s, steps + [step], Apply(s1, step))
    decreases |steps|
  {
    if |steps| == 0 {
      assert Reaches(Apply(s1, step), (steps + [step])[1..], Apply(s1, step));
    } else {
      Then(Apply(s, steps[0]), steps[1..], s1, step);
      assert (steps + [step])[1..] == steps[1..] + [step];
    }
  }

  lemma BindRun() returns (steps: seq<Step>, s: State)
    ensures Reaches(Init(), steps, s) && s == Init().(bound := true, tfm := 1)
  {
    Then(Init(), [], Init(), BindCheck);
    var s1 := Apply(Init(), BindCheck);
    Then(Init(), [] + [BindCheck], s1, BindSwap(true));
    steps, s := [] + [BindCheck] + [BindSwap(true)], Apply(s1, BindSwap(true));
  }

  /** A child accepted before a key is set. */
  lemma UnkeyedRun() returns (steps: seq<Step>, s: State)
    ensures Reaches(Init(), steps, s)
    ensures s == State(1, 1, 1, true, true, 1, 0, Free, map[0 := Child(Live, true, 1, 0)])
  {
    hide Reaches;
    var t, s0 := BindRun();
    Then(Init(), t, s0, AcceptInc(0));
    var s1 := Apply(s0, AcceptInc(0));
    Then(Init(), t + [AcceptInc(0)], s1, AcceptHold);
    var s2 := Apply(s1, AcceptHold);
    Then(Init(), t + [AcceptInc(0)] + [AcceptHold], s2, AcceptNokey);
    var s3 := Apply(s2, AcceptNokey);
    assert s3.children == map[0 := Child(Fresh, true, 1, 0)];
    Then(Init(), t + [AcceptInc(0)] + [AcceptHold] + [AcceptNokey], s3, AcceptDone);
    steps, s := t + [AcceptInc(0)] + [AcceptHold] + [AcceptNokey] + [AcceptDone], Apply(s3, AcceptDone);
    assert s.children == map[0 := Child(Live, true, 1, 0)];
  }

  /** Then the key, and a keyed child. */
  lemma KeyedRun() returns (steps: seq<Step>, s: State)
    ensures Reaches(Init(), steps, s)
    ensures s == State(2, 1, 1, true, false, 1, 1, Free, map[0 := Child(Live, true, 1, 0), 1 := Child(Live, false, 1, 1)])
  {
    hide Reaches;
    var t, s0 := UnkeyedRun();
    Then(Init(), t, s0, SetReadRef);
    var s1 := Apply(s0, SetReadRef);
    Then(Init(), t + [SetReadRef], s1, SetReadNokey);
    var s2 := Apply(s1, SetReadNokey);
    Then(Init(), t + [SetReadRef] + [SetReadNokey], s2, SetDone(true, true));
    var s3 := Apply(s2, SetDone(true, true));
    t := t + [SetReadRef] + [SetReadNokey] + [SetDone(true, true)];
    Then(Init(), t, s3, AcceptInc(1));
    var s4 := Apply(s3, AcceptInc(1));
    Then(Init(), t + [AcceptInc(1)], s4, AcceptDone);
    steps, s := t + [AcceptInc(1)] + [AcceptDone], Apply(s4, AcceptDone);
    assert s.children == map[0 := Child(Live, true, 1, 0), 1 := Child(Live, false, 1, 1)];
  }

  /**
   KeyFrozen rests on refcnt being read before nokey_refcnt, which the comparison in the source
   leaves open.  Read in the other order they can agree although a keyed child is live: here the
   last unkeyed child is released in between, and nothing else happens.
   */
  lemma OtherOrderPasses() returns (before: seq<Step>, s: State, between: seq<Step>, last: State, c: nat)
    ensures Reaches(Init(), before, s) && s.pc == Free && Reaches(s, between, last)
    ensures forall step | step in between :: step.ReleaseStart? || step.ReleaseNokey? || step.ReleaseRef?
    ensures s.nokey == last.refcnt && c in last.children && Keyed(last.children[c])
  {
    before, s := KeyedRun();
    assert Reaches(s, [], s);
    hide Reaches;
    c := 1;
    Then(s, [], s, ReleaseStart(0));
    var s1 := Apply(s, ReleaseStart(0));
    Then(s, [] + [ReleaseStart(0)], s1, ReleaseNokey(0));
    var s2 := Apply(s1, ReleaseNokey(0));
    Then(s, [] + [ReleaseStart(0)] + [ReleaseNokey(0)], s2, ReleaseRef(0));
    between, last := [] + [ReleaseStart(0)] + [ReleaseNokey(0)] + [ReleaseRef(0)], Apply(s2, ReleaseRef(0));
  }

  /** bind replaces the transform only when no child, keyed or not, is counted. */
  lemma NoBindUnderChild(steps: seq<Step>, s: State)
    requires Reaches(Init(), steps, s) && s.pc.Binding?
    ensures forall c | c in s.children :: s.children[c].phase == Putting
  {
    InitInv();
    RunKeepsInv(Init(), steps, s);
    assert Counted(s.children) == {};
    assert forall c | c in s.children && s.children[c].phase != Putting :: c in Counted(s.children);
  }

  /** Outside accept, check_key and release the counters are exact: children, unkeyed children, and one reference if any. */
  lemma CountersExact(steps: seq<Step>, s: State)
    requires Reaches(Init(), steps, s)
    requires forall c | c in s.children :: s.children[c].phase == Live
    ensures s.refcnt == |s.children| && s.nokey == |set c | c in s.children && s.children[c].nokey|
    ensures s.extra == if s.children == map[] then 0 else 1
  {
    InitInv();
    RunKeepsInv(Init(), steps, s);
    assert Counted(s.children) == s.children.Keys && PuttingSet(s.children) == {};
    assert UnkeyedSet(s.children) == set c | c in s.children && s.children[c].nokey;
    if s.pc.Accepted? {
      assert false;
    }
    assert s.children == map[] <==> s.children.Keys == {};
  }

  /** Nothing ever takes a counter below zero. */
  lemma CountersNonNegative(steps: seq<Step>, s: State)
    requires Reaches(Init(), steps, s)
    ensures 0 <= s.nokey <= s.refcnt && 0 <= s.extra + (if s.pc.Accepted? && s.pc.hold then 1 else 0)
  {
    InitInv();
    RunKeepsInv(Init(), steps, s);
    SizesFit(s.children);
  }

  // ----- no use without a key -----

  /** Whoever can use the transform, or is about to, has been let in after a key was set, or where none is needed. */
  ghost predicate KeyOk(s: State) {
    && (s.needKey ==> forall c | c in s.children :: !Keyed(s.children[c]))
    && (s.needKey && s.pc.Accepted? ==> s.pc.nokey || (s.pc.c in s.children && s.children[s.pc.c].nokey))
    && (s.pc.InCheckKey? ==> !s.needKey)
  }

  lemma SetKeepsKeyOk(s: State, step: Step)
    requires Inv(s) && KeyOk(s) && Enabled(s, step) && (step.SetDone? || step.BindSwap?)
    ensures KeyOk(Apply(s, step))
  {
    forall c | c in s.children ensures !Keyed(s.children[c]) {
      assert Keyed(s.children[c]) <==> c in KeyedSet(s.children);
      assert s.children[c].phase != Putting <==> c in Counted(s.children);
    }
  }

  lemma StepKeepsKeyOk(s: State, step: Step)
    requires Inv(s) && KeyOk(s) && Enabled(s, step)
    ensures KeyOk(Apply(s, step))
  {
    if step.SetDone? || step.BindSwap? {
      SetKeepsKeyOk(s, step);
    }
  }

  lemma {:induction false} RunKeepsKeyOk(s: State, steps: seq<Step>, s': State)
    requires Inv(s) && KeyOk(s) && Reaches(s, steps, s')
    ensures KeyOk(s')
    decreases |steps|
  {
    hide Inv, KeyOk, Enabled, Apply;
    if |steps| != 0 {
      StepKeepsKeyOk(s, steps[0]);
      StepKeepsInv(s, steps[0]);
      RunKeepsKeyOk(Apply(s, steps[0]), steps[1..], s');
    }
  }

  /** In every run, while the transform needs a key, no child can use it. */
  lemma NoUseWithoutKey(steps: seq<Step>, s: State, c: nat)
    requires Reaches(Init(), steps, s) && c in s.children && Keyed(s.children[c])
    ensures !s.needKey
  {
    InitInv();
    RunKeepsKeyOk(Init(), steps, s);
  }

  /** check_key changes nothing as long as a key is needed, and otherwise leads to a usable child. */
  lemma CheckKeyIff(s: State, c: nat)
    requires Enabled(s, CheckKey(c))
    ensures var s1 := Apply(s, CheckKey(c));
            if s.needKey then s1 == s
            else Enabled(s1, CheckKeyDone) &&
                 var s2 := Apply(s1, CheckKeyDone); s2.pc == Free && c in s2.children && Keyed(s2.children[c]) && s2.children[c].key == s.key && s2.nokey == s.nokey - 1
  {
  }

  /** A step after which the transform can be used: a key was accepted, or bind found one that needs none. */
  predicate Provides(step: Step) { step == SetDone(true, true) || step == BindSwap(false) }

  /** Until such a step, a transform that needs a key stays unusable, whatever else happens. */
  lemma {:induction false} UnusableUntilKey(s: State, steps: seq<Step>, s': State)
    requires Inv(s) && KeyOk(s) && s.needKey && Reaches(s, steps, s') && forall i | 0 <= i < |steps| :: !Provides(steps[i])
    ensures s'.needKey && forall c | c in s'.children :: !Keyed(s'.children[c])
    decreases |steps|
  {
    if |steps| != 0 {
      StepKeepsKeyOk(s, steps[0]);
      StepKeepsInv(s, steps[0]);
      hide Inv, KeyOk, Enabled;
      UnusableUntilKey(Apply(s, steps[0]), steps[1..], s');
    }
  }

  /** And with one it becomes usable: while all children are unkeyed, a key can be set, and each of them comes to use it. */
  lemma KeyMakesUsable(s: State, c: nat) returns (steps: seq<Step>, s': State)
    requires s.pc == Free && 0 <= s.refcnt == s.nokey && Is(s, c, Live) && s.children[c].nokey
    ensures Reaches(s, steps, s') && s'.pc == Free && c in s'.children && Keyed(s'.children[c]) && s'.children[c].key == s'.key == s.key + 1
  {
    assert Reaches(s, [], s);
    hide Reaches;
    var s1 := Apply(s, SetReadRef);
    var s2 := Apply(s1, SetReadNokey);
    var s3 := Apply(s2, SetDone(true, true));
    CheckKeyIff(s3, c);
    var s4 := Apply(s3, CheckKey(c));
    s' := Apply(s4, CheckKeyDone);
    Then(s, [], s, SetReadRef);
    Then(s, [] + [SetReadRef], s1, SetReadNokey);
    Then(s, [] + [SetReadRef] + [SetReadNokey], s2, SetDone(true, true));
    Then(s, [] + [SetReadRef] + [SetReadNokey] + [SetDone(true, true)], s3, CheckKey(c));
    steps := [] + [SetReadRef] + [SetReadNokey] + [SetDone(true, true)] + [CheckKey(c)];
    Then(s, steps, s4, CheckKeyDone);
    steps := steps + [CheckKeyDone];
  }

  /** accept, taken to its end: the child can use the transform at once if and only if no key is needed. */
  lemma AcceptIff(s: State, c: nat) returns (steps: seq<Step>, s': State)
    requires s.pc == Free && s.bound && c !in s.children
    ensures Reaches(s, steps, s') && s'.pc == Free && s'.children.Keys == s.children.Keys + {c} && s'.children[c].phase == Live
    ensures (Keyed(s'.children[c]) <==> !s.needKey) && s'.children[c].tfm == s.tfm && s'.children[c].key == s.key
    ensures s'.tfm == s.tfm && s'.key == s.key && s'.refcnt == s.refcnt + 1 && s'.nokey == (if s.needKey then s.nokey + 1 else s.nokey)
    ensures s'.extra == if s.refcnt == 0 then s.extra + 1 else s.extra
  {
    assert Reaches(s, [], s);
    hide Reaches;
    var s1 := Apply(s, AcceptInc(c));
    Then(s, [], s, AcceptInc(c));
    steps := [] + [AcceptInc(c)];
    if s.refcnt == 0 {
      Then(s, steps, s1, AcceptHold);
      steps, s1 := steps + [AcceptHold], Apply(s1, AcceptHold);
    }
    if s.needKey {
      Then(s, steps, s1, AcceptNokey);
      steps, s1 := steps + [AcceptNokey], Apply(s1, AcceptNokey);
    }
    Then(s, steps, s1, AcceptDone);
    steps, s' := steps + [AcceptDone], Apply(s1, AcceptDone);
  }

  /** In every run: with no release in progress, a key may be set if and only if no child is keyed, and the transform replaced if and only if there is no child. */
  lemma GatesIff(steps: seq<Step>, s: State)
    requires Reaches(Init(), steps, s) && s.pc == Free
    requires forall c | c in s.children :: s.children[c].phase == Live
    ensures Enabled(s, SetReadRef) &&
            (Apply(Apply(s, SetReadRef), SetReadNokey).pc.Setting? <==> forall c | c in s.children :: !Keyed(s.children[c]))
    ensures Apply(s, BindCheck).pc.Binding? <==> s.children == map[]
  {
    CountersExact(steps, s);
    InitInv();
    RunKeepsInv(Init(), steps, s);
    var unkeyed := UnkeyedSet(s.children);
    SameSize(unkeyed, s.children.Keys);
    assert s.children == map[] <==> s.children.Keys == {};
    assert |s.children| == |s.children.Keys| && s.nokey == |unkeyed|;
    if unkeyed == s.children.Keys {
      forall c | c in s.children ensures !Keyed(s.children[c]) {
        assert c in unkeyed;
      }
    } else {
      var c :| c in s.children && c !in unkeyed;
      assert Keyed(s.children[c]);
    }
  }

  lemma SameSize(a: set<nat>, b: set<nat>)
    requires a <= b
    ensures |a| == |b| <==> a == b
  {
    assert |b| == |a| + |b - a| by { assert b == a + (b - a); }
  }

  lemma AcceptGoesOn(s: State) returns (steps: seq<Step>, s': State)
    requires s.pc.Accepted? && s.pc.c in s.children
    ensures Reaches(s, steps, s') && s'.pc == Free && |steps| <= 3
    ensures s'.children.Keys == s.children.Keys && s'.tfm == s.tfm && s'.key == s.key
  {
    steps, s' := [], s;
    assert Reaches(s, [], s);
    hide Reaches;
    if s.pc.hold {
      Then(s, steps, s', AcceptHold);
      steps, s' := steps + [AcceptHold], Apply(s', AcceptHold);
    }
    if s'.pc.nokey {
      Then(s, steps, s', AcceptNokey);
      steps, s' := steps + [AcceptNokey], Apply(s', AcceptNokey);
    }
    Then(s, steps, s', AcceptDone);
    steps, s' := steps + [AcceptDone], Apply(s', AcceptDone);
  }

  /** Whatever the lock holder is at, it can go on and give the lock back, in at most three operations. */
  lemma LockGivenBack(s: State) returns (steps: seq<Step>, s': State)
    requires Inv(s)
    ensures Reaches(s, steps, s') && s'.pc == Free && |steps| <= 3
    ensures s.pc.Accepted? || s.pc.InCheckKey? ==> s'.children.Keys == s.children.Keys && s'.tfm == s.tfm && s'.key == s.key
  {
    steps, s' := [], s;
    assert Reaches(s, [], s);
    hide Reaches;
    if s.pc.Accepted? {
      steps, s' := AcceptGoesOn(s);
    } else if s.pc.InCheckKey? {
      Then(s, steps, s', CheckKeyDone);
      steps, s' := steps + [CheckKeyDone], Apply(s', CheckKeyDone);
    } else if s.pc.Binding? {
      Then(s, steps, s', BindSwap(true));
      steps, s' := steps + [BindSwap(true)], Apply(s', BindSwap(true));
    } else {
      if s.pc.SetRead? {
        Then(s, steps, s', SetReadNokey);
        steps, s' := steps + [SetReadNokey], Apply(s', SetReadNokey);
      }
      if s'.pc.Setting? {
        Then(s, steps, s', SetDone(false, false));
        steps, s' := steps + [SetDone(false, false)], Apply(s', SetDone(false, false));
      }
    }
  }

  /** A parent without children can be bound to any transform, and the first child accepted then can use it if and only if it needs no key. */
  lemma BindThenAccept(s: State, c: nat, needKey: bool) returns (steps: seq<Step>, s': State)
    requires Inv(s) && s.pc == Free && s.children == map[]
    ensures Reaches(s, steps, s') && s'.pc == Free && s'.tfm == s.tfm + 1 && s'.children.Keys == {c} && s'.children[c].tfm == s'.tfm
    ensures s'.children[c].phase == Live && (Keyed(s'.children[c]) <==> !needKey)
  {
    assert Counted(s.children) == {} && UnkeyedSet(s.children) == {};
    assert Reaches(s, [], s);
    hide Reaches, Keyed;
    var s1 := Apply(s, BindCheck);
    Then(s, [], s, BindCheck);
    var s2 := Apply(s1, BindSwap(needKey));
    assert s2.children.Keys == {};
    Then(s, [] + [BindCheck], s1, BindSwap(needKey));
    var more;
    more, s' := AcceptIff(s2, c);
    steps := [] + [BindCheck] + [BindSwap(needKey)];
    ThenAll(s, steps, s2, more, s');
    steps := steps + more;
  }

  lemma {:induction false} ThenAll(s: State, steps: seq<Step>, s1: State, more: seq<Step>, s2: State)
    requires Reaches(s, steps, s1) && Reaches(s1, more, s2)
    ensures Reaches(s, steps + more, s2)
    decreases |steps|
  {
    hide Apply, Enabled;
    if |steps| == 0 {
      assert steps + more == more;
    } else {
      ThenAll(Apply(s, steps[0]), steps[1..], s1, more, s2);
      assert (steps + more)[1..] == steps[1..] + more && (steps + more)[0] == steps[0];
    }
  }

  /** There is a transform to accept children on exactly after a bind has got through. */
  lemma BoundIff(steps: seq<Step>, s: State)
    requires Reaches(Init(), steps, s)
    ensures s.bound <==> exists i :: 0 <= i < |steps| && steps[i].BindSwap?
  {
    RunBound(Init(), steps, s);
  }

  lemma {:induction false} RunBound(s: State, steps: seq<Step>, s': State)
    requires Reaches(s, steps, s')
    ensures s'.bound <==> s.bound || exists i :: 0 <= i < |steps| && steps[i].BindSwap?
    decreases |steps|
  {
    if |steps| != 0 {
      StepBound(s, steps[0]);
      RunBound(Apply(s, steps[0]), steps[1..], s');
      hide Enabled, Apply;
      if i :| 0 <= i < |steps| && steps[i].BindSwap? {
        assert i > 0 ==> steps[1..][i - 1] == steps[i];
      }
    }
  }

  lemma StepBound(s: State, step: Step)
    requires Enabled(s, step)
    ensures Apply(s, step).bound <==> s.bound || step.BindSwap?
  {
  }
}
