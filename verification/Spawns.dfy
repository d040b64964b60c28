/**
 crypto_remove_spawns: the spawns that fit the new type leave the algorithm's users, the walk marks
 them and their dependants, and in the end the live ones go back and the instances of the dead
 ones are removed.
 */
module Spawns {
  import opened Options
  import opened SpawnWalk
  import opened SpawnForest
  import opened SpawnDag

  // ----- before the walk -----

  /** The spawns of l that are moved to `top`, each to its front. */
  function TopOf(skip: Spawn -> bool, l: seq<Spawn>): seq<Spawn> {
    if |l| == 0 then [] else TopOf(skip, l[1..]) + (if skip(l[0]) then [] else [l[0]])
  }

  /** Those that stay because of their mask. */
  function Staying(skip: Spawn -> bool, l: seq<Spawn>): seq<Spawn> {
    if |l| == 0 then [] else (if skip(l[0]) then [l[0]] else []) + Staying(skip, l[1..])
  }

  function StartWalk(g: Graph, skip: Spawn -> bool, users: map<Alg, seq<Spawn>>, dead: set<Spawn>): Walk {
    var l := UsersOf(users, g.alg);
    Walk(users[g.alg := Staying(skip, l)], TopOf(skip, l), [], [], dead, Down(Top))
  }

  // ----- after the walk -----

  /** Users lists, instances marked CRYPTO_ALG_DEAD, instances on `list`, and whether BUG_ON has fired. */
  datatype Registry = Registry(users: map<Alg, seq<Spawn>>, algDead: set<Alg>, removed: seq<Alg>, bug: bool)

  /** crypto_remove_instance; tmpl says whether the template can be held. */
  function RemoveInstance(tmpl: Alg -> bool, r: Registry, i: Alg): Registry {
    if i in r.algDead then r
    else
      var r1 := r.(algDead := r.algDead + {i});
      if !tmpl(i) then r1
      else r1.(removed := [i] + r.removed, bug := r.bug || UsersOf(r.users, i) != [])
  }

  function FinishOne(g: Graph, tmpl: Alg -> bool, dead: set<Spawn>, r: Registry, s: Spawn): Registry {
    if s !in dead then r.(users := r.users[g.info(s).alg := [s] + UsersOf(r.users, g.info(s).alg)])
    else if g.info(s).registered then RemoveInstance(tmpl, r, g.Inst(s))
    else r
  }

  /** The loop over secondary_spawns. */
  function FinishAll(g: Graph, tmpl: Alg -> bool, dead: set<Spawn>, r: Registry, l: seq<Spawn>): Registry
    decreases |l|
  {
    if |l| == 0 then r else FinishAll(g, tmpl, dead, FinishOne(g, tmpl, dead, r, l[0]), l[1..])
  }

  lemma {:induction false} FinishSnoc(g: Graph, tmpl: Alg -> bool, dead: set<Spawn>, r: Registry, l: seq<Spawn>, s: Spawn)
    ensures FinishAll(g, tmpl, dead, r, l + [s]) == FinishOne(g, tmpl, dead, FinishAll(g, tmpl, dead, r, l), s)
    decreases |l|
  {
    hide FinishOne;
    if |l| == 0 {
      assert l + [s] == [s] && [s][1..] == [];
    } else {
      assert (l + [s])[0] == l[0] && (l + [s])[1..] == l[1..] + [s];
      FinishSnoc(g, tmpl, dead, FinishOne(g, tmpl, dead, r, l[0]), l[1..], s);
    }
  }

  /** The instances that the loop marks dead. */
  function DeadInsts(g: Graph, dead: set<Spawn>, l: seq<Spawn>): set<Alg> {
    set s | s in l && s in dead && g.info(s).registered :: g.Inst(s)
  }

  /** Who is where after the loop: live spawns are back, and nothing else has moved. */
  ghost predicate Settled(g: Graph, dead: set<Spawn>, r: Registry, l: seq<Spawn>, r': Registry) {
    && (forall a, s :: s in UsersOf(r'.users, a) <==> s in UsersOf(r.users, a) || (s in l && s !in dead && g.info(s).alg == a))
    && (forall i :: i in r'.algDead <==> i in r.algDead || i in DeadInsts(g, dead, l))
  }

  /** The instances that may be removed have no users before the loop. */
  ghost predicate NoUsersLeft(g: Graph, tmpl: Alg -> bool, dead: set<Spawn>, users: map<Alg, seq<Spawn>>, l: seq<Spawn>) {
    forall s :: s in l && s in dead && g.info(s).registered && tmpl(g.Inst(s)) ==> g.Expands(s) && UsersOf(users, g.Inst(s)) == []
  }

  lemma OneFinished(g: Graph, tmpl: Alg -> bool, dead: set<Spawn>, r: Registry, s: Spawn)
    ensures Settled(g, dead, r, [s], FinishOne(g, tmpl, dead, r, s))
  {
    var r', i := FinishOne(g, tmpl, dead, r, s), g.Inst(s);
    if s in dead && g.info(s).registered {
      assert DeadInsts(g, dead, [s]) == {i};
    } else {
      assert DeadInsts(g, dead, [s]) == {};
    }
  }

  lemma MoreFinished(g: Graph, dead: set<Spawn>, r: Registry, s: Spawn, l: seq<Spawn>, r1: Registry, r2: Registry)
    requires Settled(g, dead, r, [s], r1) && Settled(g, dead, r1, l, r2)
    ensures Settled(g, dead, r, [s] + l, r2)
  {
    assert DeadInsts(g, dead, [s] + l) == DeadInsts(g, dead, [s]) + DeadInsts(g, dead, l);
  }

  lemma {:induction false} AllFinished(g: Graph, tmpl: Alg -> bool, dead: set<Spawn>, r: Registry, l: seq<Spawn>)
    ensures Settled(g, dead, r, l, FinishAll(g, tmpl, dead, r, l))
    decreases |l|
  {
    if |l| == 0 {
      assert DeadInsts(g, dead, []) == {};
    } else {
      hide FinishOne, Settled;
      var r1 := FinishOne(g, tmpl, dead, r, l[0]);
      OneFinished(g, tmpl, dead, r, l[0]);
      AllFinished(g, tmpl, dead, r1, l[1..]);
      MoreFinished(g, dead, r, l[0], l[1..], r1, FinishAll(g, tmpl, dead, r, l));
      assert l == [l[0]] + l[1..];
    }
  }

  /**
   The caller's list has got new instances in front: those marked now whose template can be held, and
   that were not marked before, each once.
   */
  ghost predicate Listed(tmpl: Alg -> bool, algDead: set<Alg>, marked: set<Alg>, removed: seq<Alg>, removed': seq<Alg>) {
    |removed| <= |removed'| &&
    var more := removed'[..|removed'| - |removed|];
    && removed' == more + removed && NoDup(more)
    && forall i :: i in more <==> tmpl(i) && i in marked && i !in algDead
  }

  lemma OneListed(g: Graph, tmpl: Alg -> bool, dead: set<Spawn>, r: Registry, s: Spawn)
    ensures var r' := FinishOne(g, tmpl, dead, r, s);
            && (r'.removed == r.removed || r'.removed == [g.Inst(s)] + r.removed)
            && (r'.removed != r.removed <==> s in dead && g.info(s).registered && tmpl(g.Inst(s)) && g.Inst(s) !in r.algDead)
            && r'.algDead == if s in dead && g.info(s).registered then r.algDead + {g.Inst(s)} else r.algDead
  {
    assert |[g.Inst(s)] + r.removed| != |r.removed|;
  }

  lemma MoreListed(g: Graph, tmpl: Alg -> bool, dead: set<Spawn>, s: Spawn, l: seq<Spawn>, r: Registry, r1: Registry, removed: seq<Alg>)
    requires r1.removed == r.removed || r1.removed == [g.Inst(s)] + r.removed
    requires r1.removed != r.removed <==> s in dead && g.info(s).registered && tmpl(g.Inst(s)) && g.Inst(s) !in r.algDead
    requires r1.algDead == if s in dead && g.info(s).registered then r.algDead + {g.Inst(s)} else r.algDead
    requires Listed(tmpl, r1.algDead, DeadInsts(g, dead, l), r1.removed, removed)
    ensures Listed(tmpl, r.algDead, DeadInsts(g, dead, [s] + l), r.removed, removed)
  {
    var more1 := removed[..|removed| - |r1.removed|];
    var one: seq<Alg> := if r1.removed == r.removed then [] else [g.Inst(s)];
    var more := more1 + one;
    assert removed == more + r.removed && removed[..|removed| - |r.removed|] == more;
    DeadInstsCons(g, dead, s, l);
    forall i ensures i in more <==> tmpl(i) && i in DeadInsts(g, dead, [s] + l) && i !in r.algDead {
      assert i in more <==> i in more1 || i in one;
    }
  }

  lemma DeadInstsCons(g: Graph, dead: set<Spawn>, s: Spawn, l: seq<Spawn>)
    ensures DeadInsts(g, dead, [s] + l) == (if s in dead && g.info(s).registered then {g.Inst(s)} else {}) + DeadInsts(g, dead, l)
  {
  }

  /** Which instances the caller gets to destroy. */
  lemma {:induction false} AllListed(g: Graph, tmpl: Alg -> bool, dead: set<Spawn>, r: Registry, l: seq<Spawn>)
    ensures Listed(tmpl, r.algDead, DeadInsts(g, dead, l), r.removed, FinishAll(g, tmpl, dead, r, l).removed)
    decreases |l|
  {
    hide FinishOne;
    if |l| == 0 {
      assert DeadInsts(g, dead, []) == {} && [] + r.removed == r.removed;
      assert l == [] && r.removed[..|r.removed| - |r.removed|] == [];
    } else {
      hide Listed;
      var r1 := FinishOne(g, tmpl, dead, r, l[0]);
      OneListed(g, tmpl, dead, r, l[0]);
      AllListed(g, tmpl, dead, r1, l[1..]);
      assert l == [l[0]] + l[1..];
      MoreListed(g, tmpl, dead, l[0], l[1..], r, r1, FinishAll(g, tmpl, dead, r, l).removed);
    }
  }

  lemma OneOnce(g: Graph, tmpl: Alg -> bool, dead: set<Spawn>, r: Registry, s: Spawn, a: Alg)
    requires NoDup(UsersOf(r.users, a)) && s !in UsersOf(r.users, g.info(s).alg)
    ensures NoDup(UsersOf(FinishOne(g, tmpl, dead, r, s).users, a))
  {
    if a == g.info(s).alg {
      NoDupCons(s, UsersOf(r.users, a));
    }
  }

  /** Nobody is on a list twice after the loop, if nobody was and those that come back were on none. */
  lemma {:induction false} AllOnce(g: Graph, tmpl: Alg -> bool, dead: set<Spawn>, r: Registry, l: seq<Spawn>)
    requires NoDup(l) && (forall a :: NoDup(UsersOf(r.users, a))) && forall s :: s in l ==> s !in UsersOf(r.users, g.info(s).alg)
    ensures forall a :: NoDup(UsersOf(FinishAll(g, tmpl, dead, r, l).users, a))
    decreases |l|
  {
    if |l| != 0 {
      var r1 := FinishOne(g, tmpl, dead, r, l[0]);
      FirstApart(l);
      assert l[0] in l;
      forall a ensures NoDup(UsersOf(r1.users, a)) {
        OneOnce(g, tmpl, dead, r, l[0], a);
      }
      OneFinished(g, tmpl, dead, r, l[0]);
      hide FinishOne;
      forall s | s in l[1..] ensures s !in UsersOf(r1.users, g.info(s).alg) {
        assert s in l && s !in [l[0]];
      }
      AllOnce(g, tmpl, dead, r1, l[1..]);
    }
  }

  /** BUG_ON does not fire: an instance is removed before any of its users could come back. */
  lemma {:induction false} NoBug(g: Graph, tmpl: Alg -> bool, dead: set<Spawn>, r: Registry, l: seq<Spawn>)
    requires NoUsersLeft(g, tmpl, dead, r.users, l) && InOrder(g, l)
    ensures FinishAll(g, tmpl, dead, r, l).bug == r.bug
    decreases |l|
  {
    if |l| != 0 {
      var r1, rest := FinishOne(g, tmpl, dead, r, l[0]), l[1..];
      assert l[0] in l && forall s :: s in rest ==> s in l;
      forall i, j | 0 <= j < i < |rest| && g.Expands(rest[i]) ensures g.info(rest[j]).alg != g.Inst(rest[i]) {
        assert rest[i] == l[i + 1] && rest[j] == l[j + 1];
      }
      forall s | s in rest && s in dead && g.info(s).registered && tmpl(g.Inst(s)) ensures UsersOf(r1.users, g.Inst(s)) == [] {
        var i :| 0 <= i < |rest| && rest[i] == s;
        assert l[i + 1] == s && g.info(l[0]).alg != g.Inst(l[i + 1]);
      }
      NoBug(g, tmpl, dead, r1, rest);
    }
  }

  // ----- a graph without a cycle below the algorithm -----

  /** f is the depth-first forest from the spawns that fit. */
  ghost predicate ForestBelow(g: Graph, skip: Spawn -> bool, users: map<Alg, seq<Spawn>>, f: Forest) {
    Roots(f) == TopOf(skip, UsersOf(users, g.alg)) && Fits(g, users, g.alg, f) && Branches(g, f) && g.alg !in Insts(g, f)
  }

  /** What the walk leaves. */
  lemma WalkOnForest(g: Graph, skip: Spawn -> bool, users: map<Alg, seq<Spawn>>, dead: set<Spawn>, f: Forest) returns (k: nat)
    requires ForestBelow(g, skip, users, f)
    ensures Walked(g, skip, users, dead, f, Steps(g, StartWalk(g, skip, users, dead), k))
  {
    var w0 := StartWalk(g, skip, users, dead);
    FitsKept(g, users, w0.users, g.alg, f);
    assert Roots(f) + [] == Roots(f);
    hide After, Step, Steps, Fits, Branches, StartWalk, UsersAfter, DeadAfter;
    var j := Visit(g, w0, f, g.alg, Top, []);
    var w1 := Steps(g, w0, j);
    LastSteps(g, w0, f, w1);
    k := j + 2;
    StepsPlus(g, w0, j, 2);
    AfterAll(g, w0, f, w1);
  }

  ghost predicate Walked(g: Graph, skip: Spawn -> bool, users: map<Alg, seq<Spawn>>, dead: set<Spawn>, f: Forest, w: Walk) {
    && w.phase == Halt && w.secondary == Finished(f) && w.top == []
    && UsersAfter(g, StartWalk(g, skip, users, dead).users, f, Top, w.users) && DeadAfter(g, [], dead, f, w.dead)
  }

  lemma AfterAll(g: Graph, w0: Walk, f: Forest, w1: Walk)
    requires After(g, w0, f, Top, [], w1) && w0.stack == [] && w0.secondary == []
    ensures w1.secondary == Finished(f) && w1.top == [] && UsersAfter(g, w0.users, f, Top, w1.users) && DeadAfter(g, [], w0.dead, f, w1.dead)
  {
    assert Finished(f) + [] == Finished(f);
  }

  lemma LastSteps(g: Graph, w0: Walk, f: Forest, w1: Walk)
    requires After(g, w0, f, Top, [], w1) && w0.phase == Down(Top) && w0.stack == []
    ensures Steps(g, w1, 2) == w1.(phase := Halt)
  {
    var w2 := Step(g, w1);
    assert w2 == w1.(phase := Up) && Step(g, w2) == w1.(phase := Halt);
    assert Steps(g, w1, 2) == Steps(g, w2, 1);
    OneStep(g, w2);
  }

  lemma {:induction false} TopOfList(skip: Spawn -> bool, l: seq<Spawn>)
    requires NoDup(l)
    ensures NoDup(TopOf(skip, l))
    ensures forall s :: s in TopOf(skip, l) <==> s in l && !skip(s)
    ensures forall s :: s in Staying(skip, l) <==> s in l && skip(s)
  {
    if |l| != 0 {
      FirstApart(l);
      TopOfList(skip, l[1..]);
    }
  }

  /** Ranks that fall along the users lists from the algorithm on, as they do if there is no cycle. */
  ghost predicate Acyclic(g: Graph, users: map<Alg, seq<Spawn>>, rank: Alg -> nat) {
    Homed(g, users) && Falling(g, users, rank, rank(g.alg))
  }

  /** What the whole walk has done, told by the forest that it has gone through. */
  lemma WalkOnAcyclic(g: Graph, skip: Spawn -> bool, users: map<Alg, seq<Spawn>>, dead: set<Spawn>, rank: Alg -> nat, k: nat) returns (f: Forest)
    requires Acyclic(g, users, rank) && Stopped(Steps(g, StartWalk(g, skip, users, dead), k))
    ensures ForestBelow(g, skip, users, f) && Grown(g, users, rank, g.alg, TopOf(skip, UsersOf(users, g.alg)), f)
    ensures Walked(g, skip, users, dead, f, Steps(g, StartWalk(g, skip, users, dead), k))
  {
    hide Steps, Fits, Branches, UsersAfter, DeadAfter;
    var l := UsersOf(users, g.alg);
    TopOfList(skip, l);
    forall s | s in TopOf(skip, l) ensures g.info(s).alg == g.alg && rank(g.Inst(s)) < rank(g.alg) {
      assert s in l && g.alg in users;
    }
    f := Grow(g, users, rank, g.alg, TopOf(skip, UsersOf(users, g.alg)));
    var j := WalkOnForest(g, skip, users, dead, f);
    OneEnd(g, StartWalk(g, skip, users, dead), j, k);
  }

  /** The visited spawns are those that depend on the algorithm, and the marks are those of Dead. */
  lemma WalkedMeans(g: Graph, skip: Spawn -> bool, users: map<Alg, seq<Spawn>>, dead: set<Spawn>, f: Forest, w: Walk, s: Spawn)
    requires ForestBelow(g, skip, users, f) && Walked(g, skip, users, dead, f, w)
    ensures var top := TopOf(skip, UsersOf(users, g.alg));
            && (s in w.secondary <==> Reached(g, users, top, s)) && (s in All(f) <==> Reached(g, users, top, s))
            && (Reached(g, users, top, s) ==> (s in w.dead <==> s in Dead(g, f)))
  {
    hide Reached, Fits, Branches, UsersAfter;
    Parts(g, f);
    InIffReached(g, users, g.alg, f, s);
  }

  /** Of the users of a, exactly the visited dead ones are missing in l. */
  ghost predicate StillThere(g: Graph, users: map<Alg, seq<Spawn>>, top: seq<Spawn>, dead: set<Spawn>, l: seq<Spawn>, a: Alg) {
    forall s :: s in l <==> s in UsersOf(users, a) && !(Reached(g, users, top, s) && s in dead)
  }

  /**
   Removal below an algorithm, told by paths only.  Visited are the spawns that depend on it; a
   spawn is on the list it was on, once, unless it is one of those and dead; who is alive is needed by
   the new algorithm; the instances of the registered dead ones are marked, and the caller gets those
   of them to destroy that were not marked before and whose template can be held; and no BUG_ON fires.
   */
  ghost predicate Removed(g: Graph, skip: Spawn -> bool, tmpl: Alg -> bool, users: map<Alg, seq<Spawn>>, algDead: set<Alg>, removed: seq<Alg>,
                          w: Walk, r: Registry) {
    var top := TopOf(skip, UsersOf(users, g.alg));
    && w.phase == Halt && !r.bug
    && (forall s :: s in w.secondary <==> Reached(g, users, top, s))
    && (forall a :: StillThere(g, users, top, w.dead, UsersOf(r.users, a), a))
    && (forall s :: Reached(g, users, top, s) && s !in w.dead ==> Needed(g, users, s))
    && (forall a :: NoDup(UsersOf(r.users, a)))
    && r.algDead == algDead + DeadInsts(g, w.dead, w.secondary)
    && Listed(tmpl, algDead, DeadInsts(g, w.dead, w.secondary), removed, r.removed)
  }

  /** What the new algorithm needs stays, and nothing else does. */
  ghost predicate PromiseKept(g: Graph, users: map<Alg, seq<Spawn>>, w: Walk) {
    forall s :: s in w.secondary ==> (s !in w.dead <==> Needed(g, users, s))
  }

  /** An instance that the new algorithm is built on is marked dead. */
  ghost predicate TooMuchRemoved(g: Graph, users: map<Alg, seq<Spawn>>, w: Walk) {
    exists s :: s in w.secondary && Leads(g, users, s) && g.Inst(s) in DeadInsts(g, w.dead, w.secondary)
  }

  lemma NothingLeft(g: Graph, skip: Spawn -> bool, tmpl: Alg -> bool, users: map<Alg, seq<Spawn>>, dead: set<Spawn>, f: Forest, w: Walk)
    requires ForestBelow(g, skip, users, f) && Walked(g, skip, users, dead, f, w) && forall i :: tmpl(i) ==> g.ready(i)
    ensures NoUsersLeft(g, tmpl, w.dead, w.users, w.secondary)
  {
    hide Fits, Branches, Dead, Insts;
    Parts(g, f);
    forall s | s in w.secondary && s in w.dead && g.info(s).registered && tmpl(g.Inst(s))
      ensures g.Expands(s) && UsersOf(w.users, g.Inst(s)) == [] {
      NewLives(g, f, s);
      ClearedAll(g, f, s);
      assert Users(g.Inst(s)) != Top;
    }
  }

  lemma NoBugBelow(g: Graph, skip: Spawn -> bool, tmpl: Alg -> bool, users: map<Alg, seq<Spawn>>, dead: set<Spawn>, f: Forest, w: Walk, r: Registry)
    requires ForestBelow(g, skip, users, f) && Walked(g, skip, users, dead, f, w) && forall i :: tmpl(i) ==> g.ready(i)
    requires r.users == w.users && !r.bug
    ensures !FinishAll(g, tmpl, w.dead, r, w.secondary).bug
  {
    NothingLeft(g, skip, tmpl, users, dead, f, w);
    FinishedInOrder(g, users, g.alg, f);
    hide Fits, Branches, InOrder, NoUsersLeft;
    NoBug(g, tmpl, w.dead, r, w.secondary);
  }

  /** Where a spawn is after the walk: still on its list if it was not visited. */
  lemma UsersWalked(g: Graph, skip: Spawn -> bool, users: map<Alg, seq<Spawn>>, dead: set<Spawn>, rank: Alg -> nat, f: Forest, w: Walk, s: Spawn, a: Alg)
    requires Acyclic(g, users, rank) && Grown(g, users, rank, g.alg, TopOf(skip, UsersOf(users, g.alg)), f)
    requires UsersAfter(g, StartWalk(g, skip, users, dead).users, f, Top, w.users)
    ensures s in UsersOf(w.users, a) <==> s in UsersOf(users, a) && s !in All(f)
    ensures s in All(f) ==> s in UsersOf(users, g.info(s).alg)
  {
    hide Fits, Branches, Falling;
    Parts(g, f);
    RootsIn(f);
    TopOfList(skip, UsersOf(users, g.alg));
    assert Users(a) != Top;
    if s in UsersOf(users, a) && s !in All(f) && a in Cleared(g, f) {
      var t := ClearedBy(g, f, a);
      UsersInAll(g, users, rank, skip, f, t, s);
    }
  }

  lemma UsersInAll(g: Graph, users: map<Alg, seq<Spawn>>, rank: Alg -> nat, skip: Spawn -> bool, f: Forest, s: Spawn, u: Spawn)
    requires Grown(g, users, rank, g.alg, TopOf(skip, UsersOf(users, g.alg)), f)
    requires s in All(f) && g.Expands(s) && u in UsersOf(users, g.Inst(s))
    ensures u in All(f)
  {
    UsersIn(g, users, g.alg, f, s, u);
  }

  /** Whatever graph there is without a cycle below the algorithm, removal does this. */
  lemma RemovalOnAcyclic(g: Graph, skip: Spawn -> bool, tmpl: Alg -> bool, users: map<Alg, seq<Spawn>>, dead: set<Spawn>, algDead: set<Alg>,
                         removed: seq<Alg>, rank: Alg -> nat, k: nat)
    requires Acyclic(g, users, rank) && forall i :: tmpl(i) ==> g.ready(i)
    requires Stopped(Steps(g, StartWalk(g, skip, users, dead), k))
    ensures var w := Steps(g, StartWalk(g, skip, users, dead), k);
            Removed(g, skip, tmpl, users, algDead, removed, w,
                    FinishAll(g, tmpl, w.dead, Registry(w.users, algDead, removed, false), w.secondary))
  {
    hide Listed, Steps, Grown, ForestBelow, Walked, FinishAll, Settled, Reached, Needed;
    var f := WalkOnAcyclic(g, skip, users, dead, rank, k);
    var w := Steps(g, StartWalk(g, skip, users, dead), k);
    var r := Registry(w.users, algDead, removed, false);
    NoBugBelow(g, skip, tmpl, users, dead, f, w, r);
    AllFinished(g, tmpl, w.dead, r, w.secondary);
    AllListed(g, tmpl, w.dead, r, w.secondary);
    OnceBefore(g, skip, users, dead, rank, f, w);
    AllOnce(g, tmpl, w.dead, r, w.secondary);
    RemovedFrom(g, skip, tmpl, users, dead, rank, f, w, r, FinishAll(g, tmpl, w.dead, r, w.secondary));
  }

  lemma {:induction false} FinishedOnce(g: Graph, f: Forest)
    requires Branches(g, f)
    ensures NoDup(Finished(f))
  {
    if f.Node? {
      FinishedOnce(g, f.kids);
      FinishedOnce(g, f.next);
      Parts(g, f.kids);
      Parts(g, f.next);
      NoDupCons(f.s, Finished(f.kids));
      NoDupConcat(Finished(f.next), [f.s] + Finished(f.kids));
    }
  }

  lemma NoDupConcat(x: seq<Spawn>, y: seq<Spawn>)
    requires NoDup(x) && NoDup(y) && forall s :: s in x ==> s !in y
    ensures NoDup(x + y)
  {
    var l := x + y;
    forall i, j | 0 <= i < j < |l| ensures l[i] != l[j] {
      assert (i < |x| ==> l[i] in x) && (|x| <= j ==> l[j] == y[j - |x|] && l[j] in y);
      assert |x| <= i ==> l[i] == y[i - |x|];
    }
  }

  /** What the walk leaves on the lists and on secondary_spawns, it leaves once. */
  lemma OnceBefore(g: Graph, skip: Spawn -> bool, users: map<Alg, seq<Spawn>>, dead: set<Spawn>, rank: Alg -> nat, f: Forest, w: Walk)
    requires Acyclic(g, users, rank) && ForestBelow(g, skip, users, f) && Grown(g, users, rank, g.alg, TopOf(skip, UsersOf(users, g.alg)), f)
    requires Walked(g, skip, users, dead, f, w)
    ensures NoDup(w.secondary) && (forall a :: NoDup(UsersOf(w.users, a))) && forall s :: s in w.secondary ==> s !in UsersOf(w.users, g.info(s).alg)
  {
    FinishedOnce(g, f);
    Parts(g, f);
    hide ForestBelow, UsersAfter, NoDup;
    forall a ensures NoDup(UsersOf(w.users, a)) {
      OnceOn(g, skip, users, dead, f, w.users, a);
    }
    forall s | s in w.secondary ensures s !in UsersOf(w.users, g.info(s).alg) {
      UsersWalked(g, skip, users, dead, rank, f, w, s, g.info(s).alg);
    }
  }

  lemma OnceOn(g: Graph, skip: Spawn -> bool, users: map<Alg, seq<Spawn>>, dead: set<Spawn>, f: Forest, users2: map<Alg, seq<Spawn>>, a: Alg)
    requires Homed(g, users) && UsersAfter(g, StartWalk(g, skip, users, dead).users, f, Top, users2)
    ensures NoDup(UsersOf(users2, a))
  {
    hide Cleared;
    var users1 := StartWalk(g, skip, users, dead).users;
    assert Users(a) != Top;
    TopOfList(skip, UsersOf(users, g.alg));
    StayingOnce(skip, UsersOf(users, g.alg));
    assert UsersOf(users1, a) == if a == g.alg then Staying(skip, UsersOf(users, g.alg)) else UsersOf(users, a);
  }

  lemma {:induction false} StayingOnce(skip: Spawn -> bool, l: seq<Spawn>)
    requires NoDup(l)
    ensures NoDup(Staying(skip, l))
  {
    if |l| != 0 {
      FirstApart(l);
      StayingOnce(skip, l[1..]);
      TopOfList(skip, l[1..]);
      if skip(l[0]) {
        NoDupCons(l[0], Staying(skip, l[1..]));
      } else {
        assert Staying(skip, l) == Staying(skip, l[1..]);
      }
    }
  }

  /** Reading off what the walk and the last loop left. */
  lemma RemovedFrom(g: Graph, skip: Spawn -> bool, tmpl: Alg -> bool, users: map<Alg, seq<Spawn>>, dead: set<Spawn>, rank: Alg -> nat,
                    f: Forest, w: Walk, r: Registry, r': Registry)
    requires Acyclic(g, users, rank) && ForestBelow(g, skip, users, f) && Grown(g, users, rank, g.alg, TopOf(skip, UsersOf(users, g.alg)), f)
    requires Walked(g, skip, users, dead, f, w) && r.users == w.users && !r'.bug && Settled(g, w.dead, r, w.secondary, r')
    requires Listed(tmpl, r.algDead, DeadInsts(g, w.dead, w.secondary), r.removed, r'.removed) && forall a :: NoDup(UsersOf(r'.users, a))
    ensures Removed(g, skip, tmpl, users, r.algDead, r.removed, w, r')
  {
    hide Listed, NoDup, Reached, Needed, Grown, ForestBelow, UsersAfter, DeadAfter, Acyclic;
    var top := TopOf(skip, UsersOf(users, g.alg));
    forall s ensures (s in w.secondary <==> Reached(g, users, top, s)) && (Reached(g, users, top, s) && s !in w.dead ==> Needed(g, users, s)) {
      WalkedMeans(g, skip, users, dead, f, w, s);
      if Reached(g, users, top, s) && s !in w.dead {
        LiveBelow(g, skip, users, f, s);
      }
    }
    forall a ensures StillThere(g, users, top, w.dead, UsersOf(r'.users, a), a) {
      forall s ensures s in UsersOf(r'.users, a) <==> s in UsersOf(users, a) && !(Reached(g, users, top, s) && s in w.dead) {
        WalkedMeans(g, skip, users, dead, f, w, s);
        UsersWalked(g, skip, users, dead, rank, f, w, s, a);
        OneHome(g, users, rank, s, a);
      }
    }
    assert r'.algDead == r.algDead + DeadInsts(g, w.dead, w.secondary);
  }

  lemma OneHome(g: Graph, users: map<Alg, seq<Spawn>>, rank: Alg -> nat, s: Spawn, a: Alg)
    requires Acyclic(g, users, rank)
    ensures s in UsersOf(users, a) ==> g.info(s).alg == a
  {
  }

  lemma LiveBelow(g: Graph, skip: Spawn -> bool, users: map<Alg, seq<Spawn>>, f: Forest, s: Spawn)
    requires ForestBelow(g, skip, users, f) && s in All(f) && s !in Dead(g, f)
    ensures Needed(g, users, s)
  {
    LiveIsNeeded(g, users, users, g.alg, f, s);
  }

  /**
   When the promise is kept: exactly if no instance that the new algorithm is built on depends on
   the algorithm through two spawns.  Otherwise such an instance is marked dead.
   */
  lemma PromiseIffUnshared(g: Graph, skip: Spawn -> bool, users: map<Alg, seq<Spawn>>, dead: set<Spawn>, rank: Alg -> nat, k: nat)
    requires Acyclic(g, users, rank) && Stopped(Steps(g, StartWalk(g, skip, users, dead), k))
    ensures var w, top := Steps(g, StartWalk(g, skip, users, dead), k), TopOf(skip, UsersOf(users, g.alg));
            && (PromiseKept(g, users, w) <==> !Shared(g, users, top))
            && (TooMuchRemoved(g, users, w) <==> Shared(g, users, top))
  {
    hide Steps, Shared, Grown, Walked, ForestBelow;
    var f := WalkOnAcyclic(g, skip, users, dead, rank, k);
    var w, top := Steps(g, StartWalk(g, skip, users, dead), k), TopOf(skip, UsersOf(users, g.alg));
    if Shared(g, users, top) {
      SharedRemoves(g, skip, users, dead, f, w);
    } else {
      UnsharedKeeps(g, skip, users, dead, f, w);
    }
  }

  /** Two spawns of one instance: whatever the order of the lists, the instance is marked dead. */
  lemma SharedRemoves(g: Graph, skip: Spawn -> bool, users: map<Alg, seq<Spawn>>, dead: set<Spawn>, f: Forest, w: Walk)
    requires ForestBelow(g, skip, users, f) && Walked(g, skip, users, dead, f, w)
    requires Shared(g, users, TopOf(skip, UsersOf(users, g.alg)))
    ensures TooMuchRemoved(g, users, w) && !PromiseKept(g, users, w)
  {
    hide Reached, Leads, Walked;
    var top := TopOf(skip, UsersOf(users, g.alg));
    var s, t :| Reached(g, users, top, s) && Reached(g, users, top, t) && SameInst(g, s, t) && Leads(g, users, s);
    LeadExpands(g, users, s, t);
    WalkedMeans(g, skip, users, dead, f, w, s);
    WalkedMeans(g, skip, users, dead, f, w, t);
    OneOfTwoDies(g, users, g.alg, f, s, t);
    var x := if s in w.dead then s else t;
    assert x in w.secondary && x in w.dead && g.info(x).registered;
    assert g.Inst(s) in DeadInsts(g, w.dead, w.secondary);
    assert Needed(g, users, x);
  }

  /** Whether the new algorithm is below depends on the instance only. */
  lemma LeadExpands(g: Graph, users: map<Alg, seq<Spawn>>, s: Spawn, t: Spawn)
    requires Leads(g, users, s) && SameInst(g, s, t)
    ensures g.Expands(s) && Leads(g, users, t)
  {
    var p :| Path(g, users, [s], p) && 1 < |p| && g.IsNew(p[|p| - 1]);
    var q := [t] + p[1..];
    assert g.Expands(p[0]) && p[0 + 1] in UsersOf(users, g.Inst(p[0]));
    forall j: nat | j + 1 < |q| ensures g.Expands(q[j]) && q[j + 1] in UsersOf(users, g.Inst(q[j])) {
      assert q[j + 1] == p[j + 1] && (j != 0 ==> q[j] == p[j]);
    }
    assert Path(g, users, [t], q) && q[|q| - 1] == p[|p| - 1];
  }

  lemma LeadingBelow(g: Graph, skip: Spawn -> bool, users: map<Alg, seq<Spawn>>, f: Forest, s: Spawn)
    requires ForestBelow(g, skip, users, f) && s in All(f) && Needed(g, users, s) && !Shared(g, users, TopOf(skip, UsersOf(users, g.alg)))
    ensures s !in Dead(g, f)
  {
    hide Fits, Branches, Dead, Shared;
    var p := [s];
    if !g.IsNew(s) {
      p :| Path(g, users, [s], p) && 1 < |p| && g.IsNew(p[|p| - 1]);
    }
    LeadingLives(g, users, g.alg, f, p);
  }

  lemma UnsharedKeeps(g: Graph, skip: Spawn -> bool, users: map<Alg, seq<Spawn>>, dead: set<Spawn>, f: Forest, w: Walk)
    requires ForestBelow(g, skip, users, f) && Walked(g, skip, users, dead, f, w)
    requires !Shared(g, users, TopOf(skip, UsersOf(users, g.alg)))
    ensures PromiseKept(g, users, w) && !TooMuchRemoved(g, users, w)
  {
    hide Reached, Needed, Leads, Walked, ForestBelow;
    forall s | s in w.secondary ensures s !in w.dead <==> Needed(g, users, s) {
      WalkedMeans(g, skip, users, dead, f, w, s);
      if s !in w.dead {
        LiveBelow(g, skip, users, f, s);
      } else if Needed(g, users, s) {
        LeadingBelow(g, skip, users, f, s);
      }
    }
    forall s | s in w.secondary && Leads(g, users, s) ensures g.Inst(s) !in DeadInsts(g, w.dead, w.secondary) {
      if g.Inst(s) in DeadInsts(g, w.dead, w.secondary) {
        var t :| t in w.secondary && t in w.dead && g.info(t).registered && g.Inst(t) == g.Inst(s);
        LeadIsNeeded(g, users, s);
        assert s != t;
        LeadHasUsers(g, users, s);
        LeadExpands(g, users, s, t);
        LeadIsNeeded(g, users, t);
      }
    }
  }

  // ----- a shared instance -----

  /**
   It happens: spawns 0 and 1 of instance 1 are on algorithm 0, and spawn 2 of the new algorithm 2 is
   on instance 1.  Instance 1 is marked dead although the new algorithm is built on it.
   */
  lemma SharedInstanceIsRemoved() returns (g: Graph, users: map<Alg, seq<Spawn>>, rank: Alg -> nat, k: nat)
    ensures users == map[0 := [0, 1], 1 := [2], 2 := []] && g.alg == 0 && g.nalg == Some(2) && Acyclic(g, users, rank)
    ensures var w := Steps(g, StartWalk(g, _ => false, users, {}), k);
            var r := FinishAll(g, _ => true, w.dead, Registry(w.users, {}, [], false), w.secondary);
            w.phase == Halt && g.Inst(0) == 1 && Leads(g, users, 0) && 1 in r.algDead
  {
    g := Graph(s => if s == 2 then SpawnInfo(1, 2, true) else SpawnInfo(0, 1, true), _ => true, 0, Some(2));
    users := map[0 := [0, 1], 1 := [2], 2 := []];
    rank := a => if a == 0 then 2 else if a == 1 then 1 else 0;
    hide Steps, FinishAll, StartWalk, Acyclic, Leads, Removed;
    var skip: Spawn -> bool := _ => false;
    var tmpl: Alg -> bool := _ => true;
    assert IsTwo(g, users, rank);
    TwoAcyclic(g, users, rank);
    k := TwoStops(g, users, rank, skip);
    TwoMarked(g, users, rank, skip, k);
    RemovalOnAcyclic(g, skip, tmpl, users, {}, {}, [], rank, k);
    var w := Steps(g, StartWalk(g, skip, users, {}), k);
    RemovedMarks(g, skip, tmpl, users, {}, [], w, FinishAll(g, tmpl, w.dead, Registry(w.users, {}, [], false), w.secondary), 1);
  }

  ghost predicate IsTwo(g: Graph, users: map<Alg, seq<Spawn>>, rank: Alg -> nat) {
    && users == map[0 := [0, 1], 1 := [2], 2 := []] && rank(0) == 2 && rank(1) == 1 && rank(2) == 0
    && g.alg == 0 && g.nalg == Some(2) && g.ready(1)
    && g.info(0) == SpawnInfo(0, 1, true) && g.info(1) == SpawnInfo(0, 1, true) && g.info(2) == SpawnInfo(1, 2, true)
  }

  lemma TwoAcyclic(g: Graph, users: map<Alg, seq<Spawn>>, rank: Alg -> nat)
    requires IsTwo(g, users, rank)
    ensures Acyclic(g, users, rank) && Leads(g, users, 0)
  {
    assert Path(g, users, [0], [0, 2]) && g.IsNew([0, 2][1]);
  }

  lemma TwoStops(g: Graph, users: map<Alg, seq<Spawn>>, rank: Alg -> nat, skip: Spawn -> bool) returns (k: nat)
    requires IsTwo(g, users, rank) && !skip(0) && !skip(1)
    ensures Stopped(Steps(g, StartWalk(g, skip, users, {}), k))
  {
    hide Steps;
    TwoTop(skip);
    var w0 := StartWalk(g, skip, users, {});
    assert Parted(w0, {0, 1, 2});
    k := Terminates(g, w0, {0, 1, 2});
  }

  lemma TwoMarked(g: Graph, users: map<Alg, seq<Spawn>>, rank: Alg -> nat, skip: Spawn -> bool, k: nat)
    requires IsTwo(g, users, rank) && Stopped(Steps(g, StartWalk(g, skip, users, {}), k)) && !skip(0) && !skip(1)
    ensures var w := Steps(g, StartWalk(g, skip, users, {}), k); 1 in DeadInsts(g, w.dead, w.secondary)
  {
    hide Steps, StartWalk, Acyclic, Leads, PromiseKept, Shared, Reached, Walked, ForestBelow, Grown;
    TwoAcyclic(g, users, rank);
    TwoTop(skip);
    TwoShare(g, users, [1, 0]);
    PromiseIffUnshared(g, skip, users, {}, rank, k);
    var w := Steps(g, StartWalk(g, skip, users, {}), k);
    var s :| s in w.secondary && Leads(g, users, s) && g.Inst(s) in DeadInsts(g, w.dead, w.secondary);
    var f := WalkOnAcyclic(g, skip, users, {}, rank, k);
    WalkedMeans(g, skip, users, {}, f, w, s);
    TwoReached(g, users, rank, s);
    LeadHasUsers(g, users, s);
  }

  lemma TwoReached(g: Graph, users: map<Alg, seq<Spawn>>, rank: Alg -> nat, s: Spawn)
    requires IsTwo(g, users, rank) && Reached(g, users, [1, 0], s)
    ensures s in {0, 1, 2}
  {
    var p :| Path(g, users, [1, 0], p) && p[|p| - 1] == s;
    if 1 < |p| {
      var j: nat := |p| - 2;
      assert j + 1 < |p| && p[j + 1] in UsersOf(users, g.Inst(p[j]));
    }
  }

  lemma RemovedMarks(g: Graph, skip: Spawn -> bool, tmpl: Alg -> bool, users: map<Alg, seq<Spawn>>, algDead: set<Alg>, removed: seq<Alg>,
                     w: Walk, r: Registry, i: Alg)
    requires Removed(g, skip, tmpl, users, algDead, removed, w, r) && i in DeadInsts(g, w.dead, w.secondary)
    ensures w.phase == Halt && i in r.algDead
  {
  }

  lemma TwoTop(skip: Spawn -> bool)
    requires !skip(0) && !skip(1)
    ensures TopOf(skip, [0, 1]) == [1, 0] && Staying(skip, [0, 1]) == []
  {
    assert [0, 1][1..] == [1] && [1][1..] == [];
    assert TopOf(skip, [1]) == [1] && Staying(skip, [1]) == [];
  }

  lemma TwoShare(g: Graph, users: map<Alg, seq<Spawn>>, top: seq<Spawn>)
    requires 0 in top && 1 in top && SameInst(g, 0, 1) && Leads(g, users, 0)
    ensures Shared(g, users, top)
  {
    assert Path(g, users, top, [0]) && [0][|[0]| - 1] == 0;
    assert Path(g, users, top, [1]) && [1][|[1]| - 1] == 1;
  }

  lemma LeadHasUsers(g: Graph, users: map<Alg, seq<Spawn>>, s: Spawn)
    requires Leads(g, users, s)
    ensures g.Expands(s) && UsersOf(users, g.Inst(s)) != []
  {
    var p :| Path(g, users, [s], p) && 1 < |p| && g.IsNew(p[|p| - 1]);
    assert g.Expands(p[0]) && p[0 + 1] in UsersOf(users, g.Inst(p[0]));
  }

  // ----- the code -----

  class AlgRegistry {
    /** cra_users of every algorithm, the dead marks of spawns and algorithms, and the caller's list. */
    var users: map<Alg, seq<Spawn>>
    var dead: set<Spawn>
    var algDead: set<Alg>
    var removed: seq<Alg>

    ghost function Abs(bug: bool): Registry
      reads this
    {
      Registry(users, algDead, removed, bug)
    }

    /** The spawns that fit leave the list of users for `top`. */
    method TakeTop(g: Graph, skip: Spawn -> bool) returns (top: seq<Spawn>)
      modifies this`users
      ensures users == old(StartWalk(g, skip, users, dead)).users && top == old(StartWalk(g, skip, users, dead)).top
    {
      var l := UsersOf(users, g.alg);
      top := [];
      var staying: seq<Spawn> := [];
      var i := 0;
      assert l[0..] == l;
      while i < |l|
        invariant 0 <= i <= |l|
        invariant TopOf(skip, l[i..]) + top == TopOf(skip, l)
        invariant staying + Staying(skip, l[i..]) == Staying(skip, l)
      {
        assert l[i..][0] == l[i] && l[i..][1..] == l[i + 1..];
        if skip(l[i]) {
          staying := staying + [l[i]];
        } else {
          top := [l[i]] + top;
        }
        i := i + 1;
      }
      assert l[i..] == [] && [] + top == top && staying + [] == staying;
      users := users[g.alg := staying];
    }

    /** The loop over secondary_spawns; the kernel stops at a BUG_ON. */
    method Finish(g: Graph, tmpl: Alg -> bool, secondary: seq<Spawn>) returns (bug: bool)
      modifies this`users, this`algDead, this`removed
      ensures Abs(bug) == FinishAll(g, tmpl, dead, old(Abs(false)), secondary)
    {
      bug := false;
      var i := 0;
      ghost var r := Abs(false);
      while i < |secondary|
        invariant 0 <= i <= |secondary| && Abs(bug) == FinishAll(g, tmpl, dead, r, secondary[..i])
      {
        var s := secondary[i];
        assert secondary[..i + 1] == secondary[..i] + [s];
        FinishSnoc(g, tmpl, dead, r, secondary[..i], s);
        if s !in dead {
          users := users[g.info(s).alg := [s] + UsersOf(users, g.info(s).alg)];
        } else if g.info(s).registered {
          var inst := g.Inst(s);
          if inst !in algDead {
            algDead := algDead + {inst};
            if tmpl(inst) {
              removed := [inst] + removed;
              bug := bug || UsersOf(users, inst) != [];
            }
          }
        }
        i := i + 1;
      }
      assert secondary[..i] == secondary;
    }

    /** The list that `at` names. */
    function ListOf(at: Where, top: seq<Spawn>): seq<Spawn>
      reads this`users
    {
      if at.Top? then top else UsersOf(users, at.a)
    }

    /** The inner loop of crypto_remove_spawns, from the list `from` on. */
    method Descend(g: Graph, from: Where, top0: seq<Spawn>, stack0: seq<Spawn>, ghost secondary: seq<Spawn>, ghost all: set<Spawn>)
      returns (bug: bool, top: seq<Spawn>, stack: seq<Spawn>, ghost k: nat)
      requires Parted(Walk(users, top0, stack0, secondary, dead, Down(from)), all)
      modifies this`users, this`dead
      ensures var w := Walk(users, top, stack, secondary, dead, if bug then Bug else Up);
              && w == Steps(g, old(Walk(users, top0, stack0, secondary, dead, Down(from))), k) && Parted(w, all)
              && Measure(w, all) < old(Measure(Walk(users, top0, stack0, secondary, dead, Down(from)), all))
    {
      hide Parted, Measure, Steps;
      ghost var w0 := Walk(users, top0, stack0, secondary, dead, Down(from));
      var at := from;
      top, stack, bug, k := top0, stack0, false, 0;
      NoSteps(g, w0);
      ghost var w := w0;
      while |ListOf(at, top)| != 0
        invariant w == Walk(users, top, stack, secondary, dead, Down(at)) && w == Steps(g, w0, k) && Parted(w, all)
        invariant Measure(w, all) <= Measure(w0, all)
        decreases Measure(w, all)
      {
        var spawn := ListOf(at, top)[0];
        ghost var w' := Step(g, w);
        StepDecreases(g, w, all);
        PushMeasure(g, w, at, all);
        StepsPlus(g, w0, k, 1);
        OneStep(g, w);
        k := k + 1;
        w := w';
        if at.Top? {
          top := top[1..];
        } else {
          users := users[at.a := users[at.a][1..]];
        }
        stack := [spawn] + stack;
        dead := if !g.info(spawn).registered || g.nalg != Some(g.Inst(spawn)) then dead + {spawn} else dead - {spawn};
        if !g.info(spawn).registered {
          return;
        }
        if g.Inst(spawn) == g.alg {
          bug := true;
          return;
        }
        if g.nalg == Some(g.Inst(spawn)) {
          return;
        }
        at := Users(g.Inst(spawn));
        if !g.ready(g.Inst(spawn)) {
          return;
        }
      }
      StepDecreases(g, w, all);
      UpMeasure(w, all);
      StepsPlus(g, w0, k, 1);
      OneStep(g, w);
      k := k + 1;
    }

    /**
     crypto_remove_spawns.  It always comes to an end; if there is no cycle below the algorithm,
     what is removed is what Removed says, and that is what has to be if and only if no instance
     below the new algorithm is shared.
     */
    method CryptoRemoveSpawns(g: Graph, skip: Spawn -> bool, tmpl: Alg -> bool, ghost all: set<Spawn>, ghost rank: Alg -> nat)
      returns (bug: bool, ghost k: nat)
      requires Parted(StartWalk(g, skip, users, dead), all)
      modifies this
      ensures var w := Steps(g, old(StartWalk(g, skip, users, dead)), k);
              && Stopped(w)
              && (w.phase == Halt ==> Abs(bug) == FinishAll(g, tmpl, w.dead, Registry(w.users, old(algDead), old(removed), false), w.secondary))
              && (w.phase == Bug ==> bug)
      ensures var w := Steps(g, old(StartWalk(g, skip, users, dead)), k);
              old(Acyclic(g, users, rank)) && (forall i :: tmpl(i) ==> g.ready(i)) ==>
                && Removed(g, skip, tmpl, old(users), old(algDead), old(removed), w, Abs(bug)) && dead == w.dead
                && (PromiseKept(g, old(users), w) <==> old(!Shared(g, users, TopOf(skip, UsersOf(users, g.alg)))))
    {
      hide Parted, Measure, Steps, Step, Acyclic, Removed, FinishAll, Shared, PromiseKept, TooMuchRemoved;
      ghost var w0, users0, dead0 := StartWalk(g, skip, users, dead), users, dead;
      var top := TakeTop(g, skip);
      var stack: seq<Spawn>, secondary: seq<Spawn> := [], [];
      var at := Top;
      k := 0;
      NoSteps(g, w0);
      ghost var w := w0;
      while true
        invariant w == Walk(users, top, stack, secondary, dead, Down(at)) && w == Steps(g, w0, k) && Parted(w, all)
        invariant algDead == old(algDead) && removed == old(removed)
        decreases Measure(w, all)
      {
        ghost var j;
        bug, top, stack, j := Descend(g, at, top, stack, secondary, all);
        StepsPlus(g, w0, k, j);
        k := k + j;
        w := Walk(users, top, stack, secondary, dead, if bug then Bug else Up);
        if bug {
          OnAcyclic(g, skip, tmpl, users0, dead0, algDead, removed, rank, k);
          return;
        }
        StepDecreases(g, w, all);
        StepsPlus(g, w0, k, 1);
        OneStep(g, w);
        k := k + 1;
        ghost var w' := Step(g, w);
        UpStep(g, w);
        // crypto_more_spawns
        if |stack| == 0 {
          break;
        }
        var spawn := stack[0];
        stack, secondary := stack[1..], [spawn] + secondary;
        if |stack| == 0 {
          at := Top;
        } else {
          if spawn !in dead {
            dead := dead - {stack[0]};
          }
          at := Users(g.Inst(stack[0]));
        }
        w := w';
      }
      OnAcyclic(g, skip, tmpl, users0, dead0, algDead, removed, rank, k);
      bug := Finish(g, tmpl, secondary);
    }
  }

  lemma NoSteps(g: Graph, w: Walk)
    ensures Steps(g, w, 0) == w
  {
  }

  lemma UpStep(g: Graph, w: Walk)
    requires w.phase == Up
    ensures Step(g, w) == Pop(g, w)
  {
  }

  /** A push leaves the measure smaller whichever way the walk goes on. */
  lemma PushMeasure(g: Graph, w: Walk, at: Where, all: set<Spawn>)
    requires w.phase == Down(at) && |List(w, at)| != 0 && Parted(w, all)
    ensures Measure(Step(g, w), all) < Measure(w, all)
  {
    hide Parted, Push;
    PushParted(g, w, at, all);
    PushStack(g, w, at);
  }

  lemma UpMeasure(w: Walk, all: set<Spawn>)
    requires w.phase.Down?
    ensures Measure(w.(phase := Up), all) < Measure(w, all)
  {
  }

  lemma OnAcyclic(g: Graph, skip: Spawn -> bool, tmpl: Alg -> bool, users: map<Alg, seq<Spawn>>, dead: set<Spawn>, algDead: set<Alg>,
                  removed: seq<Alg>, rank: Alg -> nat, k: nat)
    requires Stopped(Steps(g, StartWalk(g, skip, users, dead), k))
    ensures Acyclic(g, users, rank) && (forall i :: tmpl(i) ==> g.ready(i)) ==>
              var w := Steps(g, StartWalk(g, skip, users, dead), k);
              && w.phase == Halt && (PromiseKept(g, users, w) <==> !Shared(g, users, TopOf(skip, UsersOf(users, g.alg))))
              && Removed(g, skip, tmpl, users, algDead, removed, w, FinishAll(g, tmpl, w.dead, Registry(w.users, algDead, removed, false), w.secondary))
  {
    hide Steps, Acyclic, FinishAll, Shared, PromiseKept, TooMuchRemoved;
    if Acyclic(g, users, rank) && forall i :: tmpl(i) ==> g.ready(i) {
      RemovalOnAcyclic(g, skip, tmpl, users, dead, algDead, removed, rank, k);
      PromiseIffUnshared(g, skip, users, dead, rank, k);
      RemovedHalts(g, skip, tmpl, users, algDead, removed, Steps(g, StartWalk(g, skip, users, dead), k),
                   FinishAll(g, tmpl, Steps(g, StartWalk(g, skip, users, dead), k).dead,
                             Registry(Steps(g, StartWalk(g, skip, users, dead), k).users, algDead, removed, false),
                             Steps(g, StartWalk(g, skip, users, dead), k).secondary));
    }
  }

  lemma RemovedHalts(g: Graph, skip: Spawn -> bool, tmpl: Alg -> bool, users: map<Alg, seq<Spawn>>, algDead: set<Alg>, removed: seq<Alg>,
                     w: Walk, r: Registry)
    requires Removed(g, skip, tmpl, users, algDead, removed, w, r)
    ensures w.phase == Halt
  {
  }
}
