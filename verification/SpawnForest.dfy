/**
 What the walk of crypto_remove_spawns computes, said by its depth-first forest: every spawn in the
 forest is visited once, and those stay alive that have the new algorithm below them in it.
 */
module SpawnForest {
  import opened SpawnWalk

  /** The users of one algorithm, in list order, each with the users of its instance. */
  datatype Forest = Nil | Node(s: Spawn, kids: Forest, next: Forest)

  function Roots(f: Forest): seq<Spawn> {
    match f
    case Nil => []
    case Node(s, _, next) => [s] + Roots(next)
  }

  function All(f: Forest): set<Spawn> {
    match f
    case Nil => {}
    case Node(s, kids, next) => {s} + All(kids) + All(next)
  }

  function Insts(g: Graph, f: Forest): set<Alg> {
    match f
    case Nil => {}
    case Node(s, kids, next) => {g.Inst(s)} + Insts(g, kids) + Insts(g, next)
  }

  /** The instances whose users the walk takes. */
  function Cleared(g: Graph, f: Forest): set<Alg> {
    match f
    case Nil => {}
    case Node(s, kids, next) => (if g.Expands(s) then {g.Inst(s)} else {}) + Cleared(g, kids) + Cleared(g, next)
  }

  /** The new algorithm has a spawn in there. */
  predicate Live(g: Graph, f: Forest) {
    match f
    case Nil => false
    case Node(s, kids, next) => g.IsNew(s) || Live(g, kids) || Live(g, next)
  }

  /** The spawns whose subtree lacks the new algorithm. */
  function Dead(g: Graph, f: Forest): set<Spawn> {
    match f
    case Nil => {}
    case Node(s, kids, next) => (if g.IsNew(s) || Live(g, kids) then {} else {s}) + Dead(g, kids) + Dead(g, next)
  }

  /** The order of secondary_spawns: what is finished last comes first. */
  function Finished(f: Forest): seq<Spawn> {
    match f
    case Nil => []
    case Node(s, kids, next) => Finished(next) + ([s] + Finished(kids))
  }

  /**
   The forest is what a depth-first search finds from the users of algorithm a on: the first spawn
   of an instance takes its users along, and the others find none any more.
   */
  predicate Fits(g: Graph, users: map<Alg, seq<Spawn>>, a: Alg, f: Forest)
    decreases f
  {
    match f
    case Nil => true
    case Node(s, kids, next) =>
      && g.info(s).alg == a
      && Roots(kids) == (if g.Expands(s) then UsersOf(users, g.Inst(s)) else [])
      && Fits(g, users - {g.Inst(s)}, g.Inst(s), kids)
      && Fits(g, users - Cleared(g, Node(s, kids, Nil)), a, next)
  }

  /** No spawn comes twice, and no instance is above itself. */
  predicate Branches(g: Graph, f: Forest) {
    match f
    case Nil => true
    case Node(s, kids, next) =>
      && s !in All(kids) + All(next) && All(kids) !! All(next) && g.Inst(s) !in Insts(g, kids)
      && Branches(g, kids) && Branches(g, next)
  }

  /** Where the walk goes on when the spawn on top of the stack has been dealt with. */
  function Home(g: Graph, stack: seq<Spawn>): Where {
    if |stack| == 0 then Top else Users(g.Inst(stack[0]))
  }

  /** A list that is about to give its first spawns, the roots of f, to the walk. */
  ghost predicate Before(g: Graph, w: Walk, f: Forest, a: Alg, at: Where, rest: seq<Spawn>) {
    && w.phase == Down(at) && at == Home(g, w.stack) && List(w, at) == Roots(f) + rest
    && Fits(g, w.users, a, f) && Branches(g, f) && g.alg !in Insts(g, f)
    && (at.Users? ==> at.a !in Insts(g, f)) && (|w.stack| != 0 ==> w.stack[0] !in All(f))
  }

  /** The users lists but the one at hand: those of visited instances are empty. */
  ghost predicate UsersAfter(g: Graph, users: map<Alg, seq<Spawn>>, f: Forest, at: Where, users': map<Alg, seq<Spawn>>) {
    && (forall a :: Users(a) != at && a in Cleared(g, f) ==> UsersOf(users', a) == [])
    && (forall a :: Users(a) != at && a !in Cleared(g, f) ==> UsersOf(users', a) == UsersOf(users, a))
  }

  /** The marks once the spawn on top of the stack has been told of a live one below it. */
  function Raised(stack: seq<Spawn>, live: bool, dead: set<Spawn>): set<Spawn> {
    if |stack| != 0 && live then dead - {stack[0]} else dead
  }

  /** The marks: those of f say what Dead says, and the spawn above f lives if something in f does. */
  ghost predicate DeadAfter(g: Graph, stack: seq<Spawn>, dead: set<Spawn>, f: Forest, dead': set<Spawn>) {
    && (forall s :: s in All(f) ==> (s in dead' <==> s in Dead(g, f)))
    && (forall s :: s !in All(f) ==> (s in dead' <==> s in Raised(stack, Live(g, f), dead)))
  }

  /** The walk when it has dealt with f. */
  ghost predicate After(g: Graph, w: Walk, f: Forest, at: Where, rest: seq<Spawn>, w': Walk) {
    && w'.phase == w.phase && w'.stack == w.stack && w'.secondary == Finished(f) + w.secondary
    && List(w', at) == rest && (at.Users? ==> w'.top == w.top)
    && UsersAfter(g, w.users, f, at, w'.users) && DeadAfter(g, w.stack, w.dead, f, w'.dead)
  }

  lemma {:induction false} Parts(g: Graph, f: Forest)
    ensures Cleared(g, f) <= Insts(g, f) && Dead(g, f) <= All(f)
    ensures forall s :: s in Finished(f) <==> s in All(f)
  {
    if f.Node? {
      Parts(g, f.kids);
      Parts(g, f.next);
    }
  }

  lemma Without(users: map<Alg, seq<Spawn>>, c: set<Alg>, b: Alg)
    ensures UsersOf(users - c, b) == if b in c then [] else UsersOf(users, b)
  {
    assert b in users - c <==> b in users && b !in c;
  }

  /** Lists elsewhere do not matter. */
  lemma {:induction false} FitsKept(g: Graph, users: map<Alg, seq<Spawn>>, users': map<Alg, seq<Spawn>>, a: Alg, f: Forest)
    requires Fits(g, users, a, f) && forall b :: b in Insts(g, f) ==> UsersOf(users', b) == UsersOf(users, b)
    ensures Fits(g, users', a, f)
    decreases f
  {
    if f.Node? {
      var i, c := {g.Inst(f.s)}, Cleared(g, Node(f.s, f.kids, Nil));
      forall b | b in Insts(g, f) ensures UsersOf(users' - i, b) == UsersOf(users - i, b) && UsersOf(users' - c, b) == UsersOf(users - c, b) {
        Without(users, i, b);
        Without(users', i, b);
        Without(users, c, b);
        Without(users', c, b);
      }
      FitsKept(g, users - i, users' - i, g.Inst(f.s), f.kids);
      FitsKept(g, users - c, users' - c, a, f.next);
    }
  }

  lemma {:induction false} RootsIn(f: Forest)
    ensures forall s :: s in Roots(f) ==> s in All(f)
    ensures |Roots(f)| == 0 <==> f.Nil?
  {
    if f.Node? {
      RootsIn(f.next);
    }
  }

  /** The step that takes the first spawn leads into its users, or up again if it has none to visit. */
  lemma Enter(g: Graph, w: Walk, f: Forest, a: Alg, at: Where, rest: seq<Spawn>)
    requires f.Node? && Before(g, w, f, a, at, rest)
    ensures var w1 := Step(g, w);
            && w1.stack == [f.s] + w.stack && w1.secondary == w.secondary
            && w1.dead == (if g.IsNew(f.s) then w.dead - {f.s} else w.dead + {f.s})
            && List(w1, at) == Roots(f.next) + rest && (at.Users? ==> w1.top == w.top)
            && (forall b :: Users(b) != at ==> UsersOf(w1.users, b) == UsersOf(w.users, b))
            && (if g.Expands(f.s) then Before(g, w1, f.kids, g.Inst(f.s), Users(g.Inst(f.s)), []) else w1.phase == Up && f.kids == Nil)
  {
    var l, s := List(w, at), f.s;
    assert l[0] == s && l[1..] == Roots(f.next) + rest;
    var w1 := Step(g, w);
    if g.Expands(s) {
      FitsKept(g, w.users - {g.Inst(s)}, w1.users, g.Inst(s), f.kids);
      assert Roots(f.kids) + [] == Roots(f.kids);
    } else {
      RootsIn(f.kids);
    }
  }

  /** Back from the users of the first spawn: it is finished, and its life is passed on to the spawn above it. */
  lemma Leave(g: Graph, w: Walk, f: Forest, a: Alg, at: Where, rest: seq<Spawn>, w2: Walk)
    requires f.Node? && Before(g, w, f, a, at, rest) && w2.phase == Up
    requires if g.Expands(f.s) then After(g, Step(g, w), f.kids, Users(g.Inst(f.s)), [], w2.(phase := Step(g, w).phase))
             else w2 == Step(g, w)
    ensures After(g, w, Node(f.s, f.kids, Nil), at, Roots(f.next) + rest, Step(g, w2))
  {
    hide Fits, Push, Branches, Before, UsersAfter, DeadAfter, After, Step;
    Enter(g, w, f, a, at, rest);
    ApartHead(g, w, f, a, at, rest);
    if g.Expands(f.s) {
      LeaveUsers(g, w, f, at, rest, Step(g, w), w2);
    } else {
      LeaveLeaf(g, w, f, at, rest, w2);
    }
  }

  lemma LeaveUsers(g: Graph, w: Walk, f: Forest, at: Where, rest: seq<Spawn>, w1: Walk, w2: Walk)
    requires f.Node? && g.Expands(f.s) && w.phase == Down(at) && at == Home(g, w.stack) && w2.phase == Up
    requires f.s !in All(f.kids) && g.Inst(f.s) !in Insts(g, f.kids) && Users(g.Inst(f.s)) != at
    requires (at.Users? ==> at.a !in Insts(g, f.kids)) && (|w.stack| != 0 ==> w.stack[0] != f.s && w.stack[0] !in All(f.kids))
    requires w1.stack == [f.s] + w.stack && w1.secondary == w.secondary && w1.dead == w.dead + {f.s}
    requires List(w1, at) == Roots(f.next) + rest && (at.Users? ==> w1.top == w.top)
    requires forall b :: Users(b) != at ==> UsersOf(w1.users, b) == UsersOf(w.users, b)
    requires After(g, w1, f.kids, Users(g.Inst(f.s)), [], w2.(phase := w1.phase))
    ensures After(g, w, Node(f.s, f.kids, Nil), at, Roots(f.next) + rest, Step(g, w2))
  {
    hide UsersAfter, DeadAfter;
    var s, w3 := f.s, Step(g, w2);
    FinishedOne(s, f.kids, w.secondary);
    assert w2.stack[1..] == w.stack && w2.stack[0] == s;
    UsersOne(g, w.users, w1.users, f, at, w2.users, w2.top == w.top);
    DeadOne(g, w.stack, w.dead, f, w1.dead, w2.dead, w3.dead);
  }

  lemma LeaveLeaf(g: Graph, w: Walk, f: Forest, at: Where, rest: seq<Spawn>, w1: Walk)
    requires f.Node? && !g.Expands(f.s) && f.kids.Nil? && w.phase == Down(at) && at == Home(g, w.stack) && w1.phase == Up
    requires |w.stack| != 0 ==> w.stack[0] != f.s
    requires w1.stack == [f.s] + w.stack && w1.secondary == w.secondary
    requires w1.dead == if g.IsNew(f.s) then w.dead - {f.s} else w.dead + {f.s}
    requires List(w1, at) == Roots(f.next) + rest && (at.Users? ==> w1.top == w.top)
    requires forall b :: Users(b) != at ==> UsersOf(w1.users, b) == UsersOf(w.users, b)
    ensures After(g, w, Node(f.s, f.kids, Nil), at, Roots(f.next) + rest, Step(g, w1))
  {
    hide UsersAfter, DeadAfter;
    var s, w3 := f.s, Step(g, w1);
    FinishedOne(s, f.kids, w.secondary);
    assert w1.stack[1..] == w.stack && w1.stack[0] == s;
    UsersNone(g, w.users, f, at, w1.users);
    DeadNone(g, w.stack, w.dead, f, w1.dead, w3.dead);
  }

  lemma FinishedOne(s: Spawn, kids: Forest, secondary: seq<Spawn>)
    ensures Finished(Node(s, kids, Nil)) + secondary == [s] + (Finished(kids) + secondary)
    ensures Finished(Nil) == [] && [] + secondary == secondary
  {
    assert Finished(Node(s, kids, Nil)) == [s] + Finished(kids);
  }

  /** The users lists after the users of the first spawn have been dealt with. */
  lemma UsersOne(g: Graph, users: map<Alg, seq<Spawn>>, users1: map<Alg, seq<Spawn>>, f: Forest, at: Where, users2: map<Alg, seq<Spawn>>, top: bool)
    requires f.Node? && g.Expands(f.s) && g.Inst(f.s) !in Insts(g, f.kids) && (at.Users? ==> at.a !in Insts(g, f.kids))
    requires forall b :: Users(b) != at ==> UsersOf(users1, b) == UsersOf(users, b)
    requires UsersAfter(g, users1, f.kids, Users(g.Inst(f.s)), users2) && UsersOf(users2, g.Inst(f.s)) == []
    ensures UsersAfter(g, users, Node(f.s, f.kids, Nil), at, users2)
    ensures at.Users? && at.a != g.Inst(f.s) ==> UsersOf(users2, at.a) == UsersOf(users1, at.a)
  {
    Parts(g, f.kids);
  }

  lemma UsersNone(g: Graph, users: map<Alg, seq<Spawn>>, f: Forest, at: Where, users1: map<Alg, seq<Spawn>>)
    requires f.Node? && !g.Expands(f.s) && f.kids.Nil?
    requires forall b :: Users(b) != at ==> UsersOf(users1, b) == UsersOf(users, b)
    ensures UsersAfter(g, users, Node(f.s, f.kids, Nil), at, users1)
  {
  }

  lemma DeadOne(g: Graph, stack: seq<Spawn>, dead: set<Spawn>, f: Forest, dead1: set<Spawn>, dead2: set<Spawn>, dead3: set<Spawn>)
    requires f.Node? && g.Expands(f.s) && f.s !in All(f.kids)
    requires |stack| != 0 ==> stack[0] != f.s && stack[0] !in All(f.kids)
    requires dead1 == dead + {f.s} && DeadAfter(g, [f.s] + stack, dead1, f.kids, dead2)
    requires dead3 == Raised(stack, f.s !in dead2, dead2)
    ensures DeadAfter(g, stack, dead, Node(f.s, f.kids, Nil), dead3)
  {
    Parts(g, f.kids);
    assert f.s in dead2 <==> !Live(g, f.kids);
  }

  lemma DeadNone(g: Graph, stack: seq<Spawn>, dead: set<Spawn>, f: Forest, dead1: set<Spawn>, dead3: set<Spawn>)
    requires f.Node? && !g.Expands(f.s) && f.kids.Nil? && (|stack| != 0 ==> stack[0] != f.s)
    requires dead1 == if g.IsNew(f.s) then dead - {f.s} else dead + {f.s}
    requires dead3 == Raised(stack, f.s !in dead1, dead1)
    ensures DeadAfter(g, stack, dead, Node(f.s, f.kids, Nil), dead3)
  {
  }

  lemma ApartHead(g: Graph, w: Walk, f: Forest, a: Alg, at: Where, rest: seq<Spawn>)
    requires f.Node? && Before(g, w, f, a, at, rest)
    ensures f.s !in All(f.kids) && g.Inst(f.s) !in Insts(g, f.kids) && Users(g.Inst(f.s)) != at && w.phase == Down(at) && at == Home(g, w.stack)
    ensures |w.stack| != 0 ==> w.stack[0] != f.s && w.stack[0] !in All(f.kids)
    ensures at.Users? ==> at.a !in Insts(g, f.kids)
  {
  }

  /** The first tree and then the others are the whole forest. */
  lemma AfterBoth(g: Graph, w: Walk, f: Forest, a: Alg, at: Where, rest: seq<Spawn>, w1: Walk, w2: Walk)
    requires f.Node? && Before(g, w, f, a, at, rest)
    requires After(g, w, Node(f.s, f.kids, Nil), at, Roots(f.next) + rest, w1) && After(g, w1, f.next, at, rest, w2)
    ensures After(g, w, f, at, rest, w2)
  {
    hide Fits, Branches, Before, UsersAfter, DeadAfter;
    ApartNext(g, w, f, a, at, rest);
    assert Finished(f.next) + (([f.s] + Finished(f.kids)) + w.secondary) == Finished(f) + w.secondary;
    assert Finished(Node(f.s, f.kids, Nil)) == [f.s] + Finished(f.kids);
    UsersBoth(g, w.users, f, at, w1.users, w2.users);
    DeadBoth(g, w.stack, w.dead, f, w1.dead, w2.dead);
  }

  lemma ApartNext(g: Graph, w: Walk, f: Forest, a: Alg, at: Where, rest: seq<Spawn>)
    requires f.Node? && Before(g, w, f, a, at, rest)
    ensures All(f.kids) !! All(f.next) && f.s !in All(f.next) && (|w.stack| != 0 ==> w.stack[0] !in All(f))
  {
  }

  /** The forest is its first tree and the others. */
  lemma Split(g: Graph, f: Forest, one: Forest)
    requires f.Node? && one == Node(f.s, f.kids, Nil)
    ensures All(f) == All(one) + All(f.next) && Dead(g, f) == Dead(g, one) + Dead(g, f.next)
    ensures Cleared(g, f) == Cleared(g, one) + Cleared(g, f.next) && (Live(g, f) <==> Live(g, one) || Live(g, f.next))
  {
  }

  lemma UsersBoth(g: Graph, users: map<Alg, seq<Spawn>>, f: Forest, at: Where, users1: map<Alg, seq<Spawn>>, users2: map<Alg, seq<Spawn>>)
    requires f.Node? && UsersAfter(g, users, Node(f.s, f.kids, Nil), at, users1) && UsersAfter(g, users1, f.next, at, users2)
    ensures UsersAfter(g, users, f, at, users2)
  {
    hide Cleared;
    var one := Node(f.s, f.kids, Nil);
    Split(g, f, one);
    forall a | Users(a) != at ensures a in Cleared(g, f) ==> UsersOf(users2, a) == [] {
      assert a in Cleared(g, f) ==> a in Cleared(g, one) || a in Cleared(g, f.next);
    }
    forall a | Users(a) != at && a !in Cleared(g, f) ensures UsersOf(users2, a) == UsersOf(users, a) {
      assert a !in Cleared(g, one) && a !in Cleared(g, f.next);
    }
  }

  lemma DeadBoth(g: Graph, stack: seq<Spawn>, dead: set<Spawn>, f: Forest, dead1: set<Spawn>, dead2: set<Spawn>)
    requires f.Node? && All(f.kids) !! All(f.next) && f.s !in All(f.next) && (|stack| != 0 ==> stack[0] !in All(f))
    requires DeadAfter(g, stack, dead, Node(f.s, f.kids, Nil), dead1) && DeadAfter(g, stack, dead1, f.next, dead2)
    ensures DeadAfter(g, stack, dead, f, dead2)
  {
    var one := Node(f.s, f.kids, Nil);
    Parts(g, f.next);
    assert All(one) == {f.s} + All(f.kids);
    Parts(g, one);
    Split(g, f, one);
    hide All, Dead, Live;
    forall s | s in All(f) ensures s in dead2 <==> s in Dead(g, f) {
      if s in All(one) {
        assert s !in All(f.next) && s !in Dead(g, f.next);
      } else {
        assert s in All(f.next) && s !in Dead(g, one);
      }
    }
    forall s | s !in All(f) ensures s in dead2 <==> s in Raised(stack, Live(g, f), dead) {
      assert s !in All(one) && s !in All(f.next);
    }
  }

  lemma NextKept(g: Graph, users: map<Alg, seq<Spawn>>, f: Forest, at: Where, users1: map<Alg, seq<Spawn>>)
    requires f.Node? && UsersAfter(g, users, Node(f.s, f.kids, Nil), at, users1) && (at.Users? ==> at.a !in Insts(g, f.next))
    ensures var c := Cleared(g, Node(f.s, f.kids, Nil));
            forall b :: b in Insts(g, f.next) ==> UsersOf(users1, b) == UsersOf(users - c, b)
  {
    hide Insts;
    var c := Cleared(g, Node(f.s, f.kids, Nil));
    forall b | b in Insts(g, f.next) ensures UsersOf(users1, b) == UsersOf(users - c, b) {
      assert Users(b) != at;
    }
  }

  lemma BeforeNext(g: Graph, w: Walk, f: Forest, a: Alg, at: Where, rest: seq<Spawn>, w1: Walk)
    requires f.Node? && Before(g, w, f, a, at, rest)
    requires After(g, w, Node(f.s, f.kids, Nil), at, Roots(f.next) + rest, w1)
    ensures Before(g, w1, f.next, a, at, rest)
  {
    NextKept(g, w.users, f, at, w1.users);
    FitsKept(g, w.users - Cleared(g, Node(f.s, f.kids, Nil)), w1.users, a, f.next);
  }

  /** The walk deals with every forest at the front of a list, in some number of steps. */
  lemma {:induction false} Visit(g: Graph, w: Walk, f: Forest, a: Alg, at: Where, rest: seq<Spawn>) returns (k: nat)
    requires Before(g, w, f, a, at, rest)
    ensures After(g, w, f, at, rest, Steps(g, w, k))
    decreases f, 1
  {
    hide Before, After, Step, Steps;
    if f.Nil? {
      k := 0;
      VisitNone(g, w, a, at, rest);
    } else {
      var j := VisitFirst(g, w, f, a, at, rest);
      var w1 := Steps(g, w, j);
      BeforeNext(g, w, f, a, at, rest, w1);
      var i := Visit(g, w1, f.next, a, at, rest);
      k := j + i;
      StepsPlus(g, w, j, i);
      AfterBoth(g, w, f, a, at, rest, w1, Steps(g, w, k));
    }
  }

  lemma VisitNone(g: Graph, w: Walk, a: Alg, at: Where, rest: seq<Spawn>)
    requires Before(g, w, Nil, a, at, rest)
    ensures After(g, w, Nil, at, rest, Steps(g, w, 0))
  {
    assert [] + w.secondary == w.secondary && [] + rest == rest;
  }

  lemma OneStep(g: Graph, w: Walk)
    ensures Steps(g, w, 1) == Step(g, w)
  {
    hide Step;
    assert Steps(g, Step(g, w), 0) == Step(g, w);
  }

  lemma {:induction false} VisitFirst(g: Graph, w: Walk, f: Forest, a: Alg, at: Where, rest: seq<Spawn>) returns (k: nat)
    requires f.Node? && Before(g, w, f, a, at, rest)
    ensures After(g, w, Node(f.s, f.kids, Nil), at, Roots(f.next) + rest, Steps(g, w, k))
    decreases f, 0
  {
    hide Before, After, Step, Steps;
    var w1 := Step(g, w);
    OneStep(g, w);
    Enter(g, w, f, a, at, rest);
    if g.Expands(f.s) {
      var j := Visit(g, w1, f.kids, g.Inst(f.s), Users(g.Inst(f.s)), []);
      var w2 := Steps(g, w1, j);
      TurnUp(g, w1, f.kids, Users(g.Inst(f.s)), w2);
      var w3 := Step(g, w2);
      Leave(g, w, f, a, at, rest, w3);
      OneStep(g, w2);
      OneStep(g, w3);
      StepsPlus(g, w2, 1, 1);
      StepsPlus(g, w1, j, 2);
      StepsPlus(g, w, 1, j + 2);
      k := 1 + (j + 2);
    } else {
      Leave(g, w, f, a, at, rest, w1);
      OneStep(g, w1);
      StepsPlus(g, w, 1, 1);
      k := 1 + 1;
    }
  }

  /** The inner loop ends when the list is empty. */
  lemma TurnUp(g: Graph, w1: Walk, f: Forest, at: Where, w2: Walk)
    requires After(g, w1, f, at, [], w2) && w1.phase == Down(at)
    ensures Step(g, w2).phase == Up && Step(g, w2).(phase := w1.phase) == w2
  {
  }
}
