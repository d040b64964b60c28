/**
 The walk of crypto_remove_spawns: a depth-first search through the users of an algorithm that
 keeps its path by moving spawns between lists, as a machine that takes one move at a time.
 */
module SpawnWalk {
  import opened Options

  type Alg = nat
  type Spawn = nat

  /** The algorithm a spawn uses and the instance it belongs to. */
  datatype SpawnInfo = SpawnInfo(alg: Alg, inst: Alg, registered: bool)

  /** What a walk does not change; `ready` says that the users list of an instance is initialised. */
  datatype Graph = Graph(info: Spawn -> SpawnInfo, ready: Alg -> bool, alg: Alg, nalg: Option<Alg>) {
    function Inst(s: Spawn): Alg { info(s).inst }

    /** The instance of s is the new algorithm. */
    predicate IsNew(s: Spawn) { info(s).registered && nalg == Some(Inst(s)) }

    /** The walk goes on to the users of the instance of s. */
    predicate Expands(s: Spawn) { info(s).registered && nalg != Some(Inst(s)) && ready(Inst(s)) }
  }

  datatype Where = Top | Users(a: Alg)

  /** Down: the inner loop looks at a list.  Up: crypto_more_spawns is called.  Bug: BUG_ON(&inst->alg == alg). */
  datatype Phase = Down(at: Where) | Up | Halt | Bug

  /** The lists, first element first, and the spawns marked dead. */
  datatype Walk = Walk(users: map<Alg, seq<Spawn>>, top: seq<Spawn>, stack: seq<Spawn>, secondary: seq<Spawn>,
                       dead: set<Spawn>, phase: Phase)

  function UsersOf(users: map<Alg, seq<Spawn>>, a: Alg): seq<Spawn> {
    if a in users then users[a] else []
  }

  function List(w: Walk, at: Where): seq<Spawn> {
    match at
    case Top => w.top
    case Users(a) => UsersOf(w.users, a)
  }

  function SetList(w: Walk, at: Where, l: seq<Spawn>): (w': Walk)
    ensures List(w', at) == l
  {
    match at
    case Top => w.(top := l)
    case Users(a) => w.(users := w.users[a := l])
  }

  /** The turn of the inner loop for the first spawn of the list. */
  function Push(g: Graph, w: Walk, at: Where): Walk
    requires |List(w, at)| != 0
  {
    var l := List(w, at);
    var s := l[0];
    var w1 := SetList(w, at, l[1..]);
    w1.(stack := [s] + w.stack,
        dead := if g.IsNew(s) then w.dead - {s} else w.dead + {s},
        phase := if !g.info(s).registered then Up
                 else if g.Inst(s) == g.alg then Bug
                 else if g.Expands(s) then Down(Users(g.Inst(s))) else Up)
  }

  /** crypto_more_spawns */
  function Pop(g: Graph, w: Walk): Walk {
    if |w.stack| == 0 then w.(phase := Halt)
    else
      var s, rest := w.stack[0], w.stack[1..];
      var w1 := w.(stack := rest, secondary := [s] + w.secondary);
      if |rest| == 0 then w1.(phase := Down(Top))
      else w1.(dead := if s !in w.dead then w.dead - {rest[0]} else w.dead, phase := Down(Users(g.Inst(rest[0]))))
  }

  function Step(g: Graph, w: Walk): Walk {
    match w.phase
    case Down(at) => if |List(w, at)| == 0 then w.(phase := Up) else Push(g, w, at)
    case Up => Pop(g, w)
    case _ => w
  }

  function Steps(g: Graph, w: Walk, k: nat): Walk
    decreases k
  {
    if k == 0 then w else Steps(g, Step(g, w), k - 1)
  }

  lemma {:induction false} StepsPlus(g: Graph, w: Walk, a: nat, b: nat)
    ensures Steps(g, w, a + b) == Steps(g, Steps(g, w, a), b)
    decreases a
  {
    hide Step;
    if a != 0 {
      StepsPlus(g, Step(g, w), a - 1, b);
    }
  }

  predicate Stopped(w: Walk) { w.phase == Halt || w.phase == Bug }

  lemma {:induction false} StoppedStays(g: Graph, w: Walk, k: nat)
    requires Stopped(w)
    ensures Steps(g, w, k) == w
  {
    if k != 0 {
      StoppedStays(g, w, k - 1);
    }
  }

  /** A walk can stop in one way only. */
  lemma OneEnd(g: Graph, w: Walk, j: nat, k: nat)
    requires Stopped(Steps(g, w, j)) && Stopped(Steps(g, w, k))
    ensures Steps(g, w, j) == Steps(g, w, k)
  {
    hide Step, Steps;
    if j <= k {
      StepsPlus(g, w, j, k - j);
      StoppedStays(g, Steps(g, w, j), k - j);
    } else {
      StepsPlus(g, w, k, j - k);
      StoppedStays(g, Steps(g, w, k), j - k);
    }
  }

  // ----- termination, on any graph -----

  predicate NoDup(l: seq<Spawn>) { forall i, j :: 0 <= i < j < |l| ==> l[i] != l[j] }

  ghost predicate Disjoint(x: seq<Spawn>, y: seq<Spawn>) { forall s :: s in x ==> s !in y }

  /** Every spawn is in `all` and on one list only. */
  ghost predicate Parted(w: Walk, all: set<Spawn>) {
    && NoDup(w.top) && NoDup(w.stack) && (forall a :: a in w.users ==> NoDup(w.users[a]))
    && (forall s :: s in w.top || s in w.stack || s in w.secondary ==> s in all)
    && (forall a, s :: a in w.users && s in w.users[a] ==> s in all && s !in w.top && s !in w.stack && s !in w.secondary)
    && (forall a, b :: a in w.users && b in w.users && a != b ==> Disjoint(w.users[a], w.users[b]))
    && (forall s :: s in w.top ==> s !in w.stack && s !in w.secondary)
    && Disjoint(w.stack, w.secondary)
  }

  /** Spawns not yet on the stack or on secondary_spawns. */
  function Free(w: Walk, all: set<Spawn>): set<Spawn> {
    set s | s in all && s !in w.stack && s !in w.secondary
  }

  function Measure(w: Walk, all: set<Spawn>): nat {
    2 * (2 * |Free(w, all)| + |w.stack|) + if w.phase.Down? then 1 else 0
  }

  lemma FirstApart(l: seq<Spawn>)
    requires |l| != 0 && NoDup(l)
    ensures NoDup(l[1..]) && l[0] !in l[1..] && l == [l[0]] + l[1..]
  {
    forall i, j | 0 <= i < j < |l[1..]| ensures l[1..][i] != l[1..][j] {
      assert l[1..][i] == l[i + 1] && l[1..][j] == l[j + 1];
    }
  }

  lemma NoDupCons(s: Spawn, l: seq<Spawn>)
    requires NoDup(l) && s !in l
    ensures NoDup([s] + l)
  {
  }

  /** The first spawn of a list goes to the stack. */
  lemma PushedParted(w: Walk, w': Walk, at: Where, s: Spawn, l: seq<Spawn>, all: set<Spawn>)
    requires Parted(w, all) && List(w, at) == [s] + l && s !in l && NoDup(l)
    requires w'.stack == [s] + w.stack && w'.secondary == w.secondary
    requires w'.top == (if at.Top? then l else w.top) && w'.users == if at.Top? then w.users else w.users[at.a := l]
    ensures Parted(w', all) && Free(w', all) == Free(w, all) - {s} && s in Free(w, all)
  {
    hide NoDup;
    assert s in List(w, at);
    NoDupCons(s, w.stack);
    if at.Top? {
      assert forall x :: x in w'.top ==> x in w.top && x != s;
    } else {
      assert forall x :: x in l ==> x in w.users[at.a] && x != s;
      forall a, x | a in w'.users && x in w'.users[a] ensures x in all && x !in w'.top && x !in w'.stack && x !in w'.secondary {
        assert x in w.users[a];
      }
      forall a, b | a in w'.users && b in w'.users && a != b ensures Disjoint(w'.users[a], w'.users[b]) {
        assert Disjoint(w.users[a], w.users[b]);
      }
    }
  }

  lemma PushParted(g: Graph, w: Walk, at: Where, all: set<Spawn>)
    requires Parted(w, all) && |List(w, at)| != 0
    ensures Parted(Push(g, w, at), all)
    ensures Free(Push(g, w, at), all) == Free(w, all) - {List(w, at)[0]} && List(w, at)[0] in Free(w, all)
  {
    var l := List(w, at);
    ListNoDup(w, at, all);
    FirstApart(l);
    var w' := Push(g, w, at);
    hide Parted, Free;
    PushedParted(w, w', at, l[0], l[1..], all);
  }

  lemma ListNoDup(w: Walk, at: Where, all: set<Spawn>)
    requires Parted(w, all)
    ensures NoDup(List(w, at))
  {
  }

  lemma PopParted(g: Graph, w: Walk, all: set<Spawn>)
    requires Parted(w, all) && |w.stack| != 0
    ensures Parted(Pop(g, w), all) && Free(Pop(g, w), all) == Free(w, all)
  {
    hide NoDup;
    var s, rest := w.stack[0], w.stack[1..];
    FirstApart(w.stack);
    assert forall x :: x in w.stack <==> x == s || x in rest;
  }

  /** Every step brings the end nearer. */
  lemma StepDecreases(g: Graph, w: Walk, all: set<Spawn>)
    requires Parted(w, all) && !Stopped(w)
    ensures Parted(Step(g, w), all)
    ensures Stopped(Step(g, w)) || Measure(Step(g, w), all) < Measure(w, all)
  {
    hide Parted, Push, Pop;
    match w.phase
    case Down(at) =>
      if |List(w, at)| == 0 {
        SameLists(w, w.(phase := Up), all);
      } else {
        PushParted(g, w, at, all);
        PushStack(g, w, at);
      }
    case Up =>
      PopStack(g, w);
      if |w.stack| != 0 {
        PopParted(g, w, all);
      } else {
        SameLists(w, w.(phase := Halt), all);
      }
  }

  lemma PushStack(g: Graph, w: Walk, at: Where)
    requires |List(w, at)| != 0
    ensures |Push(g, w, at).stack| == |w.stack| + 1
  {
  }

  lemma PopStack(g: Graph, w: Walk)
    ensures |w.stack| == 0 ==> Pop(g, w) == w.(phase := Halt)
    ensures |w.stack| != 0 ==> |Pop(g, w).stack| == |w.stack| - 1
  {
  }

  lemma SameLists(w: Walk, w': Walk, all: set<Spawn>)
    requires Parted(w, all) && w' == w.(phase := w'.phase)
    ensures Parted(w', all) && Free(w', all) == Free(w, all)
  {
  }

  /** From any state of the lists, whatever the graph, the walk stops. */
  lemma {:induction false} Terminates(g: Graph, w: Walk, all: set<Spawn>) returns (k: nat)
    requires Parted(w, all)
    ensures Stopped(Steps(g, w, k)) && Parted(Steps(g, w, k), all)
    decreases Measure(w, all)
  {
    hide Parted, Step;
    k := 0;
    if !Stopped(w) {
      StepDecreases(g, w, all);
      if Stopped(Step(g, w)) {
        k := 1;
      } else {
        var j := Terminates(g, Step(g, w), all);
        k := j + 1;
      }
    }
  }
}
