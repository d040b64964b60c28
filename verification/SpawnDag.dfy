/**
 Users graphs without a cycle: what the walk visits and whom it leaves alive, said by paths in the
 graph alone, whatever the order of the lists.
 */
module SpawnDag {
  import opened Options
  import opened SpawnWalk
  import opened SpawnForest

  /** A way down from a spawn of `top`: the walk can go on from each spawn but the last, to a user of its instance. */
  ghost predicate Path(g: Graph, users: map<Alg, seq<Spawn>>, top: seq<Spawn>, p: seq<Spawn>) {
    && |p| != 0 && p[0] in top
    && forall j: nat | j + 1 < |p| :: g.Expands(p[j]) && p[j + 1] in UsersOf(users, g.Inst(p[j]))
  }

  /** s depends on `top`, directly or not. */
  ghost predicate Reached(g: Graph, users: map<Alg, seq<Spawn>>, top: seq<Spawn>, s: Spawn) {
    exists p :: Path(g, users, top, p) && p[|p| - 1] == s
  }

  /** The new algorithm is strictly below the instance of s. */
  ghost predicate Leads(g: Graph, users: map<Alg, seq<Spawn>>, s: Spawn) {
    exists p :: Path(g, users, [s], p) && 1 < |p| && g.IsNew(p[|p| - 1])
  }

  /** The new algorithm needs s: s is its own spawn, or it is below the instance of s. */
  ghost predicate Needed(g: Graph, users: map<Alg, seq<Spawn>>, s: Spawn) { g.IsNew(s) || Leads(g, users, s) }

  /** Some instance that the new algorithm is built on depends on `top` through two of its spawns. */
  ghost predicate Shared(g: Graph, users: map<Alg, seq<Spawn>>, top: seq<Spawn>) {
    exists s, s' :: Reached(g, users, top, s) && Reached(g, users, top, s') && SameInst(g, s, s') && Leads(g, users, s)
  }

  predicate SameInst(g: Graph, s: Spawn, s': Spawn) {
    s != s' && g.info(s).registered && g.info(s').registered && g.Inst(s) == g.Inst(s')
  }

  /** A spawn is once on the list of the algorithm it uses. */
  ghost predicate Homed(g: Graph, users: map<Alg, seq<Spawn>>) {
    forall a | a in users :: NoDup(users[a]) && forall s :: s in users[a] ==> g.info(s).alg == a
  }

  /** No cycle from an algorithm of rank r or less on: ranks fall from every algorithm to its users. */
  ghost predicate Falling(g: Graph, users: map<Alg, seq<Spawn>>, rank: Alg -> nat, r: nat) {
    forall a, s | a in users && s in users[a] && rank(a) <= r :: rank(g.Inst(s)) < rank(a)
  }

  // ----- the depth-first forest of such a graph -----

  /** A forest for the list l of users of a. */
  ghost predicate Grown(g: Graph, users: map<Alg, seq<Spawn>>, rank: Alg -> nat, a: Alg, l: seq<Spawn>, f: Forest) {
    && Roots(f) == l && Fits(g, users, a, f) && Branches(g, f)
    && (forall i :: i in Insts(g, f) ==> rank(i) < rank(a))
    && (forall s :: s in All(f) ==> s in l || (g.info(s).alg in Cleared(g, f) && s in UsersOf(users, g.info(s).alg)))
  }

  lemma {:induction false} Grow(g: Graph, users: map<Alg, seq<Spawn>>, rank: Alg -> nat, a: Alg, l: seq<Spawn>) returns (f: Forest)
    requires Homed(g, users) && Falling(g, users, rank, rank(a)) && NoDup(l)
    requires forall s :: s in l ==> g.info(s).alg == a && rank(g.Inst(s)) < rank(a)
    ensures Grown(g, users, rank, a, l, f)
    decreases rank(a), |l|
  {
    hide Grown, Homed, Falling;
    if |l| == 0 {
      f := Nil;
      GrownNil(g, users, rank, a);
    } else {
      var s := l[0];
      var kids := Nil;
      if g.Expands(s) {
        UsersFall(g, users, rank, a, s);
        kids := Grow(g, users - {g.Inst(s)}, rank, g.Inst(s), UsersOf(users, g.Inst(s)));
      }
      var c := Cleared(g, Node(s, kids, Nil));
      FewerFall(g, users, rank, rank(a), c);
      FirstApart(l);
      var next := Grow(g, users - c, rank, a, l[1..]);
      f := Node(s, kids, next);
      GrownNode(g, users, rank, a, l, kids, next);
    }
  }

  lemma GrownNil(g: Graph, users: map<Alg, seq<Spawn>>, rank: Alg -> nat, a: Alg)
    ensures Grown(g, users, rank, a, [], Nil)
  {
  }

  lemma FewerFall(g: Graph, users: map<Alg, seq<Spawn>>, rank: Alg -> nat, r: nat, c: set<Alg>)
    requires Homed(g, users) && Falling(g, users, rank, r)
    ensures Homed(g, users - c) && Falling(g, users - c, rank, r)
  {
    forall a | a in users - c ensures a in users && (users - c)[a] == users[a] {
    }
  }

  lemma UsersFall(g: Graph, users: map<Alg, seq<Spawn>>, rank: Alg -> nat, a: Alg, s: Spawn)
    requires Homed(g, users) && Falling(g, users, rank, rank(a)) && rank(g.Inst(s)) < rank(a)
    ensures var i := g.Inst(s);
            && Homed(g, users - {i}) && Falling(g, users - {i}, rank, rank(i)) && NoDup(UsersOf(users, i))
            && forall u :: u in UsersOf(users, i) ==> g.info(u).alg == i && rank(g.Inst(u)) < rank(i)
  {
    FewerFall(g, users, rank, rank(a), {g.Inst(s)});
  }

  /** What the first spawn takes along are users of cleared algorithms. */
  lemma KidsHomes(g: Graph, users: map<Alg, seq<Spawn>>, rank: Alg -> nat, s: Spawn, kids: Forest, k: Spawn)
    requires if g.Expands(s) then Grown(g, users - {g.Inst(s)}, rank, g.Inst(s), UsersOf(users, g.Inst(s)), kids) else kids == Nil
    requires g.Expands(s) && k in UsersOf(users, g.Inst(s)) ==> g.info(k).alg == g.Inst(s)
    requires k in All(kids)
    ensures g.info(k).alg in Cleared(g, Node(s, kids, Nil)) && k in UsersOf(users, g.info(k).alg)
  {
    hide Fits, Branches;
    Without(users, {g.Inst(s)}, g.info(k).alg);
  }

  /** What comes after it are not. */
  lemma NextHomes(g: Graph, users: map<Alg, seq<Spawn>>, rank: Alg -> nat, a: Alg, l: seq<Spawn>, c: set<Alg>, next: Forest, k: Spawn)
    requires Grown(g, users - c, rank, a, l, next) && a !in c && (k in l ==> g.info(k).alg == a) && k in All(next)
    ensures g.info(k).alg !in c && (k in l || (g.info(k).alg in Cleared(g, next) && k in UsersOf(users, g.info(k).alg)))
  {
    hide Fits, Branches;
    Without(users, c, g.info(k).alg);
  }

  lemma RanksFall(g: Graph, users: map<Alg, seq<Spawn>>, rank: Alg -> nat, a: Alg, s: Spawn, kids: Forest)
    requires if g.Expands(s) then Grown(g, users - {g.Inst(s)}, rank, g.Inst(s), UsersOf(users, g.Inst(s)), kids) else kids == Nil
    requires rank(g.Inst(s)) < rank(a)
    ensures forall i :: i in Insts(g, Node(s, kids, Nil)) ==> rank(i) < rank(a)
    ensures a !in Cleared(g, Node(s, kids, Nil)) && g.Inst(s) !in Insts(g, kids)
  {
    hide Fits, Branches;
    Parts(g, Node(s, kids, Nil));
  }

  /** The parts of Grown that speak of the graph's lists. */
  lemma NodeHomes(g: Graph, users: map<Alg, seq<Spawn>>, rank: Alg -> nat, a: Alg, l: seq<Spawn>, kids: Forest, next: Forest)
    requires |l| != 0 && l[0] !in l[1..] && forall s :: s in l ==> g.info(s).alg == a && rank(g.Inst(s)) < rank(a)
    requires if g.Expands(l[0]) then Grown(g, users - {g.Inst(l[0])}, rank, g.Inst(l[0]), UsersOf(users, g.Inst(l[0])), kids) else kids == Nil
    requires forall u :: g.Expands(l[0]) && u in UsersOf(users, g.Inst(l[0])) ==> g.info(u).alg == g.Inst(l[0])
    requires Grown(g, users - Cleared(g, Node(l[0], kids, Nil)), rank, a, l[1..], next)
    ensures l[0] !in All(kids) + All(next) && All(kids) !! All(next)
    ensures var f := Node(l[0], kids, next);
            forall s :: s in All(f) ==> s in l || (g.info(s).alg in Cleared(g, f) && s in UsersOf(users, g.info(s).alg))
  {
    var c := Cleared(g, Node(l[0], kids, Nil));
    RanksFall(g, users, rank, a, l[0], kids);
    forall s | s in All(kids) ensures g.info(s).alg in c && s in UsersOf(users, g.info(s).alg) {
      KidsHomes(g, users, rank, l[0], kids, s);
    }
    assert a !in Cleared(g, next) by { Parts(g, next); }
    hide Grown;
    forall s | s in All(next)
      ensures g.info(s).alg !in c && (s in l[1..] || (g.info(s).alg in Cleared(g, next) && s in UsersOf(users, g.info(s).alg)))
    {
      NextHomes(g, users, rank, a, l[1..], c, next, s);
    }
  }

  lemma GrownNode(g: Graph, users: map<Alg, seq<Spawn>>, rank: Alg -> nat, a: Alg, l: seq<Spawn>, kids: Forest, next: Forest)
    requires |l| != 0 && l[0] !in l[1..] && forall s :: s in l ==> g.info(s).alg == a && rank(g.Inst(s)) < rank(a)
    requires if g.Expands(l[0]) then Grown(g, users - {g.Inst(l[0])}, rank, g.Inst(l[0]), UsersOf(users, g.Inst(l[0])), kids) else kids == Nil
    requires forall u :: g.Expands(l[0]) && u in UsersOf(users, g.Inst(l[0])) ==> g.info(u).alg == g.Inst(l[0])
    requires Grown(g, users - Cleared(g, Node(l[0], kids, Nil)), rank, a, l[1..], next)
    ensures Grown(g, users, rank, a, l, Node(l[0], kids, next))
  {
    RanksFall(g, users, rank, a, l[0], kids);
    NodeHomes(g, users, rank, a, l, kids, next);
    assert l == [l[0]] + l[1..];
  }

  // ----- what is in the forest -----

  lemma {:induction false} ClearedBy(g: Graph, f: Forest, i: Alg) returns (s: Spawn)
    requires i in Cleared(g, f)
    ensures s in All(f) && g.Expands(s) && g.Inst(s) == i
  {
    if i in Cleared(g, f.kids) {
      s := ClearedBy(g, f.kids, i);
    } else if i in Cleared(g, f.next) {
      s := ClearedBy(g, f.next, i);
    } else {
      s := f.s;
    }
  }

  lemma {:induction false} ClearedAll(g: Graph, f: Forest, s: Spawn)
    requires s in All(f) && g.Expands(s)
    ensures g.Inst(s) in Cleared(g, f) && g.Inst(s) in Insts(g, f)
  {
    Parts(g, f);
    if s in All(f.kids) {
      ClearedAll(g, f.kids, s);
    } else if s in All(f.next) {
      ClearedAll(g, f.next, s);
    }
  }

  /** The users of an instance of which the forest has a spawn are all in the forest. */
  lemma {:induction false} UsersIn(g: Graph, users: map<Alg, seq<Spawn>>, a: Alg, f: Forest, s: Spawn, u: Spawn)
    requires Fits(g, users, a, f) && Branches(g, f)
    requires s in All(f) && g.Expands(s) && u in UsersOf(users, g.Inst(s))
    ensures u in All(f)
    decreases f, 1
  {
    var i, c := {g.Inst(f.s)}, Cleared(g, Node(f.s, f.kids, Nil));
    Without(users, c, g.Inst(s));
    if g.Inst(s) in c {
      UsersInFirst(g, users, a, f, s, u);
    } else {
      if s in All(f.kids) {
        ClearedAll(g, f.kids, s);
        assert false;
      } else {
        UsersIn(g, users - c, a, f.next, s, u);
      }
    }
  }

  lemma {:induction false} UsersInFirst(g: Graph, users: map<Alg, seq<Spawn>>, a: Alg, f: Forest, s: Spawn, u: Spawn)
    requires Fits(g, users, a, f) && Branches(g, f) && f.Node?
    requires g.Expands(s) && u in UsersOf(users, g.Inst(s)) && g.Inst(s) in Cleared(g, Node(f.s, f.kids, Nil))
    ensures u in All(f)
    decreases f, 0
  {
    var i := {g.Inst(f.s)};
    if g.Inst(s) in Cleared(g, f.kids) {
      var t := ClearedBy(g, f.kids, g.Inst(s));
      Parts(g, f.kids);
      Without(users, i, g.Inst(s));
      UsersIn(g, users - i, g.Inst(f.s), f.kids, t, u);
    } else {
      RootsIn(f.kids);
    }
  }

  /** users is users0 without some of its lists. */
  ghost predicate Fewer(users: map<Alg, seq<Spawn>>, users0: map<Alg, seq<Spawn>>) {
    forall a :: a in users ==> a in users0 && users[a] == users0[a]
  }

  lemma StillFewer(users: map<Alg, seq<Spawn>>, users0: map<Alg, seq<Spawn>>, c: set<Alg>)
    requires Fewer(users, users0)
    ensures Fewer(users - c, users0)
  {
    forall a | a in users - c ensures a in users && (users - c)[a] == users[a] {
    }
  }

  /** Whatever is in the forest depends on its roots. */
  lemma {:induction false} InIsReached(g: Graph, users: map<Alg, seq<Spawn>>, users0: map<Alg, seq<Spawn>>, a: Alg, f: Forest, top: seq<Spawn>, s: Spawn)
    requires Fits(g, users, a, f) && Fewer(users, users0) && s in All(f) && forall u :: u in Roots(f) ==> u in top
    ensures Reached(g, users0, top, s)
    decreases f
  {
    var i, c := {g.Inst(f.s)}, Cleared(g, Node(f.s, f.kids, Nil));
    StillFewer(users, users0, i);
    StillFewer(users, users0, c);
    if s in All(f.kids) {
      InIsReached(g, users - i, users0, g.Inst(f.s), f.kids, Roots(f.kids), s);
      RootsIn(f.kids);
      Longer(g, users0, top, f.s, Roots(f.kids), s);
    } else if s in All(f.next) {
      InIsReached(g, users - c, users0, a, f.next, top, s);
    } else {
      assert Path(g, users0, top, [s]) && [s][|[s]| - 1] == s;
    }
  }

  lemma Longer(g: Graph, users: map<Alg, seq<Spawn>>, top: seq<Spawn>, s: Spawn, kids: seq<Spawn>, t: Spawn)
    requires s in top && g.Expands(s) && (forall u :: u in kids ==> u in UsersOf(users, g.Inst(s))) && Reached(g, users, kids, t)
    ensures Reached(g, users, top, t)
  {
    var p :| Path(g, users, kids, p) && p[|p| - 1] == t;
    var q := [s] + p;
    forall j: nat | j + 1 < |q| ensures g.Expands(q[j]) && q[j + 1] in UsersOf(users, g.Inst(q[j])) {
      if j != 0 {
        assert q[j] == p[j - 1] && q[j + 1] == p[j - 1 + 1];
      }
    }
    assert Path(g, users, top, q) && q[|q| - 1] == t;
  }

  /** And whatever depends on its roots is in the forest. */
  lemma {:induction false} PathIsIn(g: Graph, users: map<Alg, seq<Spawn>>, a: Alg, f: Forest, p: seq<Spawn>)
    requires Fits(g, users, a, f) && Branches(g, f) && Path(g, users, Roots(f), p)
    ensures p[|p| - 1] in All(f)
    decreases |p|
  {
    hide Fits, Branches;
    RootsIn(f);
    if 1 < |p| {
      var q := p[..|p| - 1];
      forall j: nat | j + 1 < |q| ensures g.Expands(q[j]) && q[j + 1] in UsersOf(users, g.Inst(q[j])) {
        assert q[j] == p[j] && q[j + 1] == p[j + 1];
      }
      PathIsIn(g, users, a, f, q);
      assert p[|p| - 2 + 1] in UsersOf(users, g.Inst(p[|p| - 2]));
      UsersIn(g, users, a, f, p[|p| - 2], p[|p| - 1]);
    }
  }

  /** The spawns of the forest are those that depend on its roots. */
  lemma InIffReached(g: Graph, users: map<Alg, seq<Spawn>>, a: Alg, f: Forest, s: Spawn)
    requires Fits(g, users, a, f) && Branches(g, f)
    ensures s in All(f) <==> Reached(g, users, Roots(f), s)
  {
    if s in All(f) {
      InIsReached(g, users, users, a, f, Roots(f), s);
    }
    if Reached(g, users, Roots(f), s) {
      var p :| Path(g, users, Roots(f), p) && p[|p| - 1] == s;
      PathIsIn(g, users, a, f, p);
    }
  }

  // ----- who is left alive -----

  lemma {:induction false} LiveSpawnLives(g: Graph, f: Forest, s: Spawn)
    requires s in All(f) && s !in Dead(g, f)
    ensures Live(g, f)
  {
    if s in All(f.kids) {
      LiveSpawnLives(g, f.kids, s);
    } else if s in All(f.next) {
      LiveSpawnLives(g, f.next, s);
    }
  }

  lemma {:induction false} NewLives(g: Graph, f: Forest, s: Spawn)
    requires s in Dead(g, f)
    ensures s in All(f) && !g.IsNew(s)
  {
    if s in Dead(g, f.kids) {
      NewLives(g, f.kids, s);
    } else if s in Dead(g, f.next) {
      NewLives(g, f.next, s);
    }
  }

  lemma LeadsThrough(g: Graph, users: map<Alg, seq<Spawn>>, s: Spawn, u: Spawn)
    requires g.Expands(s) && u in UsersOf(users, g.Inst(s)) && Needed(g, users, u)
    ensures Leads(g, users, s)
  {
    var p := [u];
    if !g.IsNew(u) {
      p :| Path(g, users, [u], p) && 1 < |p| && g.IsNew(p[|p| - 1]);
    }
    var q := [s] + p;
    forall j: nat | j + 1 < |q| ensures g.Expands(q[j]) && q[j + 1] in UsersOf(users, g.Inst(q[j])) {
      if j != 0 {
        assert q[j] == p[j - 1] && q[j + 1] == p[j - 1 + 1];
      }
    }
    assert Path(g, users, [s], q) && 1 < |q| && g.IsNew(q[|q| - 1]);
  }

  /** A live forest has a root that is needed. */
  lemma {:induction false} LiveRoot(g: Graph, users: map<Alg, seq<Spawn>>, users0: map<Alg, seq<Spawn>>, a: Alg, f: Forest) returns (u: Spawn)
    requires Fits(g, users, a, f) && Fewer(users, users0) && Live(g, f)
    ensures u in Roots(f) && Needed(g, users0, u)
    decreases f
  {
    hide Needed, Leads;
    var i, c := {g.Inst(f.s)}, Cleared(g, Node(f.s, f.kids, Nil));
    StillFewer(users, users0, i);
    StillFewer(users, users0, c);
    u := f.s;
    if Live(g, f.kids) {
      var k := LiveRoot(g, users - i, users0, g.Inst(f.s), f.kids);
      LeadsThrough(g, users0, f.s, k);
      LeadIsNeeded(g, users0, f.s);
    } else if Live(g, f.next) {
      u := LiveRoot(g, users - c, users0, a, f.next);
    } else {
      NewIsNeeded(g, users0, f.s);
    }
  }

  lemma LeadIsNeeded(g: Graph, users: map<Alg, seq<Spawn>>, s: Spawn)
    requires Leads(g, users, s)
    ensures Needed(g, users, s)
  {
  }

  lemma NewIsNeeded(g: Graph, users: map<Alg, seq<Spawn>>, s: Spawn)
    requires g.IsNew(s)
    ensures Needed(g, users, s)
  {
  }

  /** Only spawns that the new algorithm needs stay alive. */
  lemma {:induction false} LiveIsNeeded(g: Graph, users: map<Alg, seq<Spawn>>, users0: map<Alg, seq<Spawn>>, a: Alg, f: Forest, s: Spawn)
    requires Fits(g, users, a, f) && Fewer(users, users0) && s in All(f) && s !in Dead(g, f)
    ensures Needed(g, users0, s)
    decreases f
  {
    hide Needed, Leads;
    var i, c := {g.Inst(f.s)}, Cleared(g, Node(f.s, f.kids, Nil));
    StillFewer(users, users0, i);
    StillFewer(users, users0, c);
    if s in All(f.kids) {
      LiveIsNeeded(g, users - i, users0, g.Inst(f.s), f.kids, s);
    } else if s in All(f.next) {
      LiveIsNeeded(g, users - c, users0, a, f.next, s);
    } else if g.IsNew(s) {
      NewIsNeeded(g, users0, s);
    } else {
      var k := LiveRoot(g, users - i, users0, g.Inst(s), f.kids);
      LeadsThrough(g, users0, s, k);
      LeadIsNeeded(g, users0, s);
    }
  }

  /** A spawn that finds the users of its instance gone stays dead. */
  lemma {:induction false} GoneDies(g: Graph, users: map<Alg, seq<Spawn>>, a: Alg, f: Forest, s: Spawn)
    requires Fits(g, users, a, f) && s in All(f) && g.Expands(s) && UsersOf(users, g.Inst(s)) == []
    ensures s in Dead(g, f)
    decreases f
  {
    var i, c := {g.Inst(f.s)}, Cleared(g, Node(f.s, f.kids, Nil));
    Without(users, i, g.Inst(s));
    Without(users, c, g.Inst(s));
    if s in All(f.kids) {
      GoneDies(g, users - i, g.Inst(f.s), f.kids, s);
    } else if s in All(f.next) {
      GoneDies(g, users - c, a, f.next, s);
    } else {
      RootsIn(f.kids);
    }
  }

  /** So of two spawns of one instance one dies, whatever is below. */
  lemma {:induction false} OneOfTwoDies(g: Graph, users: map<Alg, seq<Spawn>>, a: Alg, f: Forest, s: Spawn, t: Spawn)
    requires Fits(g, users, a, f) && Branches(g, f)
    requires s in All(f) && t in All(f) && SameInst(g, s, t) && g.Expands(s)
    ensures s in Dead(g, f) || t in Dead(g, f)
    decreases f
  {
    var one := Node(f.s, f.kids, Nil);
    var i, c := {g.Inst(f.s)}, Cleared(g, one);
    assert All(one) == {f.s} + All(f.kids);
    if s in All(f.kids) && t in All(f.kids) {
      OneOfTwoDies(g, users - i, g.Inst(f.s), f.kids, s, t);
    } else if s in All(one) && t in All(one) {
      ClearedAll(g, f.kids, if s in All(f.kids) then s else t);
      assert false;
    } else if s in All(f.next) && t in All(f.next) {
      OneOfTwoDies(g, users - c, a, f.next, s, t);
    } else {
      var first, second := if s in All(one) then s else t, if s in All(one) then t else s;
      ClearedAll(g, one, first);
      Without(users, c, g.Inst(second));
      GoneDies(g, users - c, a, f.next, second);
    }
  }

  /** s is the only spawn of its instance in the forest. */
  ghost predicate Alone(g: Graph, f: Forest, s: Spawn) {
    forall t :: t in All(f) && g.Expands(t) && g.Inst(t) == g.Inst(s) ==> t == s
  }

  /** A live user makes the only spawn of its instance live. */
  lemma {:induction false} LifeGoesUp(g: Graph, users: map<Alg, seq<Spawn>>, a: Alg, f: Forest, s: Spawn, u: Spawn)
    requires Fits(g, users, a, f) && Branches(g, f) && s in All(f) && g.Expands(s) && Alone(g, f, s)
    requires u in UsersOf(users, g.Inst(s)) && u !in Dead(g, f)
    ensures s !in Dead(g, f)
    decreases f
  {
    var one := Node(f.s, f.kids, Nil);
    var i, c := {g.Inst(f.s)}, Cleared(g, one);
    Parts(g, f.kids);
    Parts(g, f.next);
    if s in All(f.kids) {
      ClearedAll(g, f.kids, s);
      Without(users, i, g.Inst(s));
      LifeGoesUp(g, users - i, g.Inst(f.s), f.kids, s, u);
    } else if s in All(f.next) {
      if g.Inst(s) in c {
        var t := ClearedBy(g, one, g.Inst(s));
        assert false;
      }
      Without(users, c, g.Inst(s));
      LifeGoesUp(g, users - c, a, f.next, s, u);
    } else {
      RootsIn(f.kids);
      LiveSpawnLives(g, f.kids, u);
    }
  }

  /** Without sharing, a spawn that leads to the new algorithm stays alive. */
  lemma {:induction false} LeadingLives(g: Graph, users: map<Alg, seq<Spawn>>, a: Alg, f: Forest, p: seq<Spawn>)
    requires Fits(g, users, a, f) && Branches(g, f) && !Shared(g, users, Roots(f))
    requires |p| != 0 && p[0] in All(f) && Path(g, users, [p[0]], p) && g.IsNew(p[|p| - 1])
    ensures p[0] !in Dead(g, f)
    decreases |p|
  {
    hide Fits, Branches, Dead, Shared;
    if |p| == 1 {
      if p[0] in Dead(g, f) {
        NewLives(g, f, p[0]);
      }
    } else {
      var q := p[1..];
      assert g.Expands(p[0]) && p[0 + 1] in UsersOf(users, g.Inst(p[0]));
      UsersIn(g, users, a, f, p[0], p[1]);
      forall j: nat | j + 1 < |q| ensures g.Expands(q[j]) && q[j + 1] in UsersOf(users, g.Inst(q[j])) {
        assert q[j] == p[j + 1] && q[j + 1] == p[j + 1 + 1];
      }
      LeadingLives(g, users, a, f, q);
      assert Leads(g, users, p[0]);
      AloneUnlessShared(g, users, a, f, p[0]);
      LifeGoesUp(g, users, a, f, p[0], p[1]);
    }
  }

  lemma AloneUnlessShared(g: Graph, users: map<Alg, seq<Spawn>>, a: Alg, f: Forest, s: Spawn)
    requires Fits(g, users, a, f) && Branches(g, f) && !Shared(g, users, Roots(f))
    requires s in All(f) && g.Expands(s) && Leads(g, users, s)
    ensures Alone(g, f, s)
  {
    hide Fits, Branches, Reached, Leads;
    forall t | t in All(f) && g.Expands(t) && g.Inst(t) == g.Inst(s) ensures t == s {
      InIffReached(g, users, a, f, s);
      InIffReached(g, users, a, f, t);
      assert t != s ==> SameInst(g, s, t);
    }
  }

  // ----- the order of secondary_spawns -----

  /** The users of an instance come after all its spawns. */
  ghost predicate InOrder(g: Graph, l: seq<Spawn>) {
    forall i, j :: 0 <= j < i < |l| && g.Expands(l[i]) ==> g.info(l[j]).alg != g.Inst(l[i])
  }

  lemma {:induction false} AlgNotGone(g: Graph, users: map<Alg, seq<Spawn>>, a: Alg, f: Forest, s: Spawn)
    requires Fits(g, users, a, f) && s in All(f)
    ensures g.info(s).alg == a || UsersOf(users, g.info(s).alg) != []
    decreases f
  {
    var i, c := {g.Inst(f.s)}, Cleared(g, Node(f.s, f.kids, Nil));
    Without(users, i, g.info(s).alg);
    Without(users, c, g.info(s).alg);
    if s in All(f.kids) {
      AlgNotGone(g, users - i, g.Inst(f.s), f.kids, s);
      RootsIn(f.kids);
    } else if s in All(f.next) {
      AlgNotGone(g, users - c, a, f.next, s);
    }
  }

  lemma OrderConcat(g: Graph, x: seq<Spawn>, y: seq<Spawn>)
    requires InOrder(g, x) && InOrder(g, y)
    requires forall s, t :: s in x && t in y && g.Expands(t) ==> g.info(s).alg != g.Inst(t)
    ensures InOrder(g, x + y)
  {
    var l := x + y;
    forall i, j | 0 <= j < i < |l| && g.Expands(l[i]) ensures g.info(l[j]).alg != g.Inst(l[i]) {
      if i < |x| {
        assert l[i] == x[i] && l[j] == x[j];
      } else if j < |x| {
        assert l[i] == y[i - |x|] && l[j] == x[j];
      } else {
        assert l[i] == y[i - |x|] && l[j] == y[j - |x|];
      }
    }
  }

  /** Nothing that is visited after the first spawn and its dependants uses an instance that they cleared. */
  lemma NextUsesOther(g: Graph, users: map<Alg, seq<Spawn>>, a: Alg, one: Forest, next: Forest, s: Spawn, t: Spawn)
    requires Fits(g, users - Cleared(g, one), a, next) && a !in Insts(g, one)
    requires s in All(next) && t in All(one) && g.Expands(t)
    ensures g.info(s).alg != g.Inst(t)
  {
    hide Fits;
    ClearedAll(g, one, t);
    AlgNotGone(g, users - Cleared(g, one), a, next, s);
    Without(users, Cleared(g, one), g.Inst(t));
  }

  lemma {:induction false} FinishedInOrder(g: Graph, users: map<Alg, seq<Spawn>>, a: Alg, f: Forest)
    requires Fits(g, users, a, f) && Branches(g, f) && a !in Insts(g, f)
    ensures InOrder(g, Finished(f))
    decreases f
  {
    if f.Node? {
      hide InOrder;
      var one := Node(f.s, f.kids, Nil);
      FinishedInOrder(g, users - {g.Inst(f.s)}, g.Inst(f.s), f.kids);
      FinishedInOrder(g, users - Cleared(g, one), a, f.next);
      Parts(g, f.kids);
      Parts(g, f.next);
      forall s, t | s in [f.s] && t in Finished(f.kids) && g.Expands(t) ensures g.info(s).alg != g.Inst(t) {
        ClearedAll(g, f.kids, t);
      }
      OneInOrder(g, f.s);
      OrderConcat(g, [f.s], Finished(f.kids));
      forall s, t | s in Finished(f.next) && t in [f.s] + Finished(f.kids) && g.Expands(t) ensures g.info(s).alg != g.Inst(t) {
        NextUsesOther(g, users, a, one, f.next, s, t);
      }
      OrderConcat(g, Finished(f.next), [f.s] + Finished(f.kids));
    } else {
      assert Finished(f) == [];
    }
  }

  lemma OneInOrder(g: Graph, s: Spawn)
    ensures InOrder(g, [s])
  {
  }
}
