/**
 Implicit-graph A* search (`cds::astar::a_star_search`): a node registry mapping
 each discovered node to {OPEN/CLOSED, cost-to-node, predecessor}, a min-f
 frontier from which any entry of least f may be popped, and predecessor-chain
 reconstruction of the path.

 As in the source, a popped entry whose node is already CLOSED is not skipped (the
 node is expanded again), and the popped f is written to the cost out-slot on
 every pop, including the pop that ends the search with failure.
 */
module AStarSteps {
  import opened Wrappers
  import opened Problems
  import opened NodeRecords
  import opened Paths

  type Registry<T> = map<T, NodeInfo<T>>

  type Frontier<T(==)> = multiset<Estimate<T>>

  datatype State<T(==)> = State(reg: Registry<T>, frontier: Frontier<T>)

  /**
   How a search ended. `OutOfFuel` has no counterpart in the source: the model
   bounds the number of pops by a fuel budget because the graph may be infinite.
   */
  datatype Stop = GoalReached | CostExceeded | FrontierExhausted | OutOfFuel

  /** The start node registered OPEN with cost 0, and one frontier entry f = h(start). */
  function Init<T(==)>(p: Problem<T>): (s: State<T>)
    ensures s.reg.Keys == {p.start}
    ensures s.reg[p.start].status == Open && s.reg[p.start].costToNode == 0
    ensures s.reg[p.start].prevNode.None?
    ensures s.frontier == multiset{Estimate(p.start, p.h(p.start))}
  {
    State(map[p.start := NewNodeInfo(Open, 0)], multiset{Estimate(p.start, p.h(p.start))})
  }

  /**
   The neighbour `x` was recorded by relaxing the edges out of `n` (whose cost is `g`):
   it is one of the neighbours, its record is now OPEN with cost g + w(n, x) and
   predecessor n, a matching entry was pushed, and if it was known before it was
   OPEN and the new cost strictly improves the old one.
   */
  ghost predicate Improved<T>(p: Problem<T>, reg: Registry<T>, n: T, g: nat, adj: seq<T>,
                              x: T, reg': Registry<T>, fr': Frontier<T>)
    requires x in reg'
  {
    && x in adj
    && reg'[x] == NodeInfo(Open, g + p.w(n, x), Some(n))
    && Estimate(x, g + p.w(n, x) + p.h(x)) in fr'
    && (x in reg ==> reg[x].status == Open && g + p.w(n, x) < reg[x].costToNode)
  }

  /** The frontier entry carrying the recorded cost of `x`. */
  function Fresh<T>(p: Problem<T>, reg: Registry<T>, x: T): Estimate<T>
    requires x in reg
  {
    Estimate(x, reg[x].costToNode + p.h(x))
  }

  /**
   The loop over the neighbours of the expanded node `n` (cost `g`): CLOSED
   neighbours are skipped; a new neighbour is discovered; a known one is updated
   only when the tentative cost strictly improves its recorded cost; every
   discovery or update pushes a frontier entry with f = tentative g + h.
   */
  function Relax<T(==)>(p: Problem<T>, reg: Registry<T>, fr: Frontier<T>, n: T, g: nat, adj: seq<T>)
    : (r: (Registry<T>, Frontier<T>))
    ensures reg.Keys <= r.0.Keys
    ensures fr <= r.1
    decreases |adj|
  {
    if adj == [] then (reg, fr)
    else
      var m := adj[0];
      if m in reg && reg[m].status == Closed then Relax(p, reg, fr, n, g, adj[1..])
      else
        var tentative := g + p.w(n, m);
        var f := tentative + p.h(m);
        if m in reg && tentative >= reg[m].costToNode then Relax(p, reg, fr, n, g, adj[1..])
        else Relax(p, reg[m := NodeInfo(Open, tentative, Some(n))], fr + multiset{Estimate(m, f)}, n, g, adj[1..])
  }

  /** Every record the relaxation changes or adds was improved through an edge out of `n`. */
  lemma {:induction false} RelaxRecord<T>(p: Problem<T>, reg: Registry<T>, fr: Frontier<T>, n: T, g: nat, adj: seq<T>, x: T)
    requires x in Relax(p, reg, fr, n, g, adj).0
    requires x !in reg || Relax(p, reg, fr, n, g, adj).0[x] != reg[x]
    ensures Improved(p, reg, n, g, adj, x, Relax(p, reg, fr, n, g, adj).0, Relax(p, reg, fr, n, g, adj).1)
    decreases |adj|
  {
    var r := Relax(p, reg, fr, n, g, adj);
    if adj == [] {
      assert false;
    } else {
      var m := adj[0];
      var tentative := g + p.w(n, m);
      if (m in reg && reg[m].status == Closed) || (m in reg && tentative >= reg[m].costToNode) {
        RelaxRecord(p, reg, fr, n, g, adj[1..], x);
      } else {
        var reg' := reg[m := NodeInfo(Open, tentative, Some(n))];
        var fr' := fr + multiset{Estimate(m, tentative + p.h(m))};
        assert r == Relax(p, reg', fr', n, g, adj[1..]);
        if x in reg' && r.0[x] == reg'[x] {
          assert x == m;
          assert Estimate(m, tentative + p.h(m)) in fr';
        } else {
          RelaxRecord(p, reg', fr', n, g, adj[1..], x);
          assert x != m;
        }
      }
    }
  }

  /** Every frontier entry after the relaxation was there before or carries its node's new record. */
  lemma {:induction false} RelaxEntry<T>(p: Problem<T>, reg: Registry<T>, fr: Frontier<T>, n: T, g: nat, adj: seq<T>, e: Estimate<T>)
    requires e in Relax(p, reg, fr, n, g, adj).1
    ensures e in fr || (e.node in Relax(p, reg, fr, n, g, adj).0
                        && Relax(p, reg, fr, n, g, adj).0[e.node].costToNode == g + p.w(n, e.node)
                        && e == Fresh(p, Relax(p, reg, fr, n, g, adj).0, e.node))
    decreases |adj|
  {
    var r := Relax(p, reg, fr, n, g, adj);
    if adj != [] {
      var m := adj[0];
      var tentative := g + p.w(n, m);
      if (m in reg && reg[m].status == Closed) || (m in reg && tentative >= reg[m].costToNode) {
        RelaxEntry(p, reg, fr, n, g, adj[1..], e);
      } else {
        var reg' := reg[m := NodeInfo(Open, tentative, Some(n))];
        var fr' := fr + multiset{Estimate(m, tentative + p.h(m))};
        assert r == Relax(p, reg', fr', n, g, adj[1..]);
        RelaxEntry(p, reg', fr', n, g, adj[1..], e);
        if e !in fr && e in fr' {
          assert e == Estimate(m, tentative + p.h(m));
          if r.0[m] != reg'[m] {
            RelaxRecord(p, reg', fr', n, g, adj[1..], m);
            assert false;
          }
        }
      }
    }
  }

  /** Recorded costs never increase, and CLOSED records are never touched. */
  lemma RelaxNeverRaisesCosts<T>(p: Problem<T>, reg: Registry<T>, fr: Frontier<T>, n: T, g: nat, adj: seq<T>)
    ensures forall x :: x in reg ==> Relax(p, reg, fr, n, g, adj).0[x].costToNode <= reg[x].costToNode
    ensures forall x :: x in reg && reg[x].status == Closed ==> Relax(p, reg, fr, n, g, adj).0[x] == reg[x]
  {
    var r := Relax(p, reg, fr, n, g, adj);
    forall x | x in reg
      ensures r.0[x].costToNode <= reg[x].costToNode
      ensures reg[x].status == Closed ==> r.0[x] == reg[x]
    {
      if r.0[x] != reg[x] {
        RelaxRecord(p, reg, fr, n, g, adj, x);
      }
    }
  }

  /**
   The converse of RelaxRecord: every neighbour ends up in the registry, and a
   neighbour that was not CLOSED is recorded with a cost no higher than the cost
   through `n`, because a new or strictly cheaper one is recorded.
   */
  lemma {:induction false} RelaxImproves<T>(p: Problem<T>, reg: Registry<T>, fr: Frontier<T>, n: T, g: nat, adj: seq<T>, m: T)
    requires m in adj
    ensures m in Relax(p, reg, fr, n, g, adj).0
    ensures !(m in reg && reg[m].status == Closed) ==> Relax(p, reg, fr, n, g, adj).0[m].costToNode <= g + p.w(n, m)
    decreases |adj|
  {
    var m0 := adj[0];
    var rest := adj[1..];
    var tentative := g + p.w(n, m0);
    var reg' := reg[m0 := NodeInfo(Open, tentative, Some(n))];
    var fr' := fr + multiset{Estimate(m0, tentative + p.h(m0))};
    var skip := (m0 in reg && reg[m0].status == Closed) || (m0 in reg && tentative >= reg[m0].costToNode);
    if m == m0 {
      if skip {
        RelaxNeverRaisesCosts(p, reg, fr, n, g, rest);
      } else {
        RelaxNeverRaisesCosts(p, reg', fr', n, g, rest);
      }
    } else {
      assert m in rest;
      if skip {
        RelaxImproves(p, reg, fr, n, g, rest, m);
      } else {
        RelaxImproves(p, reg', fr', n, g, rest, m);
      }
    }
  }

  /**
   Expansion of the popped node `n`: mark it CLOSED, then relax its neighbours
   from its recorded cost. `s.frontier` is the frontier after the pop.
   */
  function ExpandNode<T(==)>(p: Problem<T>, s: State<T>, n: T): (s': State<T>)
    requires n in s.reg
    ensures n in s'.reg && s'.reg[n].status == Closed && s'.reg[n].costToNode == s.reg[n].costToNode
    ensures s.reg.Keys <= s'.reg.Keys && s.frontier <= s'.frontier
    ensures forall x :: x in s.reg ==> s'.reg[x].costToNode <= s.reg[x].costToNode
    ensures forall x :: x in s.reg && s.reg[x].status == Closed ==> s'.reg[x] == s.reg[x]
  {
    var reg1 := s.reg[n := s.reg[n].(status := Closed)];
    var r := Relax(p, reg1, s.frontier, n, s.reg[n].costToNode, p.expand(n));
    RelaxNeverRaisesCosts(p, reg1, s.frontier, n, s.reg[n].costToNode, p.expand(n));
    State(r.0, r.1)
  }

  // ---------------------------------------------------------------------------
  // The search invariant. `order` numbers the CLOSED nodes in the order they were
  // first closed; it exists only to show that predecessor chains end at the start.

  /** The predecessor link of `x` points at a CLOSED node it was expanded from, with exact cost. */
  ghost predicate LinkOk<T>(p: Problem<T>, reg: Registry<T>, order: map<T, nat>, x: T)
    requires x in reg && reg[x].prevNode.Some?
  {
    var n := reg[x].prevNode.value;
    && n in reg && reg[n].status == Closed && n in order
    && x in p.expand(n)
    && reg[x].costToNode == reg[n].costToNode + p.w(n, x)
    && (x in order ==> order[n] < order[x])
  }

  ghost predicate ChainOk<T>(p: Problem<T>, reg: Registry<T>, order: map<T, nat>, next: nat) {
    && p.start in reg && reg[p.start].costToNode == 0 && reg[p.start].prevNode.None?
    && (forall x :: x in reg && x != p.start ==> reg[x].prevNode.Some?)
    && (forall x {:trigger LinkOk(p, reg, order, x)} :: x in reg && reg[x].prevNode.Some? ==> LinkOk(p, reg, order, x))
    && (forall x :: x in order ==> order[x] < next)
  }

  ghost predicate Inv<T>(p: Problem<T>, s: State<T>, order: map<T, nat>, next: nat) {
    && ChainOk(p, s.reg, order, next)
    && (forall x :: x in order ==> x in s.reg)
    && (forall x :: x in s.reg ==> (s.reg[x].status == Closed <==> x in order))
    && (forall e :: e in s.frontier ==> e.node in s.reg && e.cost >= s.reg[e.node].costToNode + p.h(e.node))
    && (forall x {:trigger Fresh(p, s.reg, x)} :: x in s.reg && s.reg[x].status == Open ==> Fresh(p, s.reg, x) in s.frontier)
    && (forall x :: x in s.reg && s.reg[x].status == Closed ==> !p.isGoal(x))
  }

  function Rank<T(==)>(order: map<T, nat>, next: nat, x: T): nat {
    if x in order then order[x] else next
  }

  /**
   Path reconstruction: follow predecessor keys from `x` back to the start and read
   the chain start-first. The result is a contiguous path whose cost is the
   recorded cost of `x`.
   */
  function Reconstruct<T(==)>(p: Problem<T>, reg: Registry<T>, x: T, ghost order: map<T, nat>, ghost next: nat)
    : (path: seq<T>)
    requires ChainOk(p, reg, order, next) && x in reg
    ensures |path| > 0 && path[0] == p.start && path[|path| - 1] == x
    ensures Contiguous(p.expand, path)
    ensures PathCost(p.w, path) == reg[x].costToNode
    decreases Rank(order, next, x)
  {
    if x == p.start then [x]
    else
      assert LinkOk(p, reg, order, x);
      var prefix := Reconstruct(p, reg, reg[x].prevNode.value, order, next);
      var path := prefix + [x];
      assert path[..|path| - 1] == prefix;
      assert path[|path| - 2] == reg[x].prevNode.value;
      assert PathCost(p.w, path) == PathCost(p.w, prefix) + p.w(reg[x].prevNode.value, x);
      path
  }

  lemma InitInv<T>(p: Problem<T>)
    ensures Inv(p, Init(p), map[], 0)
  {
  }

  /** A goal entry popped with least f is the fresh entry of an OPEN node. */
  lemma GoalEntryIsFresh<T>(p: Problem<T>, s: State<T>, order: map<T, nat>, next: nat, e: Estimate<T>)
    requires Inv(p, s, order, next) && IsMinEntry(s.frontier, e) && p.isGoal(e.node)
    ensures e.node in s.reg && e.cost == s.reg[e.node].costToNode + p.h(e.node)
  {
    assert Fresh(p, s.reg, e.node) in s.frontier;
  }

  function NextOrder<T(==)>(order: map<T, nat>, next: nat, n: T): map<T, nat> {
    if n in order then order else order[n := next]
  }

  function NextCount<T(==)>(order: map<T, nat>, next: nat, n: T): nat {
    if n in order then next else next + 1
  }

  /** The state after popping `e` and expanding its node. */
  function AfterPop<T(==)>(p: Problem<T>, s: State<T>, e: Estimate<T>): State<T>
    requires e.node in s.reg
  {
    ExpandNode(p, State(s.reg, s.frontier - multiset{e}), e.node)
  }

  /** The registry right after the popped node is marked CLOSED. */
  function Closing<T>(reg: Registry<T>, n: T): Registry<T>
    requires n in reg
  {
    reg[n := reg[n].(status := Closed)]
  }

  /**
   Records changed by the expansion are OPEN, were not CLOSED, are not numbered,
   and carry the edge from the expanded node.
   */
  lemma ChangedRecords<T>(p: Problem<T>, s: State<T>, order: map<T, nat>, next: nat, e: Estimate<T>, x: T)
    requires Inv(p, s, order, next) && e in s.frontier
    requires x in AfterPop(p, s, e).reg
    requires x !in Closing(s.reg, e.node) || AfterPop(p, s, e).reg[x] != Closing(s.reg, e.node)[x]
    ensures Improved(p, Closing(s.reg, e.node), e.node, s.reg[e.node].costToNode, p.expand(e.node),
                     x, AfterPop(p, s, e).reg, AfterPop(p, s, e).frontier)
    ensures AfterPop(p, s, e).reg[x].status == Open && x !in NextOrder(order, next, e.node) && x != e.node
  {
    var n := e.node;
    var reg1 := Closing(s.reg, n);
    var r := Relax(p, reg1, s.frontier - multiset{e}, n, s.reg[n].costToNode, p.expand(n));
    assert AfterPop(p, s, e) == State(r.0, r.1);
    RelaxRecord(p, reg1, s.frontier - multiset{e}, n, s.reg[n].costToNode, p.expand(n), x);
  }

  /** A predecessor link the expansion did not change still holds afterwards. */
  lemma UnchangedLink<T>(p: Problem<T>, s: State<T>, order: map<T, nat>, next: nat, e: Estimate<T>, x: T)
    requires Inv(p, s, order, next) && e in s.frontier
    requires x in s.reg && x in AfterPop(p, s, e).reg && AfterPop(p, s, e).reg[x] == Closing(s.reg, e.node)[x]
    requires AfterPop(p, s, e).reg[x].prevNode.Some?
    ensures LinkOk(p, AfterPop(p, s, e).reg, NextOrder(order, next, e.node), x)
  {
    var reg2 := AfterPop(p, s, e).reg;
    assert s.reg[x].prevNode.Some?;
    assert LinkOk(p, s.reg, order, x);
    var m := s.reg[x].prevNode.value;
    assert s.reg[m].status == Closed;
    assert reg2[m] == s.reg[m];
  }

  /** A predecessor link the expansion set points at the expanded, now CLOSED node. */
  lemma ChangedLink<T>(p: Problem<T>, s: State<T>, order: map<T, nat>, next: nat, e: Estimate<T>, x: T)
    requires Inv(p, s, order, next) && e in s.frontier
    requires x in AfterPop(p, s, e).reg
    requires x !in Closing(s.reg, e.node) || AfterPop(p, s, e).reg[x] != Closing(s.reg, e.node)[x]
    ensures AfterPop(p, s, e).reg[x].prevNode.Some? && LinkOk(p, AfterPop(p, s, e).reg, NextOrder(order, next, e.node), x)
  {
    ChangedRecords(p, s, order, next, e, x);
    var reg2 := AfterPop(p, s, e).reg;
    assert reg2[e.node].status == Closed && reg2[e.node].costToNode == s.reg[e.node].costToNode;
  }

  lemma ExpandKeepsChain<T>(p: Problem<T>, s: State<T>, order: map<T, nat>, next: nat, e: Estimate<T>)
    requires Inv(p, s, order, next) && e in s.frontier
    ensures ChainOk(p, AfterPop(p, s, e).reg, NextOrder(order, next, e.node), NextCount(order, next, e.node))
  {
    var n := e.node;
    var reg1 := Closing(s.reg, n);
    var reg2 := AfterPop(p, s, e).reg;
    var order' := NextOrder(order, next, n);
    assert reg2[p.start] == reg1[p.start] by {
      if reg2[p.start] != reg1[p.start] {
        ChangedRecords(p, s, order, next, e, p.start);
      }
    }
    forall x | x in reg2 && x != p.start
      ensures reg2[x].prevNode.Some?
    {
      if x !in reg1 || reg2[x] != reg1[x] {
        ChangedRecords(p, s, order, next, e, x);
      }
    }
    forall x | x in reg2 && reg2[x].prevNode.Some?
      ensures LinkOk(p, reg2, order', x)
    {
      if x !in reg1 || reg2[x] != reg1[x] {
        ChangedLink(p, s, order, next, e, x);
      } else {
        UnchangedLink(p, s, order, next, e, x);
      }
    }
  }

  lemma ExpandKeepsStatusOrder<T>(p: Problem<T>, s: State<T>, order: map<T, nat>, next: nat, e: Estimate<T>)
    requires Inv(p, s, order, next) && e in s.frontier && !p.isGoal(e.node)
    ensures forall x :: x in NextOrder(order, next, e.node) ==> x in AfterPop(p, s, e).reg
    ensures forall x :: x in AfterPop(p, s, e).reg ==>
              (AfterPop(p, s, e).reg[x].status == Closed <==> x in NextOrder(order, next, e.node))
    ensures forall x :: x in AfterPop(p, s, e).reg && AfterPop(p, s, e).reg[x].status == Closed ==> !p.isGoal(x)
  {
    var reg1 := Closing(s.reg, e.node);
    var reg2 := AfterPop(p, s, e).reg;
    forall x | x in reg2
      ensures reg2[x].status == Closed <==> x in NextOrder(order, next, e.node)
      ensures reg2[x].status == Closed ==> !p.isGoal(x)
    {
      if x !in reg1 || reg2[x] != reg1[x] {
        ChangedRecords(p, s, order, next, e, x);
      }
    }
  }

  /** Every frontier entry still over-estimates the recorded cost of its node. */
  lemma ExpandKeepsEntryBounds<T>(p: Problem<T>, s: State<T>, order: map<T, nat>, next: nat, e: Estimate<T>)
    requires Inv(p, s, order, next) && e in s.frontier
    ensures forall e' :: e' in AfterPop(p, s, e).frontier ==>
              e'.node in AfterPop(p, s, e).reg && e'.cost >= AfterPop(p, s, e).reg[e'.node].costToNode + p.h(e'.node)
  {
    var n := e.node;
    var rest := s.frontier - multiset{e};
    var reg1 := Closing(s.reg, n);
    var r := Relax(p, reg1, rest, n, s.reg[n].costToNode, p.expand(n));
    assert AfterPop(p, s, e) == State(r.0, r.1);
    RelaxNeverRaisesCosts(p, reg1, rest, n, s.reg[n].costToNode, p.expand(n));
    forall e' | e' in r.1
      ensures e'.node in r.0 && e'.cost >= r.0[e'.node].costToNode + p.h(e'.node)
    {
      if e' !in rest {
        RelaxEntry(p, reg1, rest, n, s.reg[n].costToNode, p.expand(n), e');
      } else {
        assert e' in s.frontier;
        assert r.0[e'.node].costToNode <= reg1[e'.node].costToNode;
      }
    }
  }

  /** A record the relaxation leaves alone keeps its entry; a record it sets gets a new one. */
  lemma RelaxKeepsEntry<T>(p: Problem<T>, reg: Registry<T>, fr: Frontier<T>, n: T, g: nat, adj: seq<T>, x: T)
    requires x in Relax(p, reg, fr, n, g, adj).0
    requires x in reg && Relax(p, reg, fr, n, g, adj).0[x] == reg[x] ==> Fresh(p, reg, x) in fr
    ensures Fresh(p, Relax(p, reg, fr, n, g, adj).0, x) in Relax(p, reg, fr, n, g, adj).1
  {
    var r := Relax(p, reg, fr, n, g, adj);
    if x !in reg || r.0[x] != reg[x] {
      RelaxRecord(p, reg, fr, n, g, adj, x);
      assert r.0[x].costToNode == g + p.w(n, x);
    } else {
      assert Fresh(p, r.0, x) == Fresh(p, reg, x);
      assert fr <= r.1;
    }
  }

  /** An OPEN node after the expansion still has an entry carrying its current f. */
  lemma OpenKeepsEntry<T>(p: Problem<T>, s: State<T>, e: Estimate<T>, x: T)
    requires e.node in s.reg
    requires forall y {:trigger Fresh(p, s.reg, y)} :: y in s.reg && s.reg[y].status == Open ==> Fresh(p, s.reg, y) in s.frontier
    requires x in AfterPop(p, s, e).reg && AfterPop(p, s, e).reg[x].status == Open
    ensures Fresh(p, AfterPop(p, s, e).reg, x) in AfterPop(p, s, e).frontier
  {
    var n := e.node;
    var rest := s.frontier - multiset{e};
    var reg1 := Closing(s.reg, n);
    var g := s.reg[n].costToNode;
    var r := Relax(p, reg1, rest, n, g, p.expand(n));
    assert AfterPop(p, s, e) == State(r.0, r.1);
    if x in reg1 && r.0[x] == reg1[x] {
      assert x != n;
      var current := Fresh(p, s.reg, x);
      assert current in s.frontier;
      assert current != e;
      assert current == Fresh(p, reg1, x);
    }
    RelaxKeepsEntry(p, reg1, rest, n, g, p.expand(n), x);
  }

  /** Popping a least-f non-goal entry and expanding its node keeps the invariant. */
  lemma ExpandPreservesInv<T>(p: Problem<T>, s: State<T>, order: map<T, nat>, next: nat, e: Estimate<T>)
    requires Inv(p, s, order, next) && IsMinEntry(s.frontier, e) && !p.isGoal(e.node)
    ensures e.node in s.reg
    ensures Inv(p, AfterPop(p, s, e), NextOrder(order, next, e.node), NextCount(order, next, e.node))
  {
    ExpandKeepsChain(p, s, order, next, e);
    ExpandKeepsStatusOrder(p, s, order, next, e);
    ExpandKeepsEntryBounds(p, s, order, next, e);
    forall x | x in AfterPop(p, s, e).reg && AfterPop(p, s, e).reg[x].status == Open
      ensures Fresh(p, AfterPop(p, s, e).reg, x) in AfterPop(p, s, e).frontier
    {
      OpenKeepsEntry(p, s, e, x);
    }
  }

  /** Every neighbour of a CLOSED node has been discovered. */
  ghost predicate Explored<T>(p: Problem<T>, reg: Registry<T>) {
    forall x, y :: x in reg && reg[x].status == Closed && y in p.expand(x) ==> y in reg
  }

  /** Expanding a node discovers all its neighbours, so the registry stays explored. */
  lemma ExpandKeepsExplored<T>(p: Problem<T>, s: State<T>, order: map<T, nat>, next: nat, e: Estimate<T>)
    requires Inv(p, s, order, next) && Explored(p, s.reg) && e in s.frontier
    ensures Explored(p, AfterPop(p, s, e).reg)
  {
    var n := e.node;
    var reg1 := Closing(s.reg, n);
    var reg2 := AfterPop(p, s, e).reg;
    var r := Relax(p, reg1, s.frontier - multiset{e}, n, s.reg[n].costToNode, p.expand(n));
    assert reg2 == r.0;
    forall x, y | x in reg2 && reg2[x].status == Closed && y in p.expand(x)
      ensures y in reg2
    {
      if x == n {
        RelaxImproves(p, reg1, s.frontier - multiset{e}, n, s.reg[n].costToNode, p.expand(n), y);
      } else {
        if x !in reg1 || reg2[x] != reg1[x] {
          ChangedRecords(p, s, order, next, e, x);
        }
        assert s.reg[x].status == Closed;
      }
    }
  }

  /** A path from the start that stays in an explored registry of CLOSED nodes. */
  lemma {:induction false} ExploredHoldsPath<T>(p: Problem<T>, reg: Registry<T>, path: seq<T>, k: nat)
    requires Explored(p, reg) && forall x :: x in reg ==> reg[x].status == Closed
    requires |path| > 0 && path[0] == p.start && p.start in reg && Contiguous(p.expand, path)
    requires k < |path|
    ensures path[k] in reg
  {
    if k > 0 {
      ExploredHoldsPath(p, reg, path, k - 1);
      assert path[k] in p.expand(path[k - 1]);
    }
  }

  /**
   Completeness: once the frontier is empty no node is OPEN, so the registry is
   made of CLOSED nodes, holds the start and every neighbour of its nodes, and
   holds no goal; hence no path from the start reaches a goal.
   */
  lemma ExhaustedMeansUnreachable<T>(p: Problem<T>, s: State<T>, order: map<T, nat>, next: nat, path: seq<T>)
    requires Inv(p, s, order, next) && Explored(p, s.reg) && s.frontier == multiset{}
    requires |path| > 0 && path[0] == p.start && Contiguous(p.expand, path)
    ensures !p.isGoal(path[|path| - 1])
  {
    forall x | x in s.reg ensures s.reg[x].status == Closed {
      assert Fresh(p, s.reg, x) !in s.frontier;
    }
    ExploredHoldsPath(p, s.reg, path, |path| - 1);
  }

  /** Once the queue is empty, no path from the start along `expand` edges ends at a goal. */
  lemma NoGoalReachable<T>(p: Problem<T>, s: State<T>, order: map<T, nat>, next: nat)
    requires Inv(p, s, order, next) && Explored(p, s.reg) && s.frontier == multiset{}
    ensures forall q :: |q| > 0 && q[0] == p.start && Contiguous(p.expand, q) ==> !p.isGoal(q[|q| - 1])
  {
    forall q | |q| > 0 && q[0] == p.start && Contiguous(p.expand, q)
      ensures !p.isGoal(q[|q| - 1])
    {
      ExhaustedMeansUnreachable(p, s, order, next, q);
    }
  }

  /**
   What follows a pop of the least-f entry `e`: stop when its f exceeds the ceiling,
   reconstruct the path when its node is a goal, otherwise expand the node.
   */
  method HandlePop<T(==)>(p: Problem<T>, s: State<T>, ghost order: map<T, nat>, ghost next: nat, e: Estimate<T>)
    returns (done: bool, stop: Stop, path: seq<T>, s': State<T>, ghost order': map<T, nat>, ghost next': nat)
    requires Inv(p, s, order, next) && IsMinEntry(s.frontier, e)
    ensures done <==> e.cost > p.maxCost || p.isGoal(e.node)
    ensures done && e.cost > p.maxCost ==> stop == CostExceeded && path == []
    ensures done && e.cost <= p.maxCost ==>
              && stop == GoalReached && |path| > 0
              && path[0] == p.start && path[|path| - 1] == e.node
              && Contiguous(p.expand, path)
              && e.cost == PathCost(p.w, path) + p.h(path[|path| - 1])
              && (e.node == p.start ==> path == [p.start])
    ensures !done ==> path == [] && Inv(p, s', order', next')
    ensures !done && Explored(p, s.reg) ==> Explored(p, s'.reg)
  {
    s', order', next' := s, order, next;
    path := [];
    stop := OutOfFuel;
    if e.cost > p.maxCost {
      return true, CostExceeded, [], s', order', next';
    }
    var n := e.node;
    if p.isGoal(n) {
      GoalEntryIsFresh(p, s, order, next, e);
      path := Reconstruct(p, s.reg, n, order, next);
      return true, GoalReached, path, s', order', next';
    }
    ExpandPreservesInv(p, s, order, next, e);
    if Explored(p, s.reg) {
      ExpandKeepsExplored(p, s, order, next, e);
    }
    s' := AfterPop(p, s, e);
    order', next' := NextOrder(order, next, n), NextCount(order, next, n);
    done := false;
  }
}

/** The search loop of `cds::astar::a_star_search` over the steps above. */
module AStar {
  import opened Wrappers
  import opened Problems
  import opened NodeRecords
  import opened Paths
  import opened AStarSteps

  /**
   A* from `p.start`. Each loop iteration pops one entry of least f; `fuel` bounds
   the number of pops. `outCost` is the cost out-slot: None until the first pop.
   */
  method Search<T(==)>(p: Problem<T>, fuel: nat) returns (stop: Stop, path: seq<T>, outCost: Option<nat>)
    ensures (stop == GoalReached) == (path != [])
    ensures stop == GoalReached ==>
              && path[0] == p.start && p.isGoal(path[|path| - 1])
              && Contiguous(p.expand, path)
              && outCost == Some(PathCost(p.w, path) + p.h(path[|path| - 1]))
              && outCost.value <= p.maxCost
    ensures stop == CostExceeded ==> outCost.Some? && outCost.value > p.maxCost
    ensures outCost.None? <==> fuel == 0
    ensures fuel == 0 ==> stop == OutOfFuel
    ensures fuel > 0 && p.h(p.start) > p.maxCost ==> stop == CostExceeded && outCost == Some(p.h(p.start))
    ensures fuel > 0 && p.h(p.start) <= p.maxCost && p.isGoal(p.start) ==>
              stop == GoalReached && path == [p.start] && outCost == Some(p.h(p.start))
    ensures stop == FrontierExhausted ==>
              forall q :: |q| > 0 && q[0] == p.start && Contiguous(p.expand, q) ==> !p.isGoal(q[|q| - 1])
  {
    var s := Init(p);
    ghost var order: map<T, nat> := map[];
    ghost var next: nat := 0;
    InitInv(p);
    var budget: nat := fuel;
    outCost := None;
    path := [];
    while true
      invariant Inv(p, s, order, next) && Explored(p, s.reg)
      invariant budget <= fuel
      invariant outCost.None? <==> budget == fuel
      invariant budget == fuel ==> s.frontier == multiset{Estimate(p.start, p.h(p.start))}
      invariant budget < fuel ==> p.h(p.start) <= p.maxCost && !p.isGoal(p.start)
      invariant path == []
      decreases budget
    {
      if budget == fuel {
        assert Estimate(p.start, p.h(p.start)) in s.frontier;
      }
      if s.frontier == multiset{} {
        NoGoalReachable(p, s, order, next);
        stop := FrontierExhausted;
        return;
      }
      if budget == 0 {
        stop := OutOfFuel;
        return;
      }
      MinEntryExists(s.frontier);
      var e :| IsMinEntry(s.frontier, e);
      outCost := Some(e.cost);
      var done;
      done, stop, path, s, order, next := HandlePop(p, s, order, next, e);
      if done {
        return;
      }
      budget := budget - 1;
    }
  }
}
