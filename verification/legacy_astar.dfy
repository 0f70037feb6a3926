/**
 The older A* (`a_star_search` in the top-level header): an explicit goal node,
 a two-argument cost-to-goal estimate, ordered open and closed sets, and separate
 maps for g, f and the predecessor ("descendants") of each node.

 Unlike the newer search, a node's f is checked against the ceiling when it is
 discovered or improved rather than when it is popped, a CLOSED node is never
 expanded again, and the start node's own f is never checked.
 */
module LegacyAStar {
  import opened Problems
  import opened Paths

  /** The inputs: start and goal, expansion, cost estimate `cost(n, goal)`, edge weight, ceiling. */
  datatype LegacyProblem<!T> = LegacyProblem(
    start: T,
    goal: T,
    expand: T -> seq<T>,
    cost: (T, T) -> nat,
    w: (T, T) -> nat,
    maxCost: nat)

  /** `get_node_score_`: look a node up, inserting the type's maximum when it is missing. */
  function GetNodeScore<T(==)>(n: T, scores: map<T, nat>): (r: (nat, map<T, nat>))
    ensures n in r.1 && r.0 == r.1[n]
    ensures r.1.Keys == scores.Keys + {n}
    ensures forall k :: k in scores ==> r.1[k] == scores[k]
    ensures n !in scores ==> r.0 == CostLimit
  {
    if n in scores then (scores[n], scores) else (CostLimit, scores[n := CostLimit])
  }

  /** A second lookup of the same node changes nothing and finds the same value. */
  lemma GetNodeScoreSettles<T>(n: T, scores: map<T, nat>)
    ensures GetNodeScore(n, GetNodeScore(n, scores).1) == GetNodeScore(n, scores)
  {
  }

  datatype LState<T(==)> = LState(open: set<T>, closed: set<T>, g: map<T, nat>, f: map<T, nat>, desc: map<T, T>)

  /** The state before the main loop: only the start is open, with g = 0 and f = cost(start, goal). */
  function LInit<T(==)>(p: LegacyProblem<T>): (s: LState<T>)
    ensures s.open == {p.start} && s.closed == {}
    ensures s.g.Keys == {p.start} && s.g[p.start] == 0
    ensures s.f.Keys == {p.start} && s.f[p.start] == p.cost(p.start, p.goal)
    ensures s.desc == map[]
  {
    LState({p.start}, {}, map[p.start := 0], map[p.start := p.cost(p.start, p.goal)], map[])
  }

  /**
   The loop over the neighbours of the closed node `n` (g = `gn`): CLOSED
   neighbours are skipped, so is a neighbour whose f would exceed the ceiling; a
   neighbour not in the open set is discovered; an open one is updated only when
   the tentative g improves its score.
   */
  function LRelax<T(==)>(p: LegacyProblem<T>, s: LState<T>, n: T, gn: nat, adj: seq<T>): (s': LState<T>)
    ensures s'.closed == s.closed
    ensures s.open <= s'.open && s.g.Keys <= s'.g.Keys
    decreases |adj|
  {
    if adj == [] then s
    else
      var m := adj[0];
      if m in s.closed then LRelax(p, s, n, gn, adj[1..])
      else
        var tentative := gn + p.w(n, m);
        var fm := tentative + p.cost(m, p.goal);
        if fm > p.maxCost then LRelax(p, s, n, gn, adj[1..])
        else if m !in s.open then
          LRelax(p, LState(s.open + {m}, s.closed, s.g[m := tentative], s.f[m := fm], s.desc[m := n]), n, gn, adj[1..])
        else
          var (score, g') := GetNodeScore(m, s.g);
          if tentative >= score then LRelax(p, s.(g := g'), n, gn, adj[1..])
          else LRelax(p, LState(s.open, s.closed, g'[m := tentative], s.f[m := fm], s.desc[m := n]), n, gn, adj[1..])
  }

  /** The three records and the open-set membership of `x` are the same in both states. */
  ghost predicate Untouched<T>(s: LState<T>, s': LState<T>, x: T) {
    && (x in s.open <==> x in s'.open)
    && (x in s.g <==> x in s'.g) && (x in s.g ==> s'.g[x] == s.g[x])
    && (x in s.f <==> x in s'.f) && (x in s.f ==> s'.f[x] == s.f[x])
    && (x in s.desc <==> x in s'.desc) && (x in s.desc ==> s'.desc[x] == s.desc[x])
  }

  /**
   `x` was discovered or improved through the edge from `n`: it is a neighbour,
   was not CLOSED, is now open with predecessor n, g = g(n) + w(n, x), f = g + cost
   within the ceiling, and if it was open before its g strictly dropped.
   */
  ghost predicate LImproved<T>(p: LegacyProblem<T>, s: LState<T>, n: T, gn: nat, adj: seq<T>, s': LState<T>, x: T) {
    && x in adj && x !in s.closed && x in s'.open
    && x in s'.g && x in s'.f && x in s'.desc
    && s'.desc[x] == n && s'.g[x] == gn + p.w(n, x)
    && s'.f[x] == s'.g[x] + p.cost(x, p.goal) && s'.f[x] <= p.maxCost
    && (x in s.g ==> x in s.open && s'.g[x] < s.g[x])
  }

  /** With every open node scored, each node is either untouched by the relaxation or improved by it. */
  lemma {:induction false} LRelaxAt<T>(p: LegacyProblem<T>, s: LState<T>, n: T, gn: nat, adj: seq<T>, x: T)
    requires forall y :: y in s.open ==> y in s.g
    requires forall y :: y in s.g ==> y in s.open || y in s.closed
    ensures Untouched(s, LRelax(p, s, n, gn, adj), x) || LImproved(p, s, n, gn, adj, LRelax(p, s, n, gn, adj), x)
    decreases |adj|, 1
  {
    if adj != [] {
      var m := adj[0];
      var tentative := gn + p.w(n, m);
      var fm := tentative + p.cost(m, p.goal);
      if m in s.closed || fm > p.maxCost || (m in s.open && tentative >= s.g[m]) {
        assert LRelax(p, s, n, gn, adj) == LRelax(p, s, n, gn, adj[1..]);
        LRelaxAt(p, s, n, gn, adj[1..], x);
      } else {
        LRelaxAtUpdate(p, s, n, gn, adj, x);
      }
    }
  }

  /** The case where the first neighbour is discovered or improved. */
  lemma {:induction false} LRelaxAtUpdate<T>(p: LegacyProblem<T>, s: LState<T>, n: T, gn: nat, adj: seq<T>, x: T)
    requires forall y :: y in s.open ==> y in s.g
    requires forall y :: y in s.g ==> y in s.open || y in s.closed
    requires adj != [] && adj[0] !in s.closed
    requires gn + p.w(n, adj[0]) + p.cost(adj[0], p.goal) <= p.maxCost
    requires adj[0] in s.open ==> gn + p.w(n, adj[0]) < s.g[adj[0]]
    ensures Untouched(s, LRelax(p, s, n, gn, adj), x) || LImproved(p, s, n, gn, adj, LRelax(p, s, n, gn, adj), x)
    decreases |adj|, 0
  {
    var m := adj[0];
    var rest := adj[1..];
    var tentative := gn + p.w(n, m);
    var fm := tentative + p.cost(m, p.goal);
    var s1 := LState(s.open + {m}, s.closed, s.g[m := tentative], s.f[m := fm], s.desc[m := n]);
    if m in s.open {
      assert s.open + {m} == s.open;
    }
    assert LRelax(p, s, n, gn, adj) == LRelax(p, s1, n, gn, rest);
    LRelaxAt(p, s1, n, gn, rest, x);
    var s' := LRelax(p, s1, n, gn, rest);
    if x == m {
      assert Untouched(s1, s', x) ==> LImproved(p, s, n, gn, adj, s', x);
      assert LImproved(p, s1, n, gn, rest, s', x) ==> LImproved(p, s, n, gn, adj, s', x);
    } else {
      assert Untouched(s, s1, x);
    }
  }

  // ---------------------------------------------------------------------------
  // The loop invariant. `order` numbers the CLOSED nodes in closing order; it
  // exists only to show that predecessor chains end at the start.

  /** The predecessor of `x` is a CLOSED node it was reached from, with exact g. */
  ghost predicate DescOk<T>(p: LegacyProblem<T>, s: LState<T>, order: map<T, nat>, x: T)
    requires x in s.desc
  {
    var m := s.desc[x];
    && m in s.closed && m in order && m in s.g && x in s.g
    && x in p.expand(m) && s.g[x] == s.g[m] + p.w(m, x)
    && (x in order ==> order[m] < order[x])
  }

  ghost predicate LInv<T>(p: LegacyProblem<T>, s: LState<T>, order: map<T, nat>, next: nat) {
    && p.start in s.g && s.g[p.start] == 0 && p.start !in s.desc
    && (forall x :: x in s.g ==> x in s.open || x in s.closed)
    && (forall x :: x in s.open ==> x in s.g && x !in s.closed)
    && (forall x :: x in s.closed ==> x in s.g)
    && (forall x :: x in s.g ==> x in s.f && s.f[x] == s.g[x] + p.cost(x, p.goal))
    && (forall x :: x in s.g && x != p.start ==> x in s.desc && s.f[x] <= p.maxCost)
    && (forall x {:trigger DescOk(p, s, order, x)} :: x in s.desc ==> DescOk(p, s, order, x))
    && (forall x :: x in s.closed ==> x in order)
    && (forall x :: x in order ==> x in s.closed)
    && (forall x :: x in order ==> order[x] < next)
    && p.goal !in s.closed
  }

  lemma LInitInv<T>(p: LegacyProblem<T>)
    ensures LInv(p, LInit(p), map[], 0)
  {
  }

  function LRank<T(==)>(order: map<T, nat>, next: nat, x: T): nat {
    if x in order then order[x] else next
  }

  /**
   Path reconstruction: follow `descendants` from `x` back to the start, pushing
   each node at the front. The result is a contiguous path whose cost is g(x).
   */
  function LReconstruct<T(==)>(p: LegacyProblem<T>, s: LState<T>, x: T, ghost order: map<T, nat>, ghost next: nat)
    : (path: seq<T>)
    requires LInv(p, s, order, next) && x in s.g
    ensures |path| > 0 && path[0] == p.start && path[|path| - 1] == x
    ensures Contiguous(p.expand, path)
    ensures PathCost(p.w, path) == s.g[x]
    ensures x == p.start ==> path == [x]
    decreases LRank(order, next, x)
  {
    if x == p.start then [x]
    else
      assert DescOk(p, s, order, x);
      var prefix := LReconstruct(p, s, s.desc[x], order, next);
      var path := prefix + [x];
      assert path[..|path| - 1] == prefix;
      assert path[|path| - 2] == s.desc[x];
      path
  }

  /** The state after closing the open node `n`, before its neighbours are relaxed. */
  function LClosing<T(==)>(s: LState<T>, n: T): LState<T> {
    LState(s.open - {n}, s.closed + {n}, s.g, s.f, s.desc)
  }

  /** One pass of the main loop after the goal test: move `n` from the open to the closed set and relax its neighbours. */
  function LExpand<T(==)>(p: LegacyProblem<T>, s: LState<T>, n: T): LState<T>
    requires n in s.g
  {
    LRelax(p, LClosing(s, n), n, s.g[n], p.expand(n))
  }

  /** What the relaxation did to `x`, in terms of the state before the pop. */
  lemma LStepCases<T>(p: LegacyProblem<T>, s: LState<T>, order: map<T, nat>, next: nat, n: T, x: T)
    requires LInv(p, s, order, next) && n in s.open
    ensures n in s.g
    ensures Untouched(LClosing(s, n), LExpand(p, s, n), x)
         || LImproved(p, LClosing(s, n), n, s.g[n], p.expand(n), LExpand(p, s, n), x)
    ensures x in s.closed || x == n ==> Untouched(LClosing(s, n), LExpand(p, s, n), x)
  {
    LRelaxAt(p, LClosing(s, n), n, s.g[n], p.expand(n), x);
  }

  /** The predecessor link of every node with one still holds after the step. */
  lemma LStepDesc<T>(p: LegacyProblem<T>, s: LState<T>, order: map<T, nat>, next: nat, n: T, x: T)
    requires LInv(p, s, order, next) && n in s.open
    requires x in LExpand(p, s, n).desc
    ensures DescOk(p, LExpand(p, s, n), order[n := next], x)
  {
    var s2 := LExpand(p, s, n);
    LStepCases(p, s, order, next, n, x);
    LStepCases(p, s, order, next, n, n);
    if Untouched(LClosing(s, n), s2, x) {
      assert DescOk(p, s, order, x);
      LStepCases(p, s, order, next, n, s.desc[x]);
    }
  }

  /** The per-node conjuncts of the invariant after the step. */
  lemma LStepNode<T>(p: LegacyProblem<T>, s: LState<T>, order: map<T, nat>, next: nat, n: T, x: T)
    requires LInv(p, s, order, next) && n in s.open
    ensures var s2 := LExpand(p, s, n);
      && (x in s2.g ==> x in s2.open || x in s2.closed)
      && (x in s2.open ==> x in s2.g && x !in s2.closed)
      && (x in s2.closed ==> x in s2.g)
      && (x in s2.g ==> x in s2.f && s2.f[x] == s2.g[x] + p.cost(x, p.goal))
      && (x in s2.g && x != p.start ==> x in s2.desc && s2.f[x] <= p.maxCost)
      && (x in s2.closed <==> x in order[n := next])
  {
    LStepCases(p, s, order, next, n, x);
  }

  /** The set-membership conjuncts of the invariant after the step. */
  lemma LExpandKeepsSets<T>(p: LegacyProblem<T>, s: LState<T>, order: map<T, nat>, next: nat, n: T)
    requires LInv(p, s, order, next) && n in s.open && n != p.goal
    ensures n in s.g
    ensures var s2 := LExpand(p, s, n);
      && p.start in s2.g && s2.g[p.start] == 0 && p.start !in s2.desc
      && (forall x :: x in s2.g ==> x in s2.open || x in s2.closed)
      && (forall x :: x in s2.open ==> x in s2.g && x !in s2.closed)
      && (forall x :: x in s2.closed ==> x in s2.g)
      && (forall x :: x in s2.closed ==> x in order[n := next])
      && (forall x :: x in order[n := next] ==> x in s2.closed)
      && p.goal !in s2.closed
  {
    var s2 := LExpand(p, s, n);
    var order' := order[n := next];
    LStepCases(p, s, order, next, n, p.start);
    LStepCases(p, s, order, next, n, p.goal);
    forall x | x in s2.g ensures x in s2.open || x in s2.closed {
      LStepNode(p, s, order, next, n, x);
    }
    forall x | x in s2.open ensures x in s2.g && x !in s2.closed {
      LStepNode(p, s, order, next, n, x);
    }
    forall x | x in s2.closed ensures x in s2.g && x in order' {
      LStepNode(p, s, order, next, n, x);
    }
    forall x | x in order' ensures x in s2.closed {
      LStepNode(p, s, order, next, n, x);
    }
  }

  /** The score and predecessor conjuncts of the invariant after the step. */
  lemma LExpandKeepsScores<T>(p: LegacyProblem<T>, s: LState<T>, order: map<T, nat>, next: nat, n: T)
    requires LInv(p, s, order, next) && n in s.open
    ensures n in s.g
    ensures var s2 := LExpand(p, s, n);
      && (forall x :: x in s2.g ==> x in s2.f && s2.f[x] == s2.g[x] + p.cost(x, p.goal))
      && (forall x :: x in s2.g && x != p.start ==> x in s2.desc && s2.f[x] <= p.maxCost)
      && (forall x {:trigger DescOk(p, s2, order[n := next], x)} :: x in s2.desc ==> DescOk(p, s2, order[n := next], x))
  {
    var s2 := LExpand(p, s, n);
    forall x | x in s2.g ensures x in s2.f && s2.f[x] == s2.g[x] + p.cost(x, p.goal) {
      LStepNode(p, s, order, next, n, x);
    }
    forall x | x in s2.g && x != p.start ensures x in s2.desc && s2.f[x] <= p.maxCost {
      LStepNode(p, s, order, next, n, x);
    }
    forall x | x in s2.desc ensures DescOk(p, s2, order[n := next], x) {
      LStepDesc(p, s, order, next, n, x);
    }
  }

  /**
   Every neighbour the relaxation sees is CLOSED, scored afterwards, or refused
   by the ceiling through `n`.
   */
  lemma {:induction false} LRelaxCovers<T>(p: LegacyProblem<T>, s: LState<T>, n: T, gn: nat, adj: seq<T>, y: T)
    requires y in adj
    ensures y in s.closed || y in LRelax(p, s, n, gn, adj).g || gn + p.w(n, y) + p.cost(y, p.goal) > p.maxCost
    decreases |adj|
  {
    var m := adj[0];
    var rest := adj[1..];
    var tentative := gn + p.w(n, m);
    var fm := tentative + p.cost(m, p.goal);
    if m in s.closed || fm > p.maxCost {
      if m != y {
        LRelaxCovers(p, s, n, gn, rest, y);
      }
    } else if m !in s.open {
      var s1 := LState(s.open + {m}, s.closed, s.g[m := tentative], s.f[m := fm], s.desc[m := n]);
      assert LRelax(p, s, n, gn, adj) == LRelax(p, s1, n, gn, rest);
      if m != y {
        LRelaxCovers(p, s1, n, gn, rest, y);
      }
    } else {
      var (score, g') := GetNodeScore(m, s.g);
      var s1 := if tentative >= score then s.(g := g')
                else LState(s.open, s.closed, g'[m := tentative], s.f[m := fm], s.desc[m := n]);
      assert LRelax(p, s, n, gn, adj) == LRelax(p, s1, n, gn, rest);
      if m != y {
        LRelaxCovers(p, s1, n, gn, rest, y);
      }
    }
  }

  /**
   Every neighbour of a closed node has been scored, or the ceiling refused it
   from there: its f through that node's g exceeds `max_cost`.
   */
  ghost predicate LExplored<T>(p: LegacyProblem<T>, s: LState<T>) {
    forall x, y :: x in s.closed && y in p.expand(x) ==>
      y in s.g || (x in s.g && s.g[x] + p.w(x, y) + p.cost(y, p.goal) > p.maxCost)
  }

  /** Closing a node and relaxing its neighbours keeps every neighbour of a closed node accounted for. */
  lemma LExpandKeepsExplored<T>(p: LegacyProblem<T>, s: LState<T>, order: map<T, nat>, next: nat, n: T)
    requires LInv(p, s, order, next) && LExplored(p, s) && n in s.open
    ensures n in s.g && LExplored(p, LExpand(p, s, n))
  {
    var s2 := LExpand(p, s, n);
    LStepCases(p, s, order, next, n, n);
    forall x, y | x in s2.closed && y in p.expand(x)
      ensures y in s2.g || (x in s2.g && s2.g[x] + p.w(x, y) + p.cost(y, p.goal) > p.maxCost)
    {
      LStepCases(p, s, order, next, n, x);
      if x == n {
        LRelaxCovers(p, LClosing(s, n), n, s.g[n], p.expand(n), y);
      }
    }
  }

  /** The first step of `q` out of the scored nodes. */
  lemma {:induction false} LLeaves<T>(s: LState<T>, q: seq<T>, k: nat) returns (i: nat)
    requires k < |q| && q[k] in s.g && q[|q| - 1] !in s.g
    ensures k <= i < |q| - 1 && q[i] in s.g && q[i + 1] !in s.g
    decreases |q| - k
  {
    if q[k + 1] !in s.g {
      i := k;
    } else {
      i := LLeaves(s, q, k + 1);
    }
  }

  /**
   Completeness up to the ceiling: once the open set is empty every scored node
   is closed and the goal is not scored, so every path from the start to the
   goal leaves the scored nodes at a step the ceiling refused.
   */
  lemma LExhaustedMeansRefused<T>(p: LegacyProblem<T>, s: LState<T>, order: map<T, nat>, next: nat, q: seq<T>)
    returns (i: nat)
    requires LInv(p, s, order, next) && LExplored(p, s) && s.open == {}
    requires |q| > 0 && q[0] == p.start && q[|q| - 1] == p.goal && Contiguous(p.expand, q)
    ensures i < |q| - 1 && q[i] in s.g && q[i + 1] !in s.g
    ensures s.g[q[i]] + p.w(q[i], q[i + 1]) + p.cost(q[i + 1], p.goal) > p.maxCost
  {
    i := LLeaves(s, q, 0);
    assert q[i] in s.closed;
    assert q[i + 1] in p.expand(q[i]);
  }

  /**
   The path q takes a step from q[i] to q[i + 1] whose f, measured along some path
   r from the start to q[i], exceeds the ceiling, so the search may refuse it.
   */
  ghost predicate CrossesCeiling<T(!new)>(p: LegacyProblem<T>, q: seq<T>) {
    exists i, r :: && 0 <= i < |q| - 1
                   && |r| > 0 && r[0] == p.start && r[|r| - 1] == q[i] && Contiguous(p.expand, r)
                   && PathCost(p.w, r) + p.w(q[i], q[i + 1]) + p.cost(q[i + 1], p.goal) > p.maxCost
  }

  /**
   Once the open set is empty, every path from the start to the goal takes a step
   whose f, measured along some path to the step's first node, exceeds the ceiling.
   */
  lemma LExhaustedRefusesAll<T(!new)>(p: LegacyProblem<T>, s: LState<T>, order: map<T, nat>, next: nat)
    requires LInv(p, s, order, next) && LExplored(p, s) && s.open == {}
    ensures forall q :: |q| > 0 && q[0] == p.start && q[|q| - 1] == p.goal && Contiguous(p.expand, q) ==> CrossesCeiling(p, q)
  {
    forall q | |q| > 0 && q[0] == p.start && q[|q| - 1] == p.goal && Contiguous(p.expand, q)
      ensures CrossesCeiling(p, q)
    {
      var i := LExhaustedMeansRefused(p, s, order, next, q);
      var r := LReconstruct(p, s, q[i], order, next);
    }
  }

  /** The loop invariant of the search: the state invariant and the explored closure. */
  ghost predicate LRunning<T>(p: LegacyProblem<T>, s: LState<T>, order: map<T, nat>, next: nat) {
    LInv(p, s, order, next) && LExplored(p, s)
  }

  /** The first state satisfies the loop invariant. */
  lemma LInitRunning<T>(p: LegacyProblem<T>)
    ensures LRunning(p, LInit(p), map[], 0)
  {
    LInitInv(p);
  }

  /** Expanding a non-goal open node keeps the loop invariant. */
  lemma LExpandRunning<T>(p: LegacyProblem<T>, s: LState<T>, order: map<T, nat>, next: nat, n: T)
    requires LRunning(p, s, order, next) && n in s.open && n != p.goal
    ensures n in s.g && LRunning(p, LExpand(p, s, n), order[n := next], next + 1)
  {
    LExpandInv(p, s, order, next, n);
    LExpandKeepsExplored(p, s, order, next, n);
  }

  /** Closing a non-goal open node and relaxing its neighbours keeps the invariant. */
  lemma LExpandInv<T>(p: LegacyProblem<T>, s: LState<T>, order: map<T, nat>, next: nat, n: T)
    requires LInv(p, s, order, next) && n in s.open && n != p.goal
    ensures n in s.g && LInv(p, LExpand(p, s, n), order[n := next], next + 1)
  {
    LExpandKeepsSets(p, s, order, next, n);
    LExpandKeepsScores(p, s, order, next, n);
  }
}

/** The main loop of the older A*. */
module LegacySearch {
  import opened Paths
  import opened LegacyAStar

  /** `n` is an open node of least f, the node `std::min_element` picks up to ties. */
  predicate IsMinOpen<T(==)>(s: LState<T>, n: T) {
    n in s.open && n in s.f && forall m :: m in s.open && m in s.f ==> s.f[n] <= s.f[m]
  }

  /** A non-empty open set whose nodes all have an f has a node of least f. */
  lemma {:induction false} MinOpenExists<T>(s: LState<T>)
    requires s.open != {} && forall x :: x in s.open ==> x in s.f
    ensures exists n :: IsMinOpen(s, n)
    decreases |s.open|
  {
    var x :| x in s.open;
    var rest := s.open - {x};
    if rest == {} {
      assert s.open == {x};
      assert IsMinOpen(s, x);
    } else {
      MinOpenExists(s.(open := rest));
      var y :| IsMinOpen(s.(open := rest), y);
      if s.f[x] < s.f[y] {
        assert IsMinOpen(s, x);
      } else {
        assert IsMinOpen(s, y);
      }
    }
  }

  /**
   The older `a_star_search`. Each iteration takes an open node of least f; `fuel`
   bounds the number of iterations. Returns the reconstructed path when the goal
   is taken, and the empty path when the open set runs dry or the fuel runs out;
   `exhausted` has no counterpart in the source and tells the first case from the
   second.
   */
  method Search<T(==, !new)>(p: LegacyProblem<T>, fuel: nat) returns (path: seq<T>, exhausted: bool)
    ensures path != [] ==> path[0] == p.start && path[|path| - 1] == p.goal && Contiguous(p.expand, path)
    ensures path != [] && p.goal != p.start ==> PathCost(p.w, path) + p.cost(p.goal, p.goal) <= p.maxCost
    ensures fuel > 0 && p.goal == p.start ==> path == [p.start]
    ensures fuel == 0 ==> path == [] && !exhausted
    ensures exhausted ==> path == []
    ensures exhausted ==>
              forall q :: |q| > 0 && q[0] == p.start && q[|q| - 1] == p.goal && Contiguous(p.expand, q) ==> CrossesCeiling(p, q)
  {
    var s := LInit(p);
    ghost var order: map<T, nat> := map[];
    ghost var next: nat := 0;
    LInitRunning(p);
    var budget: nat := fuel;
    path := [];
    exhausted := false;
    while s.open != {} && budget > 0
      invariant LRunning(p, s, order, next)
      invariant budget <= fuel
      invariant budget == fuel ==> s.open == {p.start}
      invariant budget < fuel ==> p.goal != p.start
      invariant path == []
      decreases budget
    {
      MinOpenExists(s);
      var n :| IsMinOpen(s, n);
      if n == p.goal {
        path := LReconstruct(p, s, n, order, next);
        return;
      }
      LExpandRunning(p, s, order, next, n);
      s := LExpand(p, s, n);
      order, next := order[n := next], next + 1;
      budget := budget - 1;
    }
    if s.open == {} {
      LExhaustedRefusesAll(p, s, order, next);
      exhausted := true;
    }
  }
}
