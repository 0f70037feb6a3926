/**
 Cycle decomposition of one array onto another (`cycle_decomposition` and
 `get_transpositions`). Position i steps to the position in v1 of v2[i]; a walk
 starts at the lowest unvisited position, marks each position it reaches and
 collects v1 at that position, and closes when it comes back to its start.
 */
module Cycles {
  import opened Wrappers

  /** `std::find` over a whole array: the position found, or None for `end()`. */
  function IndexOf<T(==)>(v: seq<T>, x: T): (r: Option<nat>)
    ensures r.Some? ==> r.value < |v|
  {
    if |v| == 0 then None
    else if v[0] == x then Some(0)
    else
      match IndexOf(v[1..], x)
      case None => None
      case Some(k) => Some(k + 1)
  }

  /** `std::find` finds x exactly when v holds it, and then at its first occurrence. */
  lemma {:induction false} IndexOfFinds<T>(v: seq<T>, x: T)
    ensures IndexOf(v, x).None? <==> x !in v
    ensures IndexOf(v, x).Some? ==> v[IndexOf(v, x).value] == x
    ensures IndexOf(v, x).Some? ==> forall k :: 0 <= k < IndexOf(v, x).value ==> v[k] != x
  {
    if |v| > 0 && v[0] != x {
      IndexOfFinds(v[1..], x);
      assert v == [v[0]] + v[1..];
    }
  }

  /** The successor of position i: where v2[i] sits in v1. */
  function Succ<T(==)>(v1: seq<T>, v2: seq<T>, i: nat): Option<nat>
    requires |v1| == |v2| && i < |v2|
  {
    IndexOf(v1, v2[i])
  }

  /** The scan for the first unvisited bit of the `visited` bitset. */
  function FirstUnvisited(visited: seq<bool>): (r: nat)
    ensures r <= |visited|
    ensures forall k :: 0 <= k < r ==> visited[k]
    ensures r < |visited| ==> !visited[r]
  {
    if |visited| == 0 || !visited[0] then 0 else 1 + FirstUnvisited(visited[1..])
  }

  /** How many bits of the bitset are still clear. */
  function Unvisited(visited: seq<bool>): (r: nat)
    ensures r <= |visited|
  {
    if |visited| == 0 then 0
    else (if visited[0] then 0 else 1) + Unvisited(visited[1..])
  }

  /** No bit is clear exactly when every bit is set. */
  lemma {:induction false} NoneClear(visited: seq<bool>)
    ensures Unvisited(visited) == 0 <==> forall k :: 0 <= k < |visited| ==> visited[k]
  {
    if |visited| > 0 {
      NoneClear(visited[1..]);
      assert forall k :: 1 <= k < |visited| ==> visited[k] == visited[1..][k - 1];
    }
  }

  /** Setting one clear bit leaves one fewer clear bit. */
  lemma {:induction false} MarkOne(visited: seq<bool>, c: nat)
    requires c < |visited| && !visited[c]
    ensures Unvisited(visited[c := true]) == Unvisited(visited) - 1
  {
    if c == 0 {
      assert visited[c := true][1..] == visited[1..];
    } else {
      MarkOne(visited[1..], c - 1);
      assert visited[c := true][1..] == visited[1..][c - 1 := true];
    }
  }

  /** The state of one `do … while (c_idx != cycle_start)` walk. */
  datatype Walked<T> = Walked(ok: bool, visited: seq<bool>, cycle: seq<T>)

  /**
   The inner walk from position c back to `start`. It fails on a position that
   is already visited, and on a value of v2 that v1 does not hold; the cycle
   collected so far is kept either way.
   */
  function Walk<T(==)>(v1: seq<T>, v2: seq<T>, visited: seq<bool>, start: nat, c: nat, cycle: seq<T>): (r: Walked<T>)
    requires |v1| == |v2| == |visited| && start < |v1| && c < |v1|
    ensures |r.visited| == |visited| && |cycle| <= |r.cycle|
    ensures Unvisited(r.visited) <= Unvisited(visited)
    ensures !visited[c] ==> Unvisited(r.visited) < Unvisited(visited) && |cycle| < |r.cycle|
    decreases Unvisited(visited)
  {
    if visited[c] then Walked(false, visited, cycle)
    else
      var marked := visited[c := true];
      var grown := cycle + [v1[c]];
      MarkOne(visited, c);
      match IndexOf(v1, v2[c])
      case None => Walked(false, marked, grown)
      case Some(j) =>
        if j == start then Walked(true, marked, grown)
        else Walk(v1, v2, marked, start, j, grown)
  }

  /** The flag and the cycles written to the output iterator. */
  datatype Decomposition<T> = Decomposition(ok: bool, cycles: seq<seq<T>>)

  /**
   The outer loop from a given bitset: while some bit is clear and nothing has
   failed, walk from the first clear bit and emit the cycle, fixed points and
   the partial cycle of a failed walk included.
   */
  function Decompose<T(==)>(v1: seq<T>, v2: seq<T>, visited: seq<bool>): (r: Decomposition<T>)
    requires |v1| == |v2| == |visited|
    ensures |r.cycles| <= Unvisited(visited)
    ensures forall k :: 0 <= k < |r.cycles| ==> |r.cycles[k]| > 0
    decreases Unvisited(visited)
  {
    var start := FirstUnvisited(visited);
    if start == |visited| then Decomposition(true, [])
    else
      var w := Walk(v1, v2, visited, start, start, []);
      if !w.ok then Decomposition(false, [w.cycle])
      else
        var rest := Decompose(v1, v2, w.visited);
        Decomposition(rest.ok, [w.cycle] + rest.cycles)
  }

  /** A bitset of n clear bits. */
  function Clear(n: nat): (r: seq<bool>)
    ensures |r| == n && Unvisited(r) == n
  {
    if n == 0 then [] else [false] + Clear(n - 1)
  }

  /** `cycle_decomposition(v1, v2, oi)`: the returned flag and the emitted cycles. */
  function CycleDecomposition<T(==)>(v1: seq<T>, v2: seq<T>): (r: Decomposition<T>)
    requires |v1| == |v2|
    ensures |r.cycles| <= |v1|
    ensures forall k :: 0 <= k < |r.cycles| ==> |r.cycles[k]| > 0
    ensures |v1| == 0 ==> r == Decomposition(true, [])
  {
    Decompose(v1, v2, Clear(|v1|))
  }

  /** The sum of `|cycle| - 1` that `is_even_permutation_of_` accumulates. */
  function PermutationOrder<T>(cycles: seq<seq<T>>): nat
    requires forall k :: 0 <= k < |cycles| ==> |cycles[k]| > 0
  {
    if |cycles| == 0 then 0 else |cycles[0]| - 1 + PermutationOrder(cycles[1..])
  }

  /** The inner loop of `get_transpositions`: (head, x) for each later x. */
  function PairWithHead<T>(head: T, rest: seq<T>): (r: seq<(T, T)>)
    ensures |r| == |rest|
    ensures forall k :: 0 <= k < |r| ==> r[k] == (head, rest[k])
  {
    if |rest| == 0 then [] else [(head, rest[0])] + PairWithHead(head, rest[1..])
  }

  /**
   `get_transpositions`: every cycle contributes the pairs of its first element
   with each later one. Its `true` result carries no information and is dropped.
   */
  function Transpositions<T>(cycles: seq<seq<T>>): (r: seq<(T, T)>)
    requires forall k :: 0 <= k < |cycles| ==> |cycles[k]| > 0
    ensures |r| == PermutationOrder(cycles)
  {
    if |cycles| == 0 then []
    else PairWithHead(cycles[0][0], cycles[0][1..]) + Transpositions(cycles[1..])
  }

  /** The concatenation of all cycles. */
  function Flatten<T>(cycles: seq<seq<T>>): seq<T> {
    if |cycles| == 0 then [] else cycles[0] + Flatten(cycles[1..])
  }

  lemma FlattenCons<T>(c: seq<T>, cs: seq<seq<T>>)
    ensures Flatten([c] + cs) == c + Flatten(cs)
  {
    assert ([c] + cs)[1..] == cs;
  }

  // ---------------------------------------------------------------------------
  // Where the walk goes: v1 read along the orbit of the start position.
  // ---------------------------------------------------------------------------

  /** The position reached from i after k successor steps, if each step finds its value. */
  ghost function Orbit<T>(v1: seq<T>, v2: seq<T>, i: nat, k: nat): (r: Option<nat>)
    requires |v1| == |v2| && i < |v1|
    ensures r.Some? ==> r.value < |v1|
  {
    if k == 0 then Some(i)
    else match Orbit(v1, v2, i, k - 1)
      case None => None
      case Some(j) => Succ(v1, v2, j)
  }

  /** `cycle` is v1 read at s, its successor, its successor's successor, … */
  ghost predicate Traces<T>(v1: seq<T>, v2: seq<T>, s: nat, cycle: seq<T>)
    requires |v1| == |v2| && s < |v1|
  {
    forall k :: 0 <= k < |cycle| ==> Orbit(v1, v2, s, k).Some? && cycle[k] == v1[Orbit(v1, v2, s, k).value]
  }

  /** The walk finds its way back to s right after `cycle`. */
  ghost predicate Closes<T>(v1: seq<T>, v2: seq<T>, s: nat, cycle: seq<T>)
    requires |v1| == |v2| && s < |v1|
  {
    Orbit(v1, v2, s, |cycle|) == Some(s)
  }

  /** A walk extends a traced prefix along the orbit, and a successful walk closes it. */
  lemma {:induction false} WalkTraces<T>(v1: seq<T>, v2: seq<T>, visited: seq<bool>, start: nat, c: nat, cycle: seq<T>)
    requires |v1| == |v2| == |visited| && start < |v1| && c < |v1|
    requires Orbit(v1, v2, start, |cycle|) == Some(c) && Traces(v1, v2, start, cycle)
    ensures Traces(v1, v2, start, Walk(v1, v2, visited, start, c, cycle).cycle)
    ensures Walk(v1, v2, visited, start, c, cycle).ok ==> Closes(v1, v2, start, Walk(v1, v2, visited, start, c, cycle).cycle)
    decreases Unvisited(visited)
  {
    if !visited[c] {
      var marked := visited[c := true];
      var grown := cycle + [v1[c]];
      MarkOne(visited, c);
      assert Traces(v1, v2, start, grown) by {
        forall k | 0 <= k < |grown|
          ensures Orbit(v1, v2, start, k).Some? && grown[k] == v1[Orbit(v1, v2, start, k).value]
        {
          if k < |cycle| {
            assert grown[k] == cycle[k];
          }
        }
      }
      match IndexOf(v1, v2[c])
      case None =>
      case Some(j) =>
        assert Orbit(v1, v2, start, |grown|) == Some(j);
        if j != start {
          WalkTraces(v1, v2, marked, start, j, grown);
        }
    }
  }

  /** The position each emitted cycle starts from: the lowest clear bit at that time. */
  ghost function Starts<T>(v1: seq<T>, v2: seq<T>, visited: seq<bool>): (r: seq<nat>)
    requires |v1| == |v2| == |visited|
    ensures |r| == |Decompose(v1, v2, visited).cycles|
    ensures forall k :: 0 <= k < |r| ==> r[k] < |v1| && !visited[r[k]]
    decreases Unvisited(visited)
  {
    var start := FirstUnvisited(visited);
    if start == |visited| then []
    else
      var w := Walk(v1, v2, visited, start, start, []);
      if !w.ok then [start]
      else
        WalkKeepsMarks(v1, v2, visited, start, start, []);
        [start] + Starts(v1, v2, w.visited)
  }

  /** The first emitted cycle is v1 read along the orbit of the lowest clear position. */
  lemma FirstCycleTraces<T>(v1: seq<T>, v2: seq<T>, visited: seq<bool>)
    requires |v1| == |v2| == |visited|
    ensures |Decompose(v1, v2, visited).cycles| > 0 ==>
      FirstUnvisited(visited) < |v1| && Traces(v1, v2, FirstUnvisited(visited), Decompose(v1, v2, visited).cycles[0])
  {
    var start := FirstUnvisited(visited);
    if start < |visited| {
      WalkTraces(v1, v2, visited, start, start, []);
    }
  }

  /**
   Each emitted cycle is v1 read along the orbit of its start; every cycle but a
   failed last one returns to its start.
   */
  lemma {:induction false} DecomposeTraces<T>(v1: seq<T>, v2: seq<T>, visited: seq<bool>)
    requires |v1| == |v2| == |visited|
    ensures forall k :: 0 <= k < |Decompose(v1, v2, visited).cycles| ==>
      Traces(v1, v2, Starts(v1, v2, visited)[k], Decompose(v1, v2, visited).cycles[k])
    ensures forall k :: 0 <= k < |Decompose(v1, v2, visited).cycles| - 1 ==>
      Closes(v1, v2, Starts(v1, v2, visited)[k], Decompose(v1, v2, visited).cycles[k])
    ensures Decompose(v1, v2, visited).ok ==> forall k :: 0 <= k < |Decompose(v1, v2, visited).cycles| ==>
      Closes(v1, v2, Starts(v1, v2, visited)[k], Decompose(v1, v2, visited).cycles[k])
    decreases Unvisited(visited)
  {
    var r := Decompose(v1, v2, visited);
    var start := FirstUnvisited(visited);
    if start < |visited| {
      var w := Walk(v1, v2, visited, start, start, []);
      WalkTraces(v1, v2, visited, start, start, []);
      if w.ok {
        var rest := Decompose(v1, v2, w.visited);
        var starts := Starts(v1, v2, w.visited);
        DecomposeTraces(v1, v2, w.visited);
        assert r.cycles == [w.cycle] + rest.cycles;
        assert Starts(v1, v2, visited) == [start] + starts;
      }
    }
  }

  /** The first cycle of a non-empty decomposition is the orbit of position 0. */
  lemma FirstCycleStartsAtZero<T>(v1: seq<T>, v2: seq<T>)
    requires |v1| == |v2| && |v1| > 0
    ensures |CycleDecomposition(v1, v2).cycles| > 0
    ensures Traces(v1, v2, 0, CycleDecomposition(v1, v2).cycles[0])
    ensures CycleDecomposition(v1, v2).cycles[0][0] == v1[0]
  {
    var clear := Clear(|v1|);
    assert !clear[0];
    FirstCycleTraces(v1, v2, clear);
    assert Traces(v1, v2, 0, CycleDecomposition(v1, v2).cycles[0]);
    assert Orbit(v1, v2, 0, 0) == Some(0);
  }

  // ---------------------------------------------------------------------------
  // What the cycles hold: the visited part of v1, and v2 rearranged.
  // ---------------------------------------------------------------------------

  /** The elements of v at the set bits of `visited`. */
  ghost function Marked<T>(v: seq<T>, visited: seq<bool>): multiset<T>
    requires |v| == |visited|
  {
    if |v| == 0 then multiset{}
    else (if visited[0] then multiset{v[0]} else multiset{}) + Marked(v[1..], visited[1..])
  }

  /** Setting a clear bit adds the element at it. */
  lemma {:induction false} MarkedSet<T>(v: seq<T>, visited: seq<bool>, c: nat)
    requires |v| == |visited| && c < |v| && !visited[c]
    ensures Marked(v, visited[c := true]) == Marked(v, visited) + multiset{v[c]}
  {
    if c == 0 {
      assert visited[c := true][1..] == visited[1..];
    } else {
      MarkedSet(v[1..], visited[1..], c - 1);
      assert visited[c := true][1..] == visited[1..][c - 1 := true];
    }
  }

  /** An element added on both sides of a multiset equation can be taken off again. */
  lemma Cancel<T>(a: multiset<T>, c: multiset<T>, b: multiset<T>, r: multiset<T>, x: multiset<T>)
    requires a + (c + x) == (b + x) + r
    ensures a + c == b + r
  {
    forall y ensures (a + c)[y] == (b + r)[y] {
      assert (a + (c + x))[y] == ((b + x) + r)[y];
    }
  }

  /** With every bit set, the marked elements are all of v. */
  lemma {:induction false} MarkedAll<T>(v: seq<T>, visited: seq<bool>)
    requires |v| == |visited| && forall k :: 0 <= k < |visited| ==> visited[k]
    ensures Marked(v, visited) == multiset(v)
  {
    if |v| > 0 {
      assert visited[0];
      assert forall k :: 0 <= k < |visited| - 1 ==> visited[1..][k] == visited[k + 1];
      MarkedAll(v[1..], visited[1..]);
      assert v == [v[0]] + v[1..];
    }
  }

  /** With no bit set, nothing is marked. */
  lemma {:induction false} MarkedNone<T>(v: seq<T>, visited: seq<bool>)
    requires |v| == |visited| && forall k :: 0 <= k < |visited| ==> !visited[k]
    ensures Marked(v, visited) == multiset{}
  {
    if |v| > 0 {
      assert !visited[0];
      assert forall k :: 0 <= k < |visited| - 1 ==> visited[1..][k] == visited[k + 1];
      MarkedNone(v[1..], visited[1..]);
    }
  }

  /** The marked elements are some of v's. */
  lemma {:induction false} MarkedWithin<T>(v: seq<T>, visited: seq<bool>)
    requires |v| == |visited|
    ensures Marked(v, visited) <= multiset(v)
  {
    if |v| > 0 {
      MarkedWithin(v[1..], visited[1..]);
      assert v == [v[0]] + v[1..];
      assert multiset(v) == multiset{v[0]} + multiset(v[1..]);
    }
  }

  /** A walk only sets bits. */
  lemma {:induction false} WalkKeepsMarks<T>(v1: seq<T>, v2: seq<T>, visited: seq<bool>, start: nat, c: nat, cycle: seq<T>)
    requires |v1| == |v2| == |visited| && start < |v1| && c < |v1|
    ensures forall i :: 0 <= i < |visited| && visited[i] ==> Walk(v1, v2, visited, start, c, cycle).visited[i]
    decreases Unvisited(visited)
  {
    if !visited[c] {
      MarkOne(visited, c);
      match IndexOf(v1, v2[c])
      case None =>
      case Some(j) =>
        if j != start {
          WalkKeepsMarks(v1, v2, visited[c := true], start, j, cycle + [v1[c]]);
        }
    }
  }

  /** What a walk adds to its cycle is v1 at the bits it sets. */
  lemma {:induction false} WalkCollects<T>(v1: seq<T>, v2: seq<T>, visited: seq<bool>, start: nat, c: nat, cycle: seq<T>)
    requires |v1| == |v2| == |visited| && start < |v1| && c < |v1|
    ensures Marked(v1, Walk(v1, v2, visited, start, c, cycle).visited) + multiset(cycle)
         == Marked(v1, visited) + multiset(Walk(v1, v2, visited, start, c, cycle).cycle)
    decreases Unvisited(visited)
  {
    if !visited[c] {
      var marked := visited[c := true];
      var grown := cycle + [v1[c]];
      MarkOne(visited, c);
      MarkedSet(v1, visited, c);
      assert multiset(grown) == multiset(cycle) + multiset{v1[c]};
      match IndexOf(v1, v2[c])
      case None =>
        assert Walk(v1, v2, visited, start, c, cycle) == Walked(false, marked, grown);
      case Some(j) =>
        if j == start {
          assert Walk(v1, v2, visited, start, c, cycle) == Walked(true, marked, grown);
        } else {
          var r := Walk(v1, v2, marked, start, j, grown);
          assert Walk(v1, v2, visited, start, c, cycle) == r;
          WalkCollects(v1, v2, marked, start, j, grown);
          Cancel(Marked(v1, r.visited), multiset(cycle), Marked(v1, visited), multiset(r.cycle), multiset{v1[c]});
        }
    }
  }

  /**
   Along a walk that closes, v2 at the bits it sets holds the same elements as
   v1 there: each step's v2 value is v1 at the next position.
   */
  lemma {:induction false} WalkBalances<T>(v1: seq<T>, v2: seq<T>, visited: seq<bool>, start: nat, c: nat, cycle: seq<T>)
    requires |v1| == |v2| == |visited| && start < |v1| && c < |v1|
    requires Marked(v2, visited) + multiset{v1[start]} == Marked(v1, visited) + multiset{v1[c]}
    ensures Walk(v1, v2, visited, start, c, cycle).ok ==>
      Marked(v2, Walk(v1, v2, visited, start, c, cycle).visited) == Marked(v1, Walk(v1, v2, visited, start, c, cycle).visited)
    decreases Unvisited(visited)
  {
    if !visited[c] {
      var marked := visited[c := true];
      var grown := cycle + [v1[c]];
      MarkOne(visited, c);
      MarkedSet(v1, visited, c);
      MarkedSet(v2, visited, c);
      match IndexOf(v1, v2[c])
      case None =>
        assert Walk(v1, v2, visited, start, c, cycle) == Walked(false, marked, grown);
      case Some(j) =>
        IndexOfFinds(v1, v2[c]);
        assert Marked(v2, marked) == Marked(v2, visited) + multiset{v1[j]};
        if j == start {
          assert Walk(v1, v2, visited, start, c, cycle) == Walked(true, marked, grown);
        } else {
          assert Walk(v1, v2, visited, start, c, cycle) == Walk(v1, v2, marked, start, j, grown);
          WalkBalances(v1, v2, marked, start, j, grown);
        }
    }
  }

  /**
   Over a whole decomposition the cycles hold elements at clear bits only, and
   a successful one holds all of them.
   */
  lemma {:induction false} DecomposeCollects<T>(v1: seq<T>, v2: seq<T>, visited: seq<bool>)
    requires |v1| == |v2| == |visited|
    ensures Marked(v1, visited) + multiset(Flatten(Decompose(v1, v2, visited).cycles)) <= multiset(v1)
    ensures Decompose(v1, v2, visited).ok ==>
      Marked(v1, visited) + multiset(Flatten(Decompose(v1, v2, visited).cycles)) == multiset(v1)
    decreases Unvisited(visited)
  {
    var r := Decompose(v1, v2, visited);
    var start := FirstUnvisited(visited);
    if start == |visited| {
      MarkedAll(v1, visited);
      assert r.cycles == [];
    } else {
      var w := Walk(v1, v2, visited, start, start, []);
      WalkCollects(v1, v2, visited, start, start, []);
      assert Marked(v1, visited) + multiset(w.cycle) == Marked(v1, w.visited);
      if w.ok {
        var rest := Decompose(v1, v2, w.visited);
        DecomposeCollects(v1, v2, w.visited);
        FlattenCons(w.cycle, rest.cycles);
        assert multiset(Flatten(r.cycles)) == multiset(w.cycle) + multiset(Flatten(rest.cycles));
      } else {
        MarkedWithin(v1, w.visited);
        FlattenCons(w.cycle, []);
        assert Flatten(r.cycles) == w.cycle;
      }
    }
  }

  /**
   A successful decomposition that starts from a bitset where v2 and v1 mark the
   same elements ends with v2 a rearrangement of v1.
   */
  lemma {:induction false} DecomposeBalances<T>(v1: seq<T>, v2: seq<T>, visited: seq<bool>)
    requires |v1| == |v2| == |visited|
    requires Marked(v2, visited) == Marked(v1, visited)
    ensures Decompose(v1, v2, visited).ok ==> multiset(v2) == multiset(v1)
    decreases Unvisited(visited)
  {
    var start := FirstUnvisited(visited);
    if start == |visited| {
      MarkedAll(v1, visited);
      MarkedAll(v2, visited);
    } else {
      var w := Walk(v1, v2, visited, start, start, []);
      WalkBalances(v1, v2, visited, start, start, []);
      if w.ok {
        DecomposeBalances(v1, v2, w.visited);
      }
    }
  }

  /**
   On success the cycles partition v1's elements (fixed points as one-element
   cycles) and v2 holds the same elements; on failure they hold part of v1.
   */
  lemma CyclesPartition<T>(v1: seq<T>, v2: seq<T>)
    requires |v1| == |v2|
    ensures multiset(Flatten(CycleDecomposition(v1, v2).cycles)) <= multiset(v1)
    ensures CycleDecomposition(v1, v2).ok ==> multiset(Flatten(CycleDecomposition(v1, v2).cycles)) == multiset(v1)
    ensures CycleDecomposition(v1, v2).ok ==> multiset(v2) == multiset(v1)
  {
    var clear := Clear(|v1|);
    forall i | 0 <= i < |v1| ensures !clear[i] {
      ClearIsClear(|v1|, i);
    }
    MarkedNone(v1, clear);
    MarkedNone(v2, clear);
    DecomposeCollects(v1, v2, clear);
    DecomposeBalances(v1, v2, clear);
  }

  /** A value of v2 that v1 lacks makes the decomposition fail. */
  lemma MissingValueFails<T>(v1: seq<T>, v2: seq<T>, i: nat)
    requires |v1| == |v2| && i < |v2| && v2[i] !in v1
    ensures !CycleDecomposition(v1, v2).ok
  {
    assert v2[i] in multiset(v2);
    CyclesPartition(v1, v2);
  }

  // ---------------------------------------------------------------------------
  // When v2 rearranges pairwise distinct elements of v1, nothing fails.
  // ---------------------------------------------------------------------------

  ghost predicate Distinct<T>(v: seq<T>) {
    forall i, j :: 0 <= i < j < |v| ==> v[i] != v[j]
  }

  /** v2 rearranges the pairwise distinct elements of v1. */
  ghost predicate Rearranges<T>(v1: seq<T>, v2: seq<T>) {
    |v1| == |v2| && Distinct(v1) && multiset(v1) == multiset(v2)
  }

  /** Pairwise distinct elements each occur once. */
  lemma {:induction false} DistinctOnce<T>(v: seq<T>, x: T)
    requires Distinct(v)
    ensures multiset(v)[x] <= 1
  {
    if |v| > 0 {
      var front := v[..|v| - 1];
      assert v == front + [v[|v| - 1]];
      DistinctOnce(front, x);
      assert v[|v| - 1] !in front by {
        forall k | 0 <= k < |front| ensures front[k] != v[|v| - 1] {
          assert front[k] == v[k];
        }
      }
    }
  }

  /** A repeated element occurs at least twice. */
  lemma RepeatTwice<T>(v: seq<T>, i: nat, j: nat)
    requires i < j < |v| && v[i] == v[j]
    ensures multiset(v)[v[i]] >= 2
  {
    assert v == v[..j] + [v[j]] + v[j + 1..];
    assert v[..j][i] == v[i];
    assert v[i] in multiset(v[..j]);
  }

  /** A rearrangement of pairwise distinct elements is itself pairwise distinct. */
  lemma RearrangedDistinct<T>(v1: seq<T>, v2: seq<T>)
    requires Rearranges(v1, v2)
    ensures Distinct(v2)
  {
    forall i, j | 0 <= i < j < |v2| ensures v2[i] != v2[j] {
      if v2[i] == v2[j] {
        RepeatTwice(v2, i, j);
        DistinctOnce(v1, v2[i]);
      }
    }
  }

  /** Under a rearrangement every position has a successor. */
  lemma SuccTotal<T>(v1: seq<T>, v2: seq<T>)
    requires Rearranges(v1, v2)
    ensures forall i :: 0 <= i < |v2| ==> Succ(v1, v2, i).Some?
  {
    forall i | 0 <= i < |v2| ensures Succ(v1, v2, i).Some? {
      assert v2[i] in multiset(v2);
      IndexOfFinds(v1, v2[i]);
    }
  }

  /** Under a rearrangement no two positions share a successor. */
  lemma SuccInjective<T>(v1: seq<T>, v2: seq<T>, a: nat, b: nat)
    requires Rearranges(v1, v2) && a < |v2| && b < |v2|
    ensures Succ(v1, v2, a) == Succ(v1, v2, b) ==> a == b
  {
    RearrangedDistinct(v1, v2);
    SuccTotal(v1, v2);
    IndexOfFinds(v1, v2[a]);
    IndexOfFinds(v1, v2[b]);
  }

  /** No clear position steps into a set one: the set bits form whole cycles. */
  ghost predicate Closed<T>(v1: seq<T>, v2: seq<T>, visited: seq<bool>)
    requires |v1| == |v2| == |visited|
  {
    forall i :: 0 <= i < |v1| && Succ(v1, v2, i).Some? && visited[Succ(v1, v2, i).value] ==> visited[i]
  }

  /**
   A walk in progress: it has marked the distinct positions W, each the
   successor of the one before, c is the successor of the last, and outside W
   the marked positions form whole cycles. Then c is neither marked nor in W.
   */
  lemma NextIsClear<T>(v1: seq<T>, v2: seq<T>, visited: seq<bool>, start: nat, c: nat, W: seq<nat>)
    requires |v1| == |v2| == |visited| && start < |v1| && c < |v1|
    requires Rearranges(v1, v2) && Distinct(W)
    requires |W| == 0 ==> c == start && !visited[start]
    requires forall k :: 0 <= k < |W| ==> W[k] < |v1| && visited[W[k]]
    requires |W| > 0 ==> W[0] == start && c != start && Succ(v1, v2, W[|W| - 1]) == Some(c)
    requires forall k :: 0 <= k < |W| - 1 ==> Succ(v1, v2, W[k]) == Some(W[k + 1])
    requires forall i :: (0 <= i < |v1| && Succ(v1, v2, i).Some? && visited[Succ(v1, v2, i).value] && Succ(v1, v2, i).value !in W
      ==> visited[i] && i !in W)
    ensures c !in W && !visited[c]
  {
    forall k | 0 <= k < |W| ensures W[k] != c {
      if k > 0 {
        assert W[k - 1] != W[|W| - 1];
        SuccInjective(v1, v2, W[k - 1], W[|W| - 1]);
      }
    }
    if |W| > 0 {
      assert W[|W| - 1] in W;
    }
  }

  /** When the successor of c is the start, marking c completes a whole cycle. */
  lemma ClosingLeavesCycles<T>(v1: seq<T>, v2: seq<T>, visited: seq<bool>, start: nat, c: nat, W: seq<nat>)
    requires |v1| == |v2| == |visited| && start < |v1| && c < |v1|
    requires Rearranges(v1, v2) && Distinct(W)
    requires |W| == 0 ==> c == start && !visited[start]
    requires forall k :: 0 <= k < |W| ==> W[k] < |v1| && visited[W[k]]
    requires |W| > 0 ==> W[0] == start && c != start && Succ(v1, v2, W[|W| - 1]) == Some(c)
    requires forall k :: 0 <= k < |W| - 1 ==> Succ(v1, v2, W[k]) == Some(W[k + 1])
    requires forall i :: (0 <= i < |v1| && Succ(v1, v2, i).Some? && visited[Succ(v1, v2, i).value] && Succ(v1, v2, i).value !in W
      ==> visited[i] && i !in W)
    requires !visited[c] && c !in W && Succ(v1, v2, c) == Some(start)
    ensures Closed(v1, v2, visited[c := true])
  {
    var marked := visited[c := true];
    forall i | 0 <= i < |v1| && Succ(v1, v2, i).Some? && marked[Succ(v1, v2, i).value]
      ensures marked[i]
    {
      var p := Succ(v1, v2, i).value;
      if p == c {
        if |W| > 0 {
          SuccInjective(v1, v2, i, W[|W| - 1]);
        } else {
          SuccInjective(v1, v2, i, c);
        }
      } else if p in W {
        var k :| 0 <= k < |W| && W[k] == p;
        if k == 0 {
          SuccInjective(v1, v2, i, c);
        } else {
          SuccInjective(v1, v2, i, W[k - 1]);
        }
      }
    }
  }

  /** A walk in progress over a rearrangement succeeds and leaves whole cycles. */
  lemma {:induction false} WalkCloses<T>(v1: seq<T>, v2: seq<T>, visited: seq<bool>, start: nat, c: nat, cycle: seq<T>, W: seq<nat>)
    requires |v1| == |v2| == |visited| && start < |v1| && c < |v1|
    requires Rearranges(v1, v2) && Distinct(W)
    requires |W| == 0 ==> c == start && !visited[start]
    requires forall k :: 0 <= k < |W| ==> W[k] < |v1| && visited[W[k]]
    requires |W| > 0 ==> W[0] == start && c != start && Succ(v1, v2, W[|W| - 1]) == Some(c)
    requires forall k :: 0 <= k < |W| - 1 ==> Succ(v1, v2, W[k]) == Some(W[k + 1])
    requires forall i :: (0 <= i < |v1| && Succ(v1, v2, i).Some? && visited[Succ(v1, v2, i).value] && Succ(v1, v2, i).value !in W
      ==> visited[i] && i !in W)
    ensures Walk(v1, v2, visited, start, c, cycle).ok
    ensures Closed(v1, v2, Walk(v1, v2, visited, start, c, cycle).visited)
    decreases Unvisited(visited)
  {
    NextIsClear(v1, v2, visited, start, c, W);
    SuccTotal(v1, v2);
    var marked := visited[c := true];
    var grown := cycle + [v1[c]];
    MarkOne(visited, c);
    var j := Succ(v1, v2, c).value;
    if j == start {
      ClosingLeavesCycles(v1, v2, visited, start, c, W);
    } else {
      var W' := W + [c];
      forall k | 0 <= k < |W'| - 1 ensures Succ(v1, v2, W'[k]) == Some(W'[k + 1]) {
        if k < |W| - 1 {
          assert W'[k] == W[k] && W'[k + 1] == W[k + 1];
        }
      }
      WalkCloses(v1, v2, marked, start, j, grown, W');
    }
  }

  /** From whole cycles, the rest of a rearrangement decomposes without failure. */
  lemma {:induction false} DecomposeSucceeds<T>(v1: seq<T>, v2: seq<T>, visited: seq<bool>)
    requires |v1| == |v2| == |visited|
    requires Rearranges(v1, v2) && Closed(v1, v2, visited)
    ensures Decompose(v1, v2, visited).ok
    decreases Unvisited(visited)
  {
    var start := FirstUnvisited(visited);
    if start < |visited| {
      WalkCloses(v1, v2, visited, start, start, [], []);
      DecomposeSucceeds(v1, v2, Walk(v1, v2, visited, start, start, []).visited);
    }
  }

  /**
   For pairwise distinct v1 the decomposition succeeds exactly when v2 is a
   rearrangement of v1.
   */
  lemma SucceedsIffRearranges<T>(v1: seq<T>, v2: seq<T>)
    requires |v1| == |v2| && Distinct(v1)
    ensures CycleDecomposition(v1, v2).ok <==> multiset(v1) == multiset(v2)
  {
    CyclesPartition(v1, v2);
    if multiset(v1) == multiset(v2) {
      var clear := Clear(|v1|);
      forall i | 0 <= i < |v1| ensures !clear[i] {
        ClearIsClear(|v1|, i);
      }
      assert Closed(v1, v2, clear);
      DecomposeSucceeds(v1, v2, clear);
    }
  }

  /** No bit of a fresh bitset is set. */
  lemma {:induction false} ClearIsClear(n: nat, i: nat)
    requires i < n
    ensures !Clear(n)[i]
  {
    if i > 0 {
      ClearIsClear(n - 1, i - 1);
    }
  }
}
