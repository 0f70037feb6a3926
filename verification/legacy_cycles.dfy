/**
 The older, vector-returning `cycle_decomposition`. It walks exactly as the
 current version does, keeps only cycles longer than one element, and hands
 back nothing at all once a walk has failed.
 */
module LegacyCycles {
  import opened Cycles

  /** The cycles longer than one element, in order. */
  function Long<T>(cycles: seq<seq<T>>): (r: seq<seq<T>>)
    ensures |r| <= |cycles|
    ensures forall k :: 0 <= k < |r| ==> |r[k]| > 1
    ensures forall k :: 0 <= k < |r| ==> r[k] in cycles
  {
    if |cycles| == 0 then []
    else if |cycles[0]| > 1 then [cycles[0]] + Long(cycles[1..])
    else Long(cycles[1..])
  }

  /**
   The `while (!visited.all() && cycles_ok)` loop of the legacy version: the
   same walks, with `cycles.push_back(cycle)` only when `cycle.size() > 1`.
   The partial cycle of a failed walk is kept here too; the caller clears it.
   */
  function Gather<T(==)>(v1: seq<T>, v2: seq<T>, visited: seq<bool>): (r: Decomposition<T>)
    requires |v1| == |v2| == |visited|
    ensures forall k :: 0 <= k < |r.cycles| ==> |r.cycles[k]| > 1
    decreases Unvisited(visited)
  {
    var start := FirstUnvisited(visited);
    if start == |visited| then Decomposition(true, [])
    else
      var w := Walk(v1, v2, visited, start, start, []);
      var kept := if |w.cycle| > 1 then [w.cycle] else [];
      if !w.ok then Decomposition(false, kept)
      else
        var rest := Gather(v1, v2, w.visited);
        Decomposition(rest.ok, kept + rest.cycles)
  }

  /** `cycle_decomposition(v1, v2)`: the kept cycles, or none after a failure. */
  function LegacyCycleDecomposition<T(==)>(v1: seq<T>, v2: seq<T>): (r: seq<seq<T>>)
    requires |v1| == |v2|
    ensures forall k :: 0 <= k < |r| ==> |r[k]| > 1
    ensures !Gather(v1, v2, Clear(|v1|)).ok ==> r == []
  {
    var g := Gather(v1, v2, Clear(|v1|));
    if g.ok then g.cycles else []
  }

  lemma LongCons<T>(c: seq<T>, cs: seq<seq<T>>)
    ensures Long([c] + cs) == (if |c| > 1 then [c] else []) + Long(cs)
  {
    assert ([c] + cs)[1..] == cs;
  }

  /**
   The legacy loop makes the same walks as the current one, with the same
   verdict, and keeps exactly its cycles longer than one element.
   */
  lemma {:induction false} GatherKeepsLong<T>(v1: seq<T>, v2: seq<T>, visited: seq<bool>)
    requires |v1| == |v2| == |visited|
    ensures Gather(v1, v2, visited).ok == Decompose(v1, v2, visited).ok
    ensures Gather(v1, v2, visited).cycles == Long(Decompose(v1, v2, visited).cycles)
    decreases Unvisited(visited)
  {
    var start := FirstUnvisited(visited);
    if start < |visited| {
      var w := Walk(v1, v2, visited, start, start, []);
      LongCons(w.cycle, []);
      if w.ok {
        GatherKeepsLong(v1, v2, w.visited);
        LongCons(w.cycle, Decompose(v1, v2, w.visited).cycles);
      }
    }
  }

  /**
   The legacy result is the current decomposition without its fixed points
   when that succeeds, and empty when it fails.
   */
  lemma LegacyDropsFixedPoints<T>(v1: seq<T>, v2: seq<T>)
    requires |v1| == |v2|
    ensures LegacyCycleDecomposition(v1, v2)
         == (if CycleDecomposition(v1, v2).ok then Long(CycleDecomposition(v1, v2).cycles) else [])
  {
    GatherKeepsLong(v1, v2, Clear(|v1|));
  }

  /** Dropping cycles keeps a part of the elements. */
  lemma {:induction false} LongWithin<T>(cycles: seq<seq<T>>)
    ensures multiset(Flatten(Long(cycles))) <= multiset(Flatten(cycles))
  {
    if |cycles| > 0 {
      LongWithin(cycles[1..]);
      FlattenCons(cycles[0], cycles[1..]);
      assert cycles == [cycles[0]] + cycles[1..];
      if |cycles[0]| > 1 {
        FlattenCons(cycles[0], Long(cycles[1..]));
      }
    }
  }

  /**
   The returned cycles never share a position of v1: taken together they hold
   each element of v1 at most as often as v1 does.
   */
  lemma LegacyCyclesDisjoint<T>(v1: seq<T>, v2: seq<T>)
    requires |v1| == |v2|
    ensures multiset(Flatten(LegacyCycleDecomposition(v1, v2))) <= multiset(v1)
  {
    LegacyDropsFixedPoints(v1, v2);
    CyclesPartition(v1, v2);
    LongWithin(CycleDecomposition(v1, v2).cycles);
  }

  /** A value of v2 missing from v1 leaves the legacy result empty. */
  lemma LegacyMissingValueEmpty<T>(v1: seq<T>, v2: seq<T>, i: nat)
    requires |v1| == |v2| && i < |v2| && v2[i] !in v1
    ensures LegacyCycleDecomposition(v1, v2) == []
  {
    LegacyDropsFixedPoints(v1, v2);
    MissingValueFails(v1, v2, i);
  }
}
