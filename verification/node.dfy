/**
 Node bookkeeping shared by A* and IDA*: the OPEN/CLOSED status, the per-node
 record kept in the node registry, and the frontier entry together with the
 flipped comparison that turns `std::priority_queue` into a min-queue.
 */
module NodeRecords {
  import opened Wrappers

  /** A record's status is exactly one of these two. */
  datatype NodeSetType = Open | Closed

  /**
   The registry record of one node. The predecessor is the KEY of the node it was
   reached from (the source stores a pointer into the registry), absent for the
   start node and for every IDA* record.
   */
  datatype NodeInfo<T> = NodeInfo(status: NodeSetType, costToNode: nat, prevNode: Option<T>)

  /** The only way to build a record: given status and cost, no predecessor. */
  function NewNodeInfo<T>(status: NodeSetType, costToNode: nat): (r: NodeInfo<T>)
    ensures r.status == status && r.costToNode == costToNode
    ensures r.prevNode.None?
  {
    NodeInfo(status, costToNode, None)
  }

  /** A frontier entry: a node key and the f-estimate computed when it was pushed. */
  datatype Estimate<T> = Estimate(node: T, cost: nat)

  /** `operator<` of the frontier entry: "less" when the cost is at least as large. */
  predicate EntryLess<T>(a: Estimate<T>, b: Estimate<T>) {
    a.cost >= b.cost
  }

  /**
   An entry a max-queue ordered by `EntryLess` may hand out as its top: no entry
   in the queue is strictly greater than it.
   */
  predicate IsTop<T(==)>(q: multiset<Estimate<T>>, e: Estimate<T>) {
    e in q && forall e' :: e' in q ==> !(EntryLess(e, e') && !EntryLess(e', e))
  }

  /** An entry of least f-estimate in the queue. */
  predicate IsMinEntry<T(==)>(q: multiset<Estimate<T>>, e: Estimate<T>) {
    e in q && forall e' :: e' in q ==> e.cost <= e'.cost
  }

  /** The flipped comparison makes the queue's top exactly an entry of minimal cost. */
  lemma TopIsMinEntry<T>(q: multiset<Estimate<T>>, e: Estimate<T>)
    ensures IsTop(q, e) <==> IsMinEntry(q, e)
  {
  }

  /**
   Entries of equal cost are "less" than each other in both directions, so the
   comparison is not a strict weak order and the pop order among them is unspecified.
   */
  lemma EqualCostsCompareBothWays<T>(a: Estimate<T>, b: Estimate<T>)
    requires a.cost == b.cost
    ensures EntryLess(a, b) && EntryLess(b, a)
  {
  }

  /** Every non-empty frontier has an entry of minimal cost to pop. */
  lemma {:induction false} MinEntryExists<T>(q: multiset<Estimate<T>>)
    requires q != multiset{}
    ensures exists e :: IsMinEntry(q, e)
    decreases |q|
  {
    var x :| x in q;
    var rest := q - multiset{x};
    if rest == multiset{} {
      assert q == multiset{x};
      assert IsMinEntry(q, x);
    } else {
      MinEntryExists(rest);
      var y :| IsMinEntry(rest, y);
      assert q == rest + multiset{x};
      if x.cost <= y.cost {
        assert IsMinEntry(q, x);
      } else {
        assert IsMinEntry(q, y);
      }
    }
  }
}
