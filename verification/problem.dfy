module Problems {
  /**
   `std::numeric_limits<int>::max()`, the largest cost of the integer cost type.
   IDA* starts each minimum at this value and reads it back as "no path".
   */
  const CostLimit: nat := 0x7FFF_FFFF

  /**
   The inputs every search takes: the start node, the four callbacks (neighbour
   expansion, heuristic cost to goal, edge weight, goal test) and the cost ceiling
   `max_cost`. Costs are natural numbers.
   */
  datatype Problem<!T> = Problem(
    start: T,
    expand: T -> seq<T>,
    h: T -> nat,
    w: (T, T) -> nat,
    isGoal: T -> bool,
    maxCost: nat)
}
