/**
 * The double-elimination composer (`BracketGraph::DoubleEliminationGraph`):
 * it owns a winner graph and a loser graph of the same size, joins their
 * roots under a new grand-final seat, dispatches position lookups to the
 * right sub-graph and exposes the concatenated seat lists.
 */
module DoubleElimination {
  import opened Wrappers
  import opened Powers
  import opened Seats

  /**
   * What the composer uses of a sub-graph (the winner `Graph` or the
   * `LoserGraph`): its size, root, seat lists and its `[]` lookup, which
   * gives the seat at a position, if there is one.
   */
  datatype SubGraph = SubGraph(
    size: nat,
    root: SeatId,
    seats: seq<SeatId>,
    startingSeats: seq<SeatId>,
    lookup: map<int, SeatId>)

  /** Selects the winner or the loser half of the accessor pairs. */
  datatype Side = Winner | Loser

  /** Every seat `g` refers to was allocated before heap index `n`. */
  predicate Below(g: SubGraph, n: nat)
  {
    g.root < n
    && (forall i | 0 <= i < |g.seats| :: g.seats[i] < n)
    && (forall i | 0 <= i < |g.startingSeats| :: g.startingSeats[i] < n)
    && (forall p | p in g.lookup :: g.lookup[p] < n)
  }

  /**
   * `graph[position]` on a sub-graph; a seat it finds lies below every
   * bound the sub-graph lies below.
   */
  function Find(g: SubGraph, position: int): (r: Option<SeatId>)
    ensures forall n: nat | Below(g, n) :: r.Some? ==> r.value < n
  {
    if position in g.lookup then Some(g.lookup[position]) else None
  }

  /** The grand final's round, `2 * Math.log2(size).to_i - 1`. */
  function FinalRound(size: int): int
    requires size >= 1
  {
    2 * Log2(size) - 1
  }

  /**
   * For a bracket of 2^k entrants the grand final is in round 2k - 1; for 8
   * entrants that is round 5.
   */
  lemma FinalRoundOfPow2(k: nat)
    ensures FinalRound(Pow2(k)) == 2 * k - 1
  {
    Log2OfPow2(k);
  }

  class DoubleEliminationGraph {
    var heap: Heap
    var winnerGraph: SubGraph
    var loserGraph: SubGraph
    var root: SeatId

    /**
     * Both sub-graphs have the same size, have distinct roots and live below
     * the grand final, which is the last seat allocated, feeds nothing, is
     * fed by the two sub-graph roots in the order winner, loser, and is fed
     * back by them.
     */
    ghost predicate Valid()
      reads this
    {
      winnerGraph.size >= 1 && loserGraph.size == winnerGraph.size
      && winnerGraph.root != loserGraph.root
      && root + 1 == |heap|
      && Below(winnerGraph, root) && Below(loserGraph, root)
      && heap[root] == Seat(Some(2 * winnerGraph.size), Some(FinalRound(winnerGraph.size)),
                            [winnerGraph.root, loserGraph.root], None)
      && heap[winnerGraph.root].to == Some(root)
      && heap[loserGraph.root].to == Some(root)
    }

    /**
     * `DoubleEliminationGraph.new(size)`, given the heap in which
     * `Graph.new(size)` and `LoserGraph.new(size)` built `winner` and `loser`.
     * Apart from the two roots now feeding the new grand final, no seat changes.
     */
    constructor (h: Heap, size: int, winner: SubGraph, loser: SubGraph)
      requires size >= 1 && winner.size == size && loser.size == size
      requires Below(winner, |h|) && Below(loser, |h|)
      requires winner.root != loser.root
      ensures Valid()
      ensures heap[root].from[0] != heap[root].from[1]
      ensures winnerGraph == winner && loserGraph == loser
      ensures root == |h| && |heap| == |h| + 1
      ensures heap[root].position == Some(2 * size) && heap[root].round == Some(FinalRound(size))
      ensures forall i | 0 <= i < |h| ::
        heap[i] == if i == winner.root || i == loser.root then h[i].(to := Some(root)) else h[i]
    {
      winnerGraph := winner;
      loserGraph := loser;
      heap := h;
      root := |h|;
      new;
      BuildFinalSeat();
    }

    /**
     * `build_final_seat`: allocate the grand final at position `2 * size`,
     * append both sub-graph roots to its `from`, then point each of them at it.
     */
    method BuildFinalSeat()
      requires winnerGraph.size >= 1
      requires Below(winnerGraph, |heap|) && Below(loserGraph, |heap|)
      requires winnerGraph.root != loserGraph.root
      modifies this
      ensures winnerGraph == old(winnerGraph) && loserGraph == old(loserGraph)
      ensures root == |old(heap)| && |heap| == root + 1
      ensures heap[root] == Seat(Some(2 * winnerGraph.size), Some(FinalRound(winnerGraph.size)),
                                 [winnerGraph.root, loserGraph.root], None)
      ensures forall i | 0 <= i < root ::
        heap[i] == if i in heap[root].from then old(heap)[i].(to := Some(root)) else old(heap)[i]
    {
      ghost var before := heap;
      root := |heap|;
      heap := heap + [Seat(Some(winnerGraph.size * 2), Some(FinalRound(winnerGraph.size)), [], None)];
      heap := heap[root := heap[root].(from := heap[root].from + [winnerGraph.root, loserGraph.root])];
      var from := heap[root].from;
      ghost var final := heap[root];
      for i := 0 to |from|
        invariant winnerGraph == old(winnerGraph) && loserGraph == old(loserGraph)
        invariant root == |before| && |heap| == root + 1 && heap[root] == final
        invariant forall k | 0 <= k < root ::
          heap[k] == if k in from[..i] then before[k].(to := Some(root)) else before[k]
      {
        heap := heap[from[i] := heap[from[i]].(to := Some(root))];
      }
    }

    /**
     * `winner_graph` / `loser_graph`: a sub-graph of the composed size, lying
     * below the grand final, whose root is the grand final's first (winner)
     * or second (loser) input and feeds the grand final.
     */
    function SubGraphOf(side: Side): (g: SubGraph)
      reads this
      requires Valid()
      ensures g.size == Size()
      ensures Below(g, root)
      ensures g.root == heap[root].from[if side == Winner then 0 else 1]
      ensures heap[g.root].to == Some(root)
    {
      match side
      case Winner => winnerGraph
      case Loser => loserGraph
    }

    /** `size`: the winner graph's size, which is also the loser graph's. */
    function Size(): (n: nat)
      reads this
      requires Valid()
      ensures n >= 1 && n == loserGraph.size
      ensures heap[root].position == Some(2 * n)
    {
      winnerGraph.size
    }

    /**
     * `winner_root` / `loser_root`: the first and second seat feeding the
     * grand final; each feeds the grand final back.
     */
    function RootOf(side: Side): (r: SeatId)
      reads this
      requires Valid()
      ensures r == heap[root].from[if side == Winner then 0 else 1]
      ensures r < root && heap[r].to == Some(root)
    {
      SubGraphOf(side).root
    }

    /** `winner_seats` / `loser_seats`: the sub-graph's list, unchanged. */
    function SeatsOf(side: Side): (r: seq<SeatId>)
      reads this
      requires Valid()
      ensures r == SubGraphOf(side).seats
      ensures forall i | 0 <= i < |r| :: r[i] < root
    {
      SubGraphOf(side).seats
    }

    /** `winner_starting_seats` / `loser_starting_seats`: the sub-graph's list, unchanged. */
    function StartingSeatsOf(side: Side): (r: seq<SeatId>)
      reads this
      requires Valid()
      ensures r == SubGraphOf(side).startingSeats
      ensures forall i | 0 <= i < |r| :: r[i] < root
    {
      SubGraphOf(side).startingSeats
    }

    /**
     * `seats`: the winner seats followed by the loser seats; the grand final
     * itself is not among them.
     */
    function Seats(): (r: seq<SeatId>)
      reads this
      requires Valid()
      ensures |r| == |SeatsOf(Winner)| + |SeatsOf(Loser)|
      ensures r[..|SeatsOf(Winner)|] == SeatsOf(Winner)
      ensures r[|SeatsOf(Winner)|..] == SeatsOf(Loser)
      ensures root !in r
    {
      SeatsOf(Winner) + SeatsOf(Loser)
    }

    /**
     * `starting_seats`: the winner starting seats followed by the loser
     * starting seats, nothing added or dropped.
     */
    function StartingSeats(): (r: seq<SeatId>)
      reads this
      requires Valid()
      ensures |r| == |StartingSeatsOf(Winner)| + |StartingSeatsOf(Loser)|
      ensures r[..|StartingSeatsOf(Winner)|] == StartingSeatsOf(Winner)
      ensures r[|StartingSeatsOf(Winner)|..] == StartingSeatsOf(Loser)
      ensures multiset(r) == multiset(StartingSeatsOf(Winner)) + multiset(StartingSeatsOf(Loser))
      ensures root !in r
    {
      StartingSeatsOf(Winner) + StartingSeatsOf(Loser)
    }

    /**
     * `graph[position]`: the grand final at its own position, the winner
     * graph's answer below it and the loser graph's answer above it.
     */
    function At(position: int): (r: Option<SeatId>)
      reads this
      requires Valid()
      ensures position < 2 * Size() ==> r == Find(winnerGraph, position)
      ensures position > 2 * Size() ==> r == Find(loserGraph, position)
      ensures r == Some(root) <==> position == 2 * Size()
      ensures r.Some? ==> r.value < |heap|
    {
      var rootPosition := heap[root].position.value;
      if position == rootPosition then Some(root)
      else if position < rootPosition then Find(winnerGraph, position)
      else Find(loserGraph, position)
    }

    /**
     * `seed(*args)`: hands its arguments to the `seed` of the winner bracket,
     * the sub-graph of the composed size whose root is the grand final's
     * first input, and returns what it returns. The sub-graph's own `seed`
     * is given here as `seed`.
     */
    function Seed<A, R>(seed: (SubGraph, A) -> R, args: A): (r: R)
      reads this
      requires Valid()
      ensures exists g: SubGraph | g.root == heap[root].from[0] && g.size == Size() && Below(g, root) ::
        r == seed(g, args)
    {
      var g := SubGraphOf(Winner);
      assert g.root == heap[root].from[0] && g.size == Size() && Below(g, root);
      seed(g, args)
    }

    /**
     * When each sub-graph lists its starting seats among its seats, so does
     * the composed graph.
     */
    lemma StartingSeatsAreSeats()
      requires Valid()
      requires forall s | s in winnerGraph.startingSeats :: s in winnerGraph.seats
      requires forall s | s in loserGraph.startingSeats :: s in loserGraph.seats
      ensures forall s | s in StartingSeats() :: s in Seats()
    {
    }
  }
}
