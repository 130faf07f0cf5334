# bracket_graph core, modelled in Dafny

This project models the two pieces of bracket-building logic at the heart of
the `bracket_graph` Ruby library:

- **`BracketGraph::Graph`**, the winner-bracket builder. It refuses any size
  that is not a power of two. Otherwise it grows a complete binary tree of
  seats breadth-first from a single root seat: each pass replaces the current
  frontier with the two input seats built under every frontier seat, until
  the frontier holds `size` seats.
- **`BracketGraph::DoubleEliminationGraph`**, the double-elimination
  composer. It owns a winner graph and a loser graph of the same size. It
  creates a grand-final seat at position `2 * size`, in round
  `2 * log2(size) - 1`, fed by the winner root and then the loser root, and
  points both roots at it. It dispatches lookups by position three ways and
  exposes the concatenated seat lists.

Seats are records in an arena (`Seats.Heap`, a sequence of `Seat`). A Ruby
object reference is an index into that arena, and allocating a seat appends
it. A seat holds an optional position, an optional round, the indices of the
seats feeding it (`from`) and the optional index of the seat it feeds (`to`).

`WinnerTree.BuildTree` is the imperative loop of `build_tree`. Its `while`
is the frontier loop. `WinnerTree.ExpandFrontier` is one `inject`/`concat`
pass, a `for` loop over the frontier. Both are proved against
`WinnerTree.Tree(b, e)`, a closed form of the arena after `e` expansions. Breadth-first allocation puts the inputs of the
seat at offset `o` at offsets `2o+1` and `2o+2`. The lemmas about `Tree`
state the shape of the result. The composer is a class whose constructor
calls `BuildFinalSeat`, as in the source. Its read-only members are
functions over the object's fields.

Modules: `Wrappers` (Option, Result), `Powers` (integer power-of-two test
and logarithm), `Seats` (seat records and the seat expansion),
`WinnerTree` (graph.rb) and `DoubleElimination`
(double_elimination_graph.rb).

Where the repository's tests and its code disagree, the model follows the code:

- The grand final's round is `2 * Math.log2(size).to_i - 1`, which is 5 for
  8 entrants (`DoubleElimination.FinalRoundOfPow2`). The test at
  spec/lib/bracket_graph/double_elimination_graph_spec.rb:35 expects 6. That
  value belongs to a round-synchronisation step that this code does not have.
- `seats` is the winner seats followed by the loser seats, without the grand
  final (`DoubleElimination.DoubleEliminationGraph.Seats` proves the root is
  absent). The tests at
  spec/lib/bracket_graph/double_elimination_graph_spec.rb:92 and :97 expect
  the root to be included.

## Model

| member | source | states |
|---|---|---|
| `Powers.Log2` | lib/bracket_graph/double_elimination_graph.rb:64 | `Math.log2(n).to_i` for n ≥ 1: the k with 2^k ≤ n < 2^(k+1) |
| `Powers.PowerOfTwoIff` | lib/bracket_graph/graph.rb:6 | the integer power-of-two test holds exactly when n ≥ 1 and 2^(log2 n) = n, i.e. when log2 has no fractional part |
| `Powers.Log2OfPow2` | lib/bracket_graph/graph.rb:6 | every 2^k passes the size guard, and its logarithm is exactly k |
| `Powers.DoublingStaysWithin` | lib/bracket_graph/graph.rb:15 | a power of two below the power-of-two size doubles to a power of two that is still at most the size, so the loop ends on exactly `size` and never overshoots |
| `Seats.BuildInputSeats` | lib/bracket_graph/graph.rb:17 | expanding a seat allocates two fresh seats, returned in order; they become its `from`, each has `to` equal to it, and no other seat changes |
| `WinnerTree.BuildTree` | lib/bracket_graph/graph.rb:12-20 | the root is a fresh seat; the loop terminates; the arena gains exactly the complete tree `Tree(b, size-1)`, which is 2·size−1 seats, and nothing else changes; the final frontier is its last `size` seats in allocation order |
| `WinnerTree.ExpandFrontier` | lib/bracket_graph/graph.rb:16-18 | expanding each seat of a frontier of n seats in order turns the tree with n−1 expanded seats into the tree with 2n−1 expanded seats, and the collected seats are the next frontier of 2n seats |
| `WinnerTree.NewGraph` | lib/bracket_graph/graph.rb:5-8 | fails with a not-power-of-two error, leaving the arena untouched, exactly when size is not a power of two; otherwise builds the tree and keeps its root |
| `WinnerTree.FrontierStep` | lib/bracket_graph/graph.rb:16-18 | one pass maps a frontier of n seats to the in-order concatenation of their input seats, which is the next frontier of 2n seats; children of earlier seats come first |
| `WinnerTree.SingleSeatTree` | lib/bracket_graph/graph.rb:13-15 | for size 1 the loop body never runs: the arena gains one unlinked seat, which is also the whole frontier |
| `WinnerTree.SeatKinds` | lib/bracket_graph/graph.rb:15-19 | every seat of the built tree is either on the final frontier and has no inputs, or has exactly two distinct inputs in the tree, both feeding it |
| `WinnerTree.FromToAgree` | lib/bracket_graph/graph.rb:17 | in the built tree, c is in p's `from` exactly when c's `to` is p |
| `WinnerTree.SingleRootNoCycle` | lib/bracket_graph/graph.rb:13-19 | only the first seat has no `to`; every other seat feeds one allocated before it, so the `to` links form no cycle |
| `DoubleElimination.FinalRoundOfPow2` | lib/bracket_graph/double_elimination_graph.rb:64 | for 2^k entrants the grand final is in round 2k−1 (5 for 8 entrants) |
| `DoubleElimination.DoubleEliminationGraph.constructor` | lib/bracket_graph/double_elimination_graph.rb:6-10 | keeps both same-size sub-graphs unchanged, requires their roots to be distinct seats (they come from two separate `new` calls) so the grand final has two different inputs, adds the grand final as a fresh seat at position 2·size and round 2·log2(size)−1, and changes no other seat except the two sub-graph roots' `to` |
| `DoubleElimination.DoubleEliminationGraph.BuildFinalSeat` | lib/bracket_graph/double_elimination_graph.rb:63-67 | the new root is the next fresh seat, its `from` is exactly [winner root, loser root] in that order, and each of these two now has the root as its `to` |
| `DoubleElimination.DoubleEliminationGraph.SubGraphOf` | lib/bracket_graph/double_elimination_graph.rb:4 | `winner_graph` / `loser_graph` give a sub-graph of the composed size, lying below the grand final, whose root is the grand final's first (winner) or second (loser) input and has the grand final as its `to` |
| `DoubleElimination.DoubleEliminationGraph.Size` | lib/bracket_graph/double_elimination_graph.rb:21-23 | the winner graph's size, which equals the loser graph's size; the grand final sits at twice it |
| `DoubleElimination.DoubleEliminationGraph.RootOf` | lib/bracket_graph/double_elimination_graph.rb:33-35 | `winner_root` (and `loser_root`, lines 45-47) is the first (second) seat feeding the grand final, and it feeds the grand final |
| `DoubleElimination.DoubleEliminationGraph.SeatsOf` | lib/bracket_graph/double_elimination_graph.rb:29-31 | `winner_seats` (and `loser_seats`, lines 41-43) is the sub-graph's list unchanged, all allocated before the grand final |
| `DoubleElimination.DoubleEliminationGraph.StartingSeatsOf` | lib/bracket_graph/double_elimination_graph.rb:25-27 | `winner_starting_seats` (and `loser_starting_seats`, lines 37-39) is the sub-graph's list unchanged, all allocated before the grand final |
| `DoubleElimination.DoubleEliminationGraph.Seats` | lib/bracket_graph/double_elimination_graph.rb:49-51 | winner seats followed by loser seats, nothing else; the grand final is not included |
| `DoubleElimination.DoubleEliminationGraph.StartingSeats` | lib/bracket_graph/double_elimination_graph.rb:53-55 | winner starting seats followed by loser starting seats, as a multiset their union, nothing added or dropped |
| `DoubleElimination.DoubleEliminationGraph.At` | lib/bracket_graph/double_elimination_graph.rb:12-19 | returns the grand final exactly at position 2·size; below it the winner graph's lookup, above it the loser graph's lookup; exactly one branch applies |
| `DoubleElimination.DoubleEliminationGraph.Seed` | lib/bracket_graph/double_elimination_graph.rb:57-59 | returns what `seed` gives for the winner bracket: a sub-graph of the composed size, below the grand final, whose root is the grand final's first input (distinct from the loser root) |
| `DoubleElimination.DoubleEliminationGraph.StartingSeatsAreSeats` | lib/bracket_graph/double_elimination_graph.rb:49-55 | if each sub-graph lists its starting seats among its seats, every composed starting seat is among the composed seats |

## Left out

- Seat internals (`Seat.new` defaults, `build_input_match`, `build_input_seats`, position and round assignment): Seat's source is not part of this model. A seat made by `Seat.new` without arguments has no position or round here, and expanding a seat is taken to be "two fresh input seats, linked both ways".
- `LoserGraph` and the rest of `Graph` (`size`, `seats`, `starting_seats`, `[]`, `seed`): not part of this model. The composer receives both sub-graphs as `SubGraph` values (size, root, seat lists, a position-to-seat map) built in the arena it is given, both with the requested size. A lookup miss is `None`, since the sub-graphs' own miss behaviour is not part of this model.
- `DoubleElimination.DoubleEliminationGraph.constructor`: `Graph.new` and `LoserGraph.new` run before the constructor, so the error for a size that is not a power of two is modelled on `WinnerTree.NewGraph`, and the constructor requires only size ≥ 1, same-size sub-graphs and distinct sub-graph roots.
- `DoubleElimination.DoubleEliminationGraph.Seed`: the contract identifies the graph handed to `seed` by its size, its place below the grand final and its root (the grand final's first input), not by its full seat lists and lookup.
- The `seed` ordering of the winner graph is a call into code that is not part of this model; `Seed` takes it as a function parameter.
- Floating-point `Math.log2`: replaced by the exact integer test `IsPowerOfTwo` and the floor logarithm `Log2`. Rounding for very large sizes, NaN for size 0 and `Math::DomainError` for negative sizes are not modelled; every size below 1 is simply refused by `NewGraph`.
- Round synchronisation, `loser_to` assignment and the `classic` / `alternate_half_reverse` seeding styles: the repository's tests exercise them, but the modelled code does not implement them.
- `Marshal` dump/load and `as_json`: generic host serialisation, not part of the core.
- Object identity and aliasing: seats are arena indices, so two Ruby references to one seat are one index.
