/**
 * The winner-bracket builder (`BracketGraph::Graph`): reject sizes that are
 * not powers of two, then grow a complete binary tree breadth-first from a
 * single root seat until the frontier holds `size` seats.
 */
module WinnerTree {
  import opened Wrappers
  import opened Powers
  import opened Seats

  datatype Error = NotPowerOfTwo(size: int)

  /** What `Graph.new` keeps: the root seat of the tree it built. */
  datatype Graph = Graph(root: SeatId)

  /**
   * Seat number `o` (in allocation order) of a tree allocated from heap index
   * `b` once its first `e` seats have been expanded. Breadth-first allocation
   * gives the seat at offset `o` its inputs at offsets 2o+1 and 2o+2.
   */
  function TreeSeat(b: nat, e: nat, o: int): Seat
  {
    Seat(None, None,
         if 0 <= o < e then [b + 2 * o + 1, b + 2 * o + 2] else [],
         if o <= 0 then None else Some(b + (o - 1) / 2))
  }

  /** The seats allocated after expanding `e` seats: the root plus two per expansion. */
  function Tree(b: nat, e: nat): (t: seq<Seat>)
    ensures |t| == 2 * e + 1
  {
    seq(2 * e + 1, o => TreeSeat(b, e, o))
  }

  /** A frontier of `n` seats: the last `n` seats of a tree with `n - 1` expanded ones. */
  function Level(b: nat, n: nat): (l: seq<SeatId>)
    ensures |l| == n
  {
    seq(n, j requires 0 <= j => b + n - 1 + j)
  }

  /** The `from` lists of the frontier's seats, concatenated in frontier order. */
  function InputSeats(h: Heap, frontier: seq<SeatId>): seq<SeatId>
    requires forall i | 0 <= i < |frontier| :: frontier[i] < |h|
  {
    if frontier == [] then []
    else InputSeats(h, frontier[..|frontier| - 1]) + h[frontier[|frontier| - 1]].from
  }

  /** Expanding the next unexpanded seat turns `Tree(b, e)` into `Tree(b, e + 1)`. */
  lemma ExpandNext(h: Heap, e: nat, t: Heap, t': Heap, inputs: seq<SeatId>)
    requires t == h + Tree(|h|, e)
    requires |inputs| == 2 && inputs[0] == |t| && inputs[1] == |t| + 1
    requires |t'| == |t| + 2
    requires t'[..|t|] == t[|h| + e := t[|h| + e].(from := inputs)]
    requires t'[|t|..] == [Unlinked.(to := Some(|h| + e)), Unlinked.(to := Some(|h| + e))]
    ensures t' == h + Tree(|h|, e + 1)
  {
    var b := |h|;
    var goal := h + Tree(b, e + 1);
    forall i | 0 <= i < |t'|
      ensures t'[i] == goal[i]
    {
      if i >= |t| {
        assert t'[i] == t'[|t|..][i - |t|];
      } else {
        assert t'[i] == t'[..|t|][i];
        if b <= i {
          assert goal[i] == TreeSeat(b, e + 1, i - b);
        }
      }
    }
  }

  /**
   * One pass of `inject`: expand every frontier seat in order and collect
   * the new input seats. A frontier of n seats with all seats before it
   * expanded becomes the next frontier of 2n seats (`FrontierStep` shows it
   * is the in-order concatenation of the frontier seats' inputs).
   */
  method ExpandFrontier(h: Heap, t: Heap, frontier: seq<SeatId>) returns (t': Heap, next: seq<SeatId>)
    requires 1 <= |frontier|
    requires t == h + Tree(|h|, |frontier| - 1) && frontier == Level(|h|, |frontier|)
    ensures t' == h + Tree(|h|, 2 * |frontier| - 1)
    ensures next == Level(|h|, 2 * |frontier|)
  {
    var b, n := |h|, |frontier|;
    t', next := t, [];
    for j := 0 to n
      invariant t' == h + Tree(b, n - 1 + j)
      invariant next == Level(b, 2 * n)[..2 * j]
    {
      FrontierAt(b, n, j, frontier);
      var inputs;
      ghost var before := t';
      t', inputs := BuildInputSeats(t', frontier[j]);
      ExpandNext(h, n - 1 + j, before, t', inputs);
      NextLevelPrefix(b, n, j, inputs);
      next := next + inputs;
    }
    assert next == Level(b, 2 * n) by {
      assert Level(b, 2 * n)[..2 * n] == Level(b, 2 * n);
    }
  }

  lemma FrontierAt(b: nat, n: nat, j: nat, frontier: seq<SeatId>)
    requires j < n && frontier == Level(b, n)
    ensures frontier[j] == b + n - 1 + j
  {
  }

  lemma NextLevelPrefix(b: nat, n: nat, j: nat, inputs: seq<SeatId>)
    requires j < n
    requires inputs == [b + 2 * (n - 1 + j) + 1, b + 2 * (n - 1 + j) + 2]
    ensures Level(b, 2 * n)[..2 * j] + inputs == Level(b, 2 * n)[..2 * j + 2]
  {
    var l := Level(b, 2 * n);
    assert l[2 * j] == b + 2 * (n - 1 + j) + 1 && l[2 * j + 1] == b + 2 * (n - 1 + j) + 2;
    assert l[..2 * j + 2] == l[..2 * j] + [l[2 * j], l[2 * j + 1]];
  }

  /**
   * `build_tree`: start from a fresh root; while the frontier is smaller than
   * `size`, replace it with the input seats built under each frontier seat.
   * The result is exactly `Tree(|h|, size - 1)` appended to the heap, and the
   * final frontier is its last `size` seats, in order.
   */
  method BuildTree(h: Heap, size: int) returns (h': Heap, root: SeatId, frontier: seq<SeatId>)
    requires IsPowerOfTwo(size)
    ensures root == |h|
    ensures h' == h + Tree(|h|, size - 1)
    ensures |h'| == |h| + 2 * size - 1
    ensures frontier == Level(|h|, size) && |frontier| == size
  {
    h' := h + [Unlinked];
    root := |h|;
    frontier := [root];
    while |frontier| < size
      invariant IsPowerOfTwo(|frontier|) && |frontier| <= size
      invariant h' == h + Tree(|h|, |frontier| - 1)
      invariant frontier == Level(|h|, |frontier|)
      decreases size - |frontier|
    {
      DoublingStaysWithin(|frontier|, size);
      h', frontier := ExpandFrontier(h, h', frontier);
    }
  }

  /**
   * `Graph.new(size)`: fails, building nothing, exactly when `size` is not a
   * power of two; otherwise builds the tree and keeps its root.
   */
  method NewGraph(h: Heap, size: int) returns (h': Heap, r: Result<Graph, Error>)
    ensures r.Failure? <==> !IsPowerOfTwo(size)
    ensures r.Failure? ==> h' == h && r.error == NotPowerOfTwo(size)
    ensures r.Success? ==> r.value.root == |h| && h' == h + Tree(|h|, size - 1)
  {
    if !IsPowerOfTwo(size) {
      return h, Failure(NotPowerOfTwo(size));
    }
    var root, leaves;
    h', root, leaves := BuildTree(h, size);
    r := Success(Graph(root));
  }

  /**
   * One pass of the loop: the input seats of the frontier of `n` seats, taken
   * in frontier order, are exactly the next frontier of `2 * n` seats. So the
   * frontier doubles and children of earlier seats come first.
   */
  lemma FrontierStep(h: Heap, e: nat, n: nat)
    requires 1 <= n && 2 * n - 1 <= e
    ensures forall i | 0 <= i < n :: Level(|h|, n)[i] < |h + Tree(|h|, e)|
    ensures InputSeats(h + Tree(|h|, e), Level(|h|, n)) == Level(|h|, 2 * n)
  {
    var b, t := |h|, h + Tree(|h|, e);
    forall k | b + n - 1 <= k < b + 2 * n - 1
      ensures t[k].from == [2 * k - b + 1, 2 * k - b + 2]
    {
      TreeAt(h, e, k - b);
    }
    FrontierStepPrefix(t, b, n, n);
    assert Level(b, n)[..n] == Level(b, n);
    assert Level(b, 2 * n)[..2 * n] == Level(b, 2 * n);
  }

  /**
   * Each seat of the frontier of `n` seats, which sit at offsets n-1 .. 2n-2
   * from `b`, has the seats at offsets 2o+1 and 2o+2 as inputs.
   */
  ghost predicate FrontierExpanded(t: Heap, b: nat, n: nat)
    requires b + 2 * n - 1 <= |t|
  {
    forall k | b + n - 1 <= k < b + 2 * n - 1 :: t[k].from == [2 * k - b + 1, 2 * k - b + 2]
  }

  /** `FrontierStep` for the first `j` seats of the frontier. */
  lemma {:induction false} FrontierStepPrefix(t: Heap, b: nat, n: nat, j: nat)
    requires 1 <= n && j <= n && b + 2 * n - 1 <= |t|
    requires FrontierExpanded(t, b, n)
    ensures forall i | 0 <= i < j :: Level(b, n)[..j][i] < |t|
    ensures InputSeats(t, Level(b, n)[..j]) == Level(b, 2 * n)[..2 * j]
  {
    var level, next := Level(b, n), Level(b, 2 * n);
    var f := level[..j];
    if j > 0 {
      FrontierStepPrefix(t, b, n, j - 1);
      assert f[..j - 1] == level[..j - 1];
      assert f[j - 1] == b + n - 1 + (j - 1);
      NextLevelPrefix(b, n, j - 1, t[f[j - 1]].from);
    }
  }

  /** The seat at offset `o` of a tree appended to `h`. */
  lemma TreeAt(h: Heap, e: nat, o: nat)
    requires o < 2 * e + 1
    ensures (h + Tree(|h|, e))[|h| + o] == TreeSeat(|h|, e, o)
  {
  }

  /** With a single seat the loop never runs: the root is the only seat and the whole frontier. */
  lemma SingleSeatTree(b: nat)
    ensures Tree(b, 0) == [Unlinked]
    ensures Level(b, 1) == [b]
  {
  }

  /**
   * After building a tree of `size` leaves every seat is either expanded,
   * with exactly two fresh inputs that both feed it, or it is on the final
   * frontier and has no inputs.
   */
  lemma SeatKinds(b: nat, size: nat, o: nat)
    requires 1 <= size && o < 2 * size - 1
    ensures var t := Tree(b, size - 1);
      (b + o in Level(b, size) <==> t[o].from == []) &&
      (t[o].from != [] ==>
        |t[o].from| == 2 && t[o].from[0] < t[o].from[1] &&
        forall c | c in t[o].from :: b <= c < b + |t| && t[c - b].to == Some(b + o))
  {
    var level := Level(b, size);
    if o >= size - 1 {
      assert level[o - (size - 1)] == b + o;
    } else {
      forall j | 0 <= j < size
        ensures level[j] != b + o
      {
      }
    }
  }

  /**
   * `from` and `to` describe the same edges: `c` is an input of `p` exactly
   * when `p` is the seat `c` feeds.
   */
  lemma FromToAgree(b: nat, e: nat, p: nat, c: nat)
    requires p < 2 * e + 1 && c < 2 * e + 1
    ensures b + c in Tree(b, e)[p].from <==> Tree(b, e)[c].to == Some(b + p)
  {
  }

  /**
   * The tree has exactly one root, the first seat allocated, and every other
   * seat feeds a seat allocated before it, so `to` links never form a cycle.
   */
  lemma SingleRootNoCycle(b: nat, e: nat, o: nat)
    requires o < 2 * e + 1
    ensures Tree(b, e)[o].to == None <==> o == 0
    ensures Tree(b, e)[o].to.Some? ==> b <= Tree(b, e)[o].to.value < b + o
  {
  }
}
