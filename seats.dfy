/**
 * Seats and the arena they live in. A Ruby `Seat` object is an entry of a
 * `Heap`; object references are indices into it.
 */
module Seats {
  import opened Wrappers

  type SeatId = nat

  /**
   * A seat: its position and round (unset until a builder assigns them),
   * the seats that feed it (`from`) and the seat it feeds (`to`).
   */
  datatype Seat = Seat(position: Option<int>, round: Option<int>, from: seq<SeatId>, to: Option<SeatId>)

  /** All seats allocated so far; a fresh seat is appended at the end. */
  type Heap = seq<Seat>

  /** `Seat.new` without arguments: no position, no round, no links. */
  const Unlinked := Seat(None, None, [], None)

  /**
   * `seat.build_input_match.build_input_seats`: allocate two fresh seats
   * feeding `s`, link them to `s` in both directions and return them in order.
   */
  method BuildInputSeats(h: Heap, s: SeatId) returns (h': Heap, inputs: seq<SeatId>)
    requires s < |h|
    ensures |inputs| == 2 && inputs[0] == |h| && inputs[1] == |h| + 1
    ensures |h'| == |h| + 2
    ensures h'[..|h|] == h[s := h[s].(from := inputs)]
    ensures h'[|h|..] == [Unlinked.(to := Some(s)), Unlinked.(to := Some(s))]
  {
    inputs := [|h|, |h| + 1];
    var input := Unlinked.(to := Some(s));
    h' := h[s := h[s].(from := inputs)] + [input, input];
  }
}
