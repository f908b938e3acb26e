/**
 * Runs of the two operations that change bookings without an administrator:
 * `/book-room` requests and expiry sweep ticks, in any interleaving.
 */
module Traces {
  import opened Wrappers
  import opened Schema
  import opened Conflict
  import opened Admission
  import opened Sweep

  datatype Op =
    | Book(req: BookRequest, userId: nat, dayStart: int)
    | Tick(now: int)

  /** One operation; a refused request leaves the store as it was. */
  function Step(st: StoreState, op: Op): StoreState {
    match op
    case Book(req, userId, dayStart) =>
      (match Admit(st, req, userId, dayStart)
       case Ok(next) => next
       case Err(_) => st)
    case Tick(now) => st.(bookings := SweepAll(st.bookings, now))
  }

  function Run(st: StoreState, ops: seq<Op>): StoreState
    decreases |ops|
  {
    if ops == [] then st else Run(Step(st, ops[0]), ops[1..])
  }

  /** Starting from a store whose active bookings of each room are pairwise
      non-overlapping, any sequence of booking requests and sweep ticks keeps
      them so. */
  lemma {:induction false} RunPreservesNoActiveOverlap(st: StoreState, ops: seq<Op>)
    requires NoActiveOverlap(st.bookings)
    ensures NoActiveOverlap(Run(st, ops).bookings)
    decreases |ops|
  {
    if ops != [] {
      match ops[0] {
        case Book(req, userId, dayStart) =>
          if Admit(st, req, userId, dayStart).Ok? {
            AdmitPreservesNoActiveOverlap(st, req, userId, dayStart);
          }
        case Tick(now) =>
          SweepPreservesNoActiveOverlap(st.bookings, now);
      }
      RunPreservesNoActiveOverlap(Step(st, ops[0]), ops[1..]);
    }
  }

  /** Bookings are never removed: a run only appends to the booking sequence,
      and each earlier booking keeps everything but its status. */
  lemma {:induction false} RunKeepsBookings(st: StoreState, ops: seq<Op>)
    ensures var bs := Run(st, ops).bookings;
            && |st.bookings| <= |bs|
            && forall i :: 0 <= i < |st.bookings| ==> bs[i] == st.bookings[i].(status := bs[i].status)
    decreases |ops|
  {
    if ops != [] {
      var next := Step(st, ops[0]);
      RunKeepsBookings(next, ops[1..]);
      assert |st.bookings| <= |next.bookings|;
      assert forall i :: 0 <= i < |st.bookings| ==> next.bookings[i] == st.bookings[i].(status := next.bookings[i].status);
    }
  }
}
