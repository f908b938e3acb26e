/**
 * One tick of the minute-by-minute expiry sweep (routes.js:401-428): it
 * selects the `Pending` and `Accepted` bookings whose `expiredAt` is at or
 * before `now`, together with every `Rejected` booking, sets the status of
 * each selected booking that is not `Rejected` to `Available`, and saves
 * them all. Rooms are not touched.
 */
module Sweep {
  import opened Schema
  import opened Conflict

  /** An active booking past its expiry. */
  predicate Expired(b: Booking, now: int) {
    IsActive(b) && b.expiredAt <= now
  }

  /** The sweep's query. */
  predicate Selected(b: Booking, now: int) {
    Expired(b, now) || b.status == Rejected
  }

  /** What the sweep does to one booking. */
  function SweepOne(b: Booking, now: int): (r: Booking)
    ensures r == b.(status := r.status)
    ensures r.status == (if Expired(b, now) then Available else b.status)
  {
    if Selected(b, now) && b.status != Rejected then b.(status := Available) else b
  }

  /** A sweep tick over all bookings. */
  function SweepAll(bs: seq<Booking>, now: int): (r: seq<Booking>)
    ensures |r| == |bs|
    ensures forall i :: 0 <= i < |bs| ==>
              && r[i] == bs[i].(status := r[i].status)
              && r[i].status == (if Expired(bs[i], now) then Available else bs[i].status)
  {
    seq(|bs|, i requires 0 <= i < |bs| => SweepOne(bs[i], now))
  }

  /** How many bookings satisfy `p`, counted from the front. */
  function CountWhere(bs: seq<Booking>, p: Booking -> bool): (n: nat)
    ensures n <= |bs|
  {
    if |bs| == 0 then 0 else (if p(bs[|bs| - 1]) then 1 else 0) + CountWhere(bs[..|bs| - 1], p)
  }

  /** The number of bookings the tick selects and saves. */
  function CountSelected(bs: seq<Booking>, now: int): (n: nat)
    ensures n <= |bs|
  {
    CountWhere(bs, (b: Booking) => Selected(b, now))
  }

  /** Counting one booking further along the sequence. */
  lemma CountSelectedStep(bs: seq<Booking>, i: nat, now: int)
    requires i < |bs|
    ensures CountSelected(bs[..i + 1], now) == CountSelected(bs[..i], now) + (if Selected(bs[i], now) then 1 else 0)
  {
    assert bs[..i + 1][..i] == bs[..i];
  }

  /** The tick reports zero exactly when the query selects no booking, and
      the full length exactly when it selects every booking. */
  lemma {:induction false} CountSelectedZeroOrAll(bs: seq<Booking>, now: int)
    ensures CountSelected(bs, now) == 0 <==> forall i :: 0 <= i < |bs| ==> !Selected(bs[i], now)
    ensures CountSelected(bs, now) == |bs| <==> forall i :: 0 <= i < |bs| ==> Selected(bs[i], now)
  {
    if |bs| > 0 {
      var init := bs[..|bs| - 1];
      CountSelectedZeroOrAll(init, now);
      assert forall i :: 0 <= i < |init| ==> init[i] == bs[i];
    }
  }

  /** The count the tick reports is the expired active bookings plus the
      rejected ones (the two groups are disjoint). */
  lemma {:induction false} CountSelectedSplits(bs: seq<Booking>, now: int)
    ensures CountSelected(bs, now) == CountWhere(bs, (b: Booking) => Expired(b, now)) + CountWhere(bs, (b: Booking) => b.status == Rejected)
  {
    if |bs| > 0 {
      CountSelectedSplits(bs[..|bs| - 1], now);
    }
  }

  /** A tick keeps each booking's room and its validity. */
  lemma SweepKeepsRoomsAndValidity(bs: seq<Booking>, now: int)
    ensures forall i :: 0 <= i < |bs| ==>
              && SweepAll(bs, now)[i].namatempat == bs[i].namatempat
              && (ValidBooking(SweepAll(bs, now)[i]) <==> ValidBooking(bs[i]))
  {
  }

  /** A tick is idempotent: a second tick at the same `now` changes nothing. */
  lemma SweepIdempotent(bs: seq<Booking>, now: int)
    ensures SweepAll(SweepAll(bs, now), now) == SweepAll(bs, now)
  {
    var once := SweepAll(bs, now);
    var twice := SweepAll(once, now);
    forall i | 0 <= i < |bs| ensures twice[i] == once[i] {
      assert !Expired(once[i], now);
    }
  }

  /** After a tick, no active booking is past its expiry, and rejected
      bookings are still rejected. */
  lemma SweepClearsExpired(bs: seq<Booking>, now: int)
    ensures forall i :: 0 <= i < |bs| ==> !Expired(SweepAll(bs, now)[i], now)
    ensures forall i :: 0 <= i < |bs| && bs[i].status == Rejected ==> SweepAll(bs, now)[i].status == Rejected
  {
  }

  /** A tick only deactivates bookings, so it keeps active bookings of a
      room pairwise non-overlapping. */
  lemma SweepPreservesNoActiveOverlap(bs: seq<Booking>, now: int)
    requires NoActiveOverlap(bs)
    ensures NoActiveOverlap(SweepAll(bs, now))
  {
    var r := SweepAll(bs, now);
    forall i, j |
      0 <= i < |r| && 0 <= j < |r| && i != j && IsActive(r[i]) && IsActive(r[j])
      && r[i].namatempat == r[j].namatempat
      ensures !WindowsOverlap(r[i].start, r[i].end, r[j].start, r[j].end)
    {
      assert r[i] == bs[i] && r[j] == bs[j];
    }
  }
}
