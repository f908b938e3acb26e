/**
 * The sweep's write against the booking schema. The sweep saves each
 * expired booking with status "Available", and a save validates the status
 * against the booking enum, which spells that value "Avaliable". Each such
 * save is refused, so as declared the expiry never reaches the store. The
 * rest of the model uses the intended behaviour, with the enum spelled
 * "Available".
 */
module Findings {
  import opened Schema
  import opened Sweep

  /** The booking enum with its fourth value spelled as the sweep writes it. */
  const CorrectedBookingStatusEnum: set<string> := {"Accepted", "Rejected", "Pending", "Available"}

  /** A validated save of `updated` over `stored`: refused, leaving the
      stored booking as it was, when the new status is not in `statusEnum`. */
  function Save(statusEnum: set<string>, stored: Booking, updated: Booking): (r: Booking)
    ensures r == updated || r == stored
    ensures r == updated <==> StatusName(updated.status) in statusEnum || updated == stored
  {
    if StatusName(updated.status) in statusEnum then updated else stored
  }

  /** The bookings after a sweep tick whose saves are validated against `statusEnum`. */
  function PersistedSweep(statusEnum: set<string>, bs: seq<Booking>, now: int): (r: seq<Booking>)
    ensures |r| == |bs|
    // each booking ends as stored or as the sweep meant it; bookings that
    // have not expired are never changed
    ensures forall i :: 0 <= i < |bs| ==> r[i] == bs[i] || r[i] == SweepAll(bs, now)[i]
    ensures forall i :: 0 <= i < |bs| && !Expired(bs[i], now) ==> r[i] == bs[i]
  {
    seq(|bs|, i requires 0 <= i < |bs| => Save(statusEnum, bs[i], SweepOne(bs[i], now)))
  }

  /** As declared, a sweep tick changes no booking at all: every expired
      `Pending` or `Accepted` booking keeps its status. */
  lemma SweepPersistsNothingAsDeclared(bs: seq<Booking>, now: int)
    ensures PersistedSweep(BookingStatusEnum, bs, now) == bs
  {
    var r := PersistedSweep(BookingStatusEnum, bs, now);
    forall i | 0 <= i < |bs| ensures r[i] == bs[i] {
      EnumMembership(SweepOne(bs[i], now).status);
    }
  }

  /** A concrete case: a `Pending` booking that expired at time 0 is still
      `Pending` after a tick at time 0 under the declared enum. */
  lemma ExpiredPendingStaysPending()
    ensures
      var b := Booking("Auditorium", "Rapat", "09:00:00", "10:00:00", "", 0, Pending, 0);
      && Expired(b, 0)
      && SweepOne(b, 0).status == Available
      && PersistedSweep(BookingStatusEnum, [b], 0) == [b]
  {
    var b := Booking("Auditorium", "Rapat", "09:00:00", "10:00:00", "", 0, Pending, 0);
    SweepPersistsNothingAsDeclared([b], 0);
  }

  /** With the corrected enum every status the handlers write is accepted,
      so the stored result of a tick is exactly the intended sweep. */
  lemma SweepPersistsWithCorrectedEnum(bs: seq<Booking>, now: int)
    ensures forall s: Status :: StatusName(s) in CorrectedBookingStatusEnum
    ensures PersistedSweep(CorrectedBookingStatusEnum, bs, now) == SweepAll(bs, now)
  {
    forall s: Status ensures StatusName(s) in CorrectedBookingStatusEnum {
      EnumMembership(s);
    }
    var r := PersistedSweep(CorrectedBookingStatusEnum, bs, now);
    var swept := SweepAll(bs, now);
    forall i | 0 <= i < |bs| ensures r[i] == swept[i] {
      EnumMembership(SweepOne(bs[i], now).status);
    }
  }
}
