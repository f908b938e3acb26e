/**
 * The administrator's status edit, `/edit-booking/:id` (routes.js:314-358).
 * Callers are administrators: the token and role checks run before the
 * handler and are not part of this model.
 */
module Edit {
  import opened Wrappers
  import opened Schema
  import opened Conflict

  datatype EditError = InvalidStatus | BookingNotFound

  /** The decision strings the handler accepts. */
  function ParseDecision(s: string): (r: Option<Status>)
    ensures r.Some? <==> s == "Accepted" || s == "Rejected"
    ensures r.Some? ==> StatusName(r.value) == s
  {
    if s == "Accepted" then Some(Accepted)
    else if s == "Rejected" then Some(Rejected)
    else None
  }

  /** The edit of booking `id` to the requested status. It does not look at
      the booking's current status and does not re-check conflicts. */
  function EditStatus(bs: seq<Booking>, id: nat, status: string): (r: Result<seq<Booking>, EditError>)
    ensures status != "Accepted" && status != "Rejected" ==> r == Err(InvalidStatus)
    ensures (status == "Accepted" || status == "Rejected") && id >= |bs| ==> r == Err(BookingNotFound)
    ensures r.Ok? ==>
              && id < |bs| && |r.value| == |bs|
              && StatusName(r.value[id].status) == status
              && r.value[id] == bs[id].(status := r.value[id].status)
              && forall j :: 0 <= j < |bs| && j != id ==> r.value[j] == bs[j]
  {
    match ParseDecision(status)
    case None => Err(InvalidStatus)
    case Some(s) =>
      if id < |bs| then Ok(bs[id := bs[id].(status := s)]) else Err(BookingNotFound)
  }

  /** Every existing booking can be decided, whatever its current status. */
  lemma EditHasNoStatusGuard(bs: seq<Booking>, id: nat, status: string)
    requires id < |bs| && (status == "Accepted" || status == "Rejected")
    ensures EditStatus(bs, id, status).Ok?
  {
  }

  /** Because the edit does not re-check conflicts, accepting a rejected
      booking can leave two overlapping active bookings on one room. */
  lemma EditCanBreakNoActiveOverlap()
    ensures
      var a := Booking("Auditorium", "A", "09:00:00", "10:00:00", "", 0, Accepted, 0);
      var b := Booking("Auditorium", "B", "09:30:00", "10:30:00", "", 1, Rejected, 0);
      && NoActiveOverlap([a, b])
      && EditStatus([a, b], 1, "Accepted").Ok?
      && !NoActiveOverlap(EditStatus([a, b], 1, "Accepted").value)
  {
    var a := Booking("Auditorium", "A", "09:00:00", "10:00:00", "", 0, Accepted, 0);
    var b := Booking("Auditorium", "B", "09:30:00", "10:30:00", "", 1, Rejected, 0);
    var after := EditStatus([a, b], 1, "Accepted").value;
    assert after[0] == a && after[1].status == Accepted;
    assert WindowsOverlap(after[0].start, after[0].end, after[1].start, after[1].end);
  }
}
