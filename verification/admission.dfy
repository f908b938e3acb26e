/**
 * Admission of a booking request, the logic of `/book-room`
 * (routes.js:154-244), as a function from the store's contents to the new
 * contents or an error.
 */
module Admission {
  import opened Wrappers
  import opened TimeFormat
  import opened Schema
  import opened Conflict

  /** The rooms and bookings the handlers read and write. */
  datatype StoreState = StoreState(rooms: seq<Room>, bookings: seq<Booking>)

  /** The request body of `/book-room`; an absent time field is `None`. */
  datatype BookRequest = BookRequest(
    namatempat: string,
    nama: string,
    start: Option<string>,
    end: Option<string>,
    detail: string)

  /** The ways `/book-room` fails. `MalformedTimes` and `ValidationFailed`
      are the handler's generic failure response, raised when the time
      fields cannot be read and when the schema refuses the new booking. */
  datatype BookError = MissingRoomName | MalformedTimes | RoomNotFound | RoomUnavailable | ValidationFailed

  /** The one-minute grace period after a booking's end. */
  const GraceSeconds: int := 60

  /** The position of the room with the given name, found by scanning in order. */
  function FindRoom(rooms: seq<Room>, namatempat: string): (r: Option<nat>)
    ensures r.Some? ==> r.value < |rooms| && rooms[r.value].namatempat == namatempat
    ensures r.None? <==> forall i :: 0 <= i < |rooms| ==> rooms[i].namatempat != namatempat
  {
    if |rooms| == 0 then None
    else if rooms[0].namatempat == namatempat then Some(0)
    else
      match FindRoom(rooms[1..], namatempat)
      case None =>
        assert forall i :: 1 <= i < |rooms| ==> rooms[i] == rooms[1..][i - 1];
        None
      case Some(k) => Some(k + 1)
  }

  /** The booking `/book-room` saves: the schema's default status, and an
      expiry one minute after the window's end on the day that starts at
      `dayStart`. */
  function NewBooking(req: BookRequest, userId: nat, dayStart: int): (b: Booking)
    requires req.start.Some? && req.end.Some? && IsTimeFormat(req.end.value)
    ensures IsActive(b) && b.status == DefaultBookingStatus
    // it expires one minute after its end, so within a day and a minute of `dayStart`
    ensures b.end == req.end.value && dayStart + Seconds(b.end) < b.expiredAt
    ensures dayStart + GraceSeconds <= b.expiredAt < dayStart + SecondsPerDay + GraceSeconds
    ensures req.namatempat != "" && req.nama != "" && IsTimeFormat(req.start.value) <==> ValidBooking(b)
  {
    Booking(req.namatempat, req.nama, req.start.value, req.end.value, req.detail, userId,
            DefaultBookingStatus, dayStart + Seconds(req.end.value) + GraceSeconds)
  }

  /** `/book-room` for the user `userId` on the day starting at `dayStart`. */
  function Admit(st: StoreState, req: BookRequest, userId: nat, dayStart: int): (r: Result<StoreState, BookError>)
    // the name check comes first, and an unknown room is reported before any conflict check
    ensures req.namatempat == "" ==> r == Err(MissingRoomName)
    ensures req.namatempat != "" && (req.start.None? || req.end.None?) ==> r == Err(MalformedTimes)
    ensures req.namatempat != "" && req.start.Some? && req.end.Some?
            && (forall i :: 0 <= i < |st.rooms| ==> st.rooms[i].namatempat != req.namatempat)
            ==> r == Err(RoomNotFound)
    // refused for a conflict exactly when a known room has a blocking booking
    ensures r == Err(RoomUnavailable) <==>
              && req.namatempat != "" && req.start.Some? && req.end.Some?
              && (exists i :: 0 <= i < |st.rooms| && st.rooms[i].namatempat == req.namatempat)
              && (exists i :: 0 <= i < |st.bookings| && Blocks(st.bookings[i], req.namatempat, req.start.value, req.end.value))
    // admitted exactly when every check passes and the schema accepts the booking
    ensures r.Ok? <==>
              && req.namatempat != "" && req.start.Some? && req.end.Some?
              && HasRoom(st.rooms, req.namatempat)
              && (forall i :: 0 <= i < |st.bookings| ==> !Blocks(st.bookings[i], req.namatempat, req.start.value, req.end.value))
              && req.nama != "" && IsTimeFormat(req.start.value) && IsTimeFormat(req.end.value)
    // refused by the schema exactly when the checks pass but a field is invalid
    ensures r == Err(ValidationFailed) <==>
              && req.namatempat != "" && req.start.Some? && req.end.Some?
              && HasRoom(st.rooms, req.namatempat)
              && (forall i :: 0 <= i < |st.bookings| ==> !Blocks(st.bookings[i], req.namatempat, req.start.value, req.end.value))
              && !(req.nama != "" && IsTimeFormat(req.start.value) && IsTimeFormat(req.end.value))
    // admitted: exactly one valid Pending booking appended, its room marked Pending
    ensures r.Ok? ==>
              && req.start.Some? && req.end.Some?
              && (forall i :: 0 <= i < |st.bookings| ==> !Blocks(st.bookings[i], req.namatempat, req.start.value, req.end.value))
              && |r.value.bookings| == |st.bookings| + 1
              && r.value.bookings[..|st.bookings|] == st.bookings
              && var b := r.value.bookings[|st.bookings|];
              && ValidBooking(b)
              && b.namatempat == req.namatempat && b.nama == req.nama && b.userId == userId
              && b.start == req.start.value && b.end == req.end.value && b.detail == req.detail
              && b.status == Pending
              && b.expiredAt == dayStart + Seconds(b.end) + 60
    ensures r.Ok? ==>
              && |r.value.rooms| == |st.rooms|
              && exists k :: 0 <= k < |st.rooms| && st.rooms[k].namatempat == req.namatempat
                             && r.value.rooms == st.rooms[k := Room(req.namatempat, Pending)]
  {
    if req.namatempat == "" then Err(MissingRoomName)
    else if req.start.None? || req.end.None? then Err(MalformedTimes)
    else
      match FindRoom(st.rooms, req.namatempat)
      case None => Err(RoomNotFound)
      case Some(k) =>
        if HasConflict(st.bookings, req.namatempat, req.start.value, req.end.value) then Err(RoomUnavailable)
        else if !(req.nama != "" && IsTimeFormat(req.start.value) && IsTimeFormat(req.end.value)) then
          Err(ValidationFailed)
        else
          var b := NewBooking(req, userId, dayStart);
          assert (st.bookings + [b])[..|st.bookings|] == st.bookings;
          Ok(StoreState(st.rooms[k := st.rooms[k].(status := Pending)], st.bookings + [b]))
  }

  /** With unique room names, an admission marks `Pending` the room named in
      the request and no other. */
  lemma AdmitMarksOnlyThatRoom(st: StoreState, req: BookRequest, userId: nat, dayStart: int)
    requires UniqueRoomNames(st.rooms)
    requires Admit(st, req, userId, dayStart).Ok?
    ensures var rooms := Admit(st, req, userId, dayStart).value.rooms;
            && |rooms| == |st.rooms|
            && forall i :: 0 <= i < |rooms| ==>
                 && rooms[i].namatempat == st.rooms[i].namatempat
                 && rooms[i].status == (if st.rooms[i].namatempat == req.namatempat then Pending else st.rooms[i].status)
  {
  }

  /** Admission keeps what the schemas guarantee of stored records: unique
      room names, and valid bookings that name an existing room. */
  lemma AdmitKeepsRecordsValid(st: StoreState, req: BookRequest, userId: nat, dayStart: int)
    requires UniqueRoomNames(st.rooms)
    requires forall i :: 0 <= i < |st.bookings| ==> ValidBooking(st.bookings[i]) && HasRoom(st.rooms, st.bookings[i].namatempat)
    requires Admit(st, req, userId, dayStart).Ok?
    ensures var next := Admit(st, req, userId, dayStart).value;
            && UniqueRoomNames(next.rooms)
            && forall i :: 0 <= i < |next.bookings| ==> ValidBooking(next.bookings[i]) && HasRoom(next.rooms, next.bookings[i].namatempat)
  {
    var next := Admit(st, req, userId, dayStart).value;
    AdmitMarksOnlyThatRoom(st, req, userId, dayStart);
    forall n | HasRoom(st.rooms, n) ensures HasRoom(next.rooms, n) {
      var j :| 0 <= j < |st.rooms| && st.rooms[j].namatempat == n;
      assert next.rooms[j].namatempat == n;
    }
  }

  /** Admission keeps active bookings of a room pairwise non-overlapping. */
  lemma AdmitPreservesNoActiveOverlap(st: StoreState, req: BookRequest, userId: nat, dayStart: int)
    requires NoActiveOverlap(st.bookings)
    requires Admit(st, req, userId, dayStart).Ok?
    ensures NoActiveOverlap(Admit(st, req, userId, dayStart).value.bookings)
  {
    var bs := Admit(st, req, userId, dayStart).value.bookings;
    var n := |st.bookings|;
    forall i, j |
      0 <= i < |bs| && 0 <= j < |bs| && i != j && IsActive(bs[i]) && IsActive(bs[j])
      && bs[i].namatempat == bs[j].namatempat
      ensures !WindowsOverlap(bs[i].start, bs[i].end, bs[j].start, bs[j].end)
    {
      if i < n && j < n {
        assert bs[i] == st.bookings[i] && bs[j] == st.bookings[j];
      } else if i < n {
        assert bs[i] == st.bookings[i];
        assert !Blocks(st.bookings[i], req.namatempat, req.start.value, req.end.value);
        OverlapSymmetricAndHalfOpen(bs[i].start, bs[i].end, bs[j].start, bs[j].end);
      } else {
        assert bs[j] == st.bookings[j];
        assert !Blocks(st.bookings[j], req.namatempat, req.start.value, req.end.value);
      }
    }
  }

  /** The window order of the admission check, on a concrete room: a request
      overlapping an admitted window is refused, one touching it is admitted. */
  lemma AdmissionScenario(userId: nat, dayStart: int)
    ensures
      var st0 := StoreState([Room("Auditorium", Available)], []);
      var first := BookRequest("Auditorium", "Rapat", Some("09:00:00"), Some("10:00:00"), "");
      var second := BookRequest("Auditorium", "Rapat", Some("09:30:00"), Some("10:30:00"), "");
      var third := BookRequest("Auditorium", "Rapat", Some("10:00:00"), Some("11:00:00"), "");
      && Admit(st0, first, userId, dayStart).Ok?
      && var st1 := Admit(st0, first, userId, dayStart).value;
      && st1.bookings[0].status == Pending
      && st1.bookings[0].expiredAt == dayStart + 36060
      && Admit(st1, second, userId, dayStart) == Err(RoomUnavailable)
      && Admit(st1, third, userId, dayStart).Ok?
  {
    var st0 := StoreState([Room("Auditorium", Available)], []);
    var first := BookRequest("Auditorium", "Rapat", Some("09:00:00"), Some("10:00:00"), "");
    var second := BookRequest("Auditorium", "Rapat", Some("09:30:00"), Some("10:30:00"), "");
    var third := BookRequest("Auditorium", "Rapat", Some("10:00:00"), Some("11:00:00"), "");
    assert IsTimeFormat("09:00:00") && IsTimeFormat("10:00:00");
    assert Admit(st0, first, userId, dayStart).Ok?;
    var st1 := Admit(st0, first, userId, dayStart).value;
    var b := st1.bookings[0];
    assert b.start == "09:00:00" && b.end == "10:00:00" && IsActive(b);
    assert Blocks(b, "Auditorium", "09:30:00", "10:30:00");
    assert !Blocks(b, "Auditorium", "10:00:00", "11:00:00") by {
      WhatNeverBlocks(b, "Auditorium", "10:00:00", "11:00:00");
    }
    assert IsTimeFormat("11:00:00");
  }
}
