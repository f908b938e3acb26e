/**
 * The room listing, `/list-rooms` (routes.js:362-397): for each room, in
 * order, the status of some `Pending` or `Accepted` booking of that room,
 * or `Available` when there is none. The listing reads neither the room's
 * cached status nor any booking's `expiredAt`.
 */
module Listing {
  import opened Wrappers
  import opened Schema
  import opened Conflict
  import opened Admission
  import opened Sweep

  datatype RoomEntry = RoomEntry(namatempat: string, status: Status)

  /** A booking that keeps the named room from being listed as available. */
  predicate HoldsRoom(b: Booking, namatempat: string) {
    b.namatempat == namatempat && IsActive(b)
  }

  /** The status of some active booking of the room. The listing's query has
      no sort order, so which one is not fixed; the model takes the first. */
  function ActiveStatusOf(bs: seq<Booking>, namatempat: string): (r: Option<Status>)
    ensures r.None? <==> forall j :: 0 <= j < |bs| ==> !HoldsRoom(bs[j], namatempat)
    ensures r.Some? ==> exists j :: 0 <= j < |bs| && HoldsRoom(bs[j], namatempat) && bs[j].status == r.value
  {
    if |bs| == 0 then None
    else if HoldsRoom(bs[0], namatempat) then Some(bs[0].status)
    else
      var rest := ActiveStatusOf(bs[1..], namatempat);
      assert forall j :: 1 <= j < |bs| ==> bs[j] == bs[1..][j - 1];
      rest
  }

  function EntryFor(room: Room, bs: seq<Booking>): RoomEntry {
    match ActiveStatusOf(bs, room.namatempat)
    case Some(s) => RoomEntry(room.namatempat, s)
    case None => RoomEntry(room.namatempat, Available)
  }

  /** The listing: one entry per room, in room order. */
  function RoomStatuses(rooms: seq<Room>, bs: seq<Booking>): (r: seq<RoomEntry>)
    ensures |r| == |rooms|
    ensures forall i :: 0 <= i < |rooms| ==> r[i].namatempat == rooms[i].namatempat
    ensures forall i :: 0 <= i < |rooms| ==>
              (r[i].status == Available <==> forall j :: 0 <= j < |bs| ==> !HoldsRoom(bs[j], rooms[i].namatempat))
    ensures forall i :: 0 <= i < |rooms| && r[i].status != Available ==>
              && (r[i].status == Pending || r[i].status == Accepted)
              && exists j :: 0 <= j < |bs| && HoldsRoom(bs[j], rooms[i].namatempat) && bs[j].status == r[i].status
  {
    seq(|rooms|, i requires 0 <= i < |rooms| => EntryFor(rooms[i], bs))
  }

  /** The listing depends on the rooms' names only, not on their cached status. */
  lemma ListingIgnoresCachedStatus(rooms1: seq<Room>, rooms2: seq<Room>, bs: seq<Booking>)
    requires |rooms1| == |rooms2|
    requires forall i :: 0 <= i < |rooms1| ==> rooms1[i].namatempat == rooms2[i].namatempat
    ensures RoomStatuses(rooms1, bs) == RoomStatuses(rooms2, bs)
  {
    var r1, r2 := RoomStatuses(rooms1, bs), RoomStatuses(rooms2, bs);
    forall i | 0 <= i < |rooms1| ensures r1[i] == r2[i] {
      assert r1[i] == EntryFor(rooms1[i], bs) && r2[i] == EntryFor(rooms2[i], bs);
    }
  }

  /** Right after an admission, the booked room is listed as not available. */
  lemma AdmittedRoomIsListedBusy(st: StoreState, req: BookRequest, userId: nat, dayStart: int)
    requires Admit(st, req, userId, dayStart).Ok?
    ensures var after := Admit(st, req, userId, dayStart).value;
            forall i :: 0 <= i < |after.rooms| && after.rooms[i].namatempat == req.namatempat ==>
              RoomStatuses(after.rooms, after.bookings)[i].status == Pending
              || RoomStatuses(after.rooms, after.bookings)[i].status == Accepted
  {
    var after := Admit(st, req, userId, dayStart).value;
    var n := |st.bookings|;
    assert HoldsRoom(after.bookings[n], req.namatempat);
  }

  /** After a sweep tick at `now`, a room is listed as available exactly when
      none of its active bookings expires after `now`. */
  lemma ListingAfterSweep(rooms: seq<Room>, bs: seq<Booking>, now: int)
    ensures var r := RoomStatuses(rooms, SweepAll(bs, now));
            forall i :: 0 <= i < |rooms| ==>
              (r[i].status == Available <==>
                 forall j :: 0 <= j < |bs| && HoldsRoom(bs[j], rooms[i].namatempat) ==> bs[j].expiredAt <= now)
  {
    var swept := SweepAll(bs, now);
    forall i, j | 0 <= i < |rooms| && 0 <= j < |bs|
      ensures HoldsRoom(swept[j], rooms[i].namatempat) <==> HoldsRoom(bs[j], rooms[i].namatempat) && bs[j].expiredAt > now
    {
    }
  }
}
