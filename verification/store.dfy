/**
 * The route handlers that change the store, as methods on an in-memory
 * store of rooms and bookings. Each method is proved against the function
 * that specifies it (Seed, Admit, EditStatus, SweepAll).
 */
module BookingStore {
  import opened Wrappers
  import opened TimeFormat
  import opened Schema
  import opened Conflict
  import opened Admission
  import opened Edit
  import opened Sweep
  import opened Seeding

  class Store {
    var rooms: seq<Room>
    var bookings: seq<Booking>

    /** What the schemas guarantee of stored records: unique room names,
        bookings that passed validation and that name an existing room. */
    ghost predicate Valid()
      reads this
    {
      && UniqueRoomNames(rooms)
      && forall i :: 0 <= i < |bookings| ==> ValidBooking(bookings[i]) && HasRoom(rooms, bookings[i].namatempat)
    }

    function State(): StoreState
      reads this
    {
      StoreState(rooms, bookings)
    }

    constructor ()
      ensures Valid() && rooms == [] && bookings == []
    {
      rooms := [];
      bookings := [];
    }

    /** The per-name step of `/add-room`: insert the room with the schema's
        default status unless one of that name exists. */
    method AddRoomIfAbsent(name: string) returns (inserted: bool)
      requires Valid()
      modifies this`rooms
      ensures Valid()
      ensures inserted <==> !HasRoom(old(rooms), name)
      ensures rooms == AddIfAbsent(old(rooms), name)
    {
      AddIfAbsentStep(rooms, name);
      inserted := FindRoom(rooms, name).None?;
      if inserted {
        rooms := rooms + [Room(name, DefaultRoomStatus)];
      }
    }

    /** `/add-room`: `added[i]` tells whether the i-th seed name was inserted
        (otherwise it was already present). */
    method AddRooms() returns (added: seq<bool>)
      requires Valid()
      modifies this`rooms
      ensures Valid()
      ensures rooms == Seed(old(rooms))
      ensures |added| == |SeedNames|
      ensures forall i :: 0 <= i < |SeedNames| ==> (added[i] <==> !HasRoom(old(rooms), SeedNames[i]))
    {
      added := [];
      var i := 0;
      assert SeedNames[..0] == [];
      while i < |SeedNames|
        invariant 0 <= i <= |SeedNames|
        invariant Valid()
        invariant rooms == SeedFrom(old(rooms), SeedNames[..i])
        invariant |added| == i
        invariant forall k :: 0 <= k < i ==> (added[k] <==> !HasRoom(old(rooms), SeedNames[k]))
      {
        SeedLoopStep(old(rooms), i);
        var inserted := AddRoomIfAbsent(SeedNames[i]);
        added := added + [inserted];
        i := i + 1;
      }
      assert SeedNames[..i] == SeedNames;
    }

    /** `/book-room`; on every error the store is unchanged. */
    method BookRoom(req: BookRequest, userId: nat, dayStart: int) returns (err: Option<BookError>)
      requires Valid()
      modifies this
      ensures Valid()
      ensures match Admit(old(State()), req, userId, dayStart)
              case Ok(st) => err == None && State() == st
              case Err(e) => err == Some(e) && State() == old(State())
      ensures NoActiveOverlap(old(bookings)) ==> NoActiveOverlap(bookings)
      // room names are unique, so exactly the named room is marked Pending
      ensures err == None ==>
                && |rooms| == |old(rooms)|
                && forall i :: 0 <= i < |rooms| ==>
                     && rooms[i].namatempat == old(rooms)[i].namatempat
                     && rooms[i].status == (if old(rooms)[i].namatempat == req.namatempat then Pending else old(rooms)[i].status)
    {
      if req.namatempat == "" {
        return Some(MissingRoomName);
      }
      if req.start.None? || req.end.None? {
        return Some(MalformedTimes);
      }
      var found := FindRoom(rooms, req.namatempat);
      if found.None? {
        return Some(RoomNotFound);
      }
      if HasConflict(bookings, req.namatempat, req.start.value, req.end.value) {
        return Some(RoomUnavailable);
      }
      if !(req.nama != "" && IsTimeFormat(req.start.value) && IsTimeFormat(req.end.value)) {
        return Some(ValidationFailed);
      }
      var k := found.value;
      var b := NewBooking(req, userId, dayStart);
      bookings := bookings + [b];
      rooms := rooms[k := rooms[k].(status := Pending)];
      err := None;
      AdmitKeepsRecordsValid(old(State()), req, userId, dayStart);
      if NoActiveOverlap(old(bookings)) {
        AdmitPreservesNoActiveOverlap(old(State()), req, userId, dayStart);
      }
      AdmitMarksOnlyThatRoom(old(State()), req, userId, dayStart);
    }

    /** `/edit-booking/:id`, called by an administrator; returns the updated
        booking. On an error the store is unchanged. */
    method EditBooking(id: nat, status: string) returns (result: Result<Booking, EditError>)
      requires Valid()
      modifies this`bookings
      ensures Valid()
      ensures match EditStatus(old(bookings), id, status)
              case Ok(bs) => bookings == bs && result == Ok(bs[id])
              case Err(e) => bookings == old(bookings) && result == Err(e)
    {
      var decision := ParseDecision(status);
      if decision.None? {
        return Err(InvalidStatus);
      }
      if id >= |bookings| {
        return Err(BookingNotFound);
      }
      bookings := bookings[id := bookings[id].(status := decision.value)];
      result := Ok(bookings[id]);
    }

    /** One tick of the expiry sweep at time `now`; returns the number of
        bookings it selected and saved. Rooms are not touched. */
    method SweepTick(now: int) returns (processed: nat)
      requires Valid()
      modifies this`bookings
      ensures Valid()
      ensures bookings == SweepAll(old(bookings), now)
      ensures processed == CountSelected(old(bookings), now)
      ensures NoActiveOverlap(old(bookings)) ==> NoActiveOverlap(bookings)
    {
      processed := 0;
      var i := 0;
      while i < |bookings|
        invariant 0 <= i <= |bookings| == |old(bookings)|
        invariant forall k :: 0 <= k < i ==> bookings[k] == SweepOne(old(bookings)[k], now)
        invariant forall k :: i <= k < |bookings| ==> bookings[k] == old(bookings)[k]
        invariant processed == CountSelected(old(bookings)[..i], now)
      {
        var b := bookings[i];
        if Selected(b, now) {
          if b.status != Rejected {
            bookings := bookings[i := b.(status := Available)];
          }
          processed := processed + 1;
        }
        CountSelectedStep(old(bookings), i, now);
        i := i + 1;
      }
      assert old(bookings)[..i] == old(bookings);
      assert bookings == SweepAll(old(bookings), now);
      SweepKeepsRoomsAndValidity(old(bookings), now);
      if NoActiveOverlap(old(bookings)) {
        SweepPreservesNoActiveOverlap(old(bookings), now);
      }
    }
  }
}
