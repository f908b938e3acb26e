/**
 * The two stored record kinds: rooms (model/listroom.js) and bookings
 * (model/room.js), with the status vocabulary and the schema's checks.
 */
module Schema {
  import opened TimeFormat

  /** The statuses the route handlers write. */
  datatype Status = Pending | Accepted | Rejected | Available

  /** The string each status is stored as. */
  function StatusName(s: Status): string {
    match s
    case Pending => "Pending"
    case Accepted => "Accepted"
    case Rejected => "Rejected"
    case Available => "Available"
  }

  /** The booking schema's status enum, spelled as declared. */
  const BookingStatusEnum: set<string> := {"Accepted", "Rejected", "Pending", "Avaliable"}

  /** The room schema's status enum. */
  const RoomStatusEnum: set<string> := {"Accepted", "Rejected", "Pending", "Available"}

  /** A new booking's status when none is given. */
  const DefaultBookingStatus: Status := Pending

  /** A new room's status when none is given. */
  const DefaultRoomStatus: Status := Available

  /** A room; `namatempat` is unique across rooms, `status` is a cached value. */
  datatype Room = Room(namatempat: string, status: Status)

  /** A booking; its id is its position in the store's booking sequence.
      `start` and `end` are time-of-day strings, `expiredAt` a timestamp in seconds. */
  datatype Booking = Booking(
    namatempat: string,
    nama: string,
    start: string,
    end: string,
    detail: string,
    userId: nat,
    status: Status,
    expiredAt: int)

  /** Room names are unique (the room schema's unique index). */
  ghost predicate UniqueRoomNames(rooms: seq<Room>) {
    forall i, j :: 0 <= i < j < |rooms| ==> rooms[i].namatempat != rooms[j].namatempat
  }

  /** Some room carries the given name. */
  predicate HasRoom(rooms: seq<Room>, namatempat: string) {
    exists i :: 0 <= i < |rooms| && rooms[i].namatempat == namatempat
  }

  /** What the booking schema demands before a save: the required string
      fields are present and both times pass the validator. */
  predicate ValidBooking(b: Booking) {
    && b.namatempat != ""
    && b.nama != ""
    && IsTimeFormat(b.start)
    && IsTimeFormat(b.end)
  }

  /** Every status the handlers write is a member of the room enum, but the
      booking enum admits all of them except `Available`, which it misspells. */
  lemma EnumMembership(s: Status)
    ensures StatusName(s) in RoomStatusEnum
    ensures StatusName(s) in BookingStatusEnum <==> s != Available
  {
    assert "Available" != "Avaliable" by {
      assert "Available"[4] != "Avaliable"[4];
    }
  }

  /** The defaults: a booking starts out `Pending`, a room `Available`, and
      both are enum members. */
  lemma DefaultsAreEnumMembers()
    ensures StatusName(DefaultBookingStatus) in BookingStatusEnum
    ensures StatusName(DefaultRoomStatus) in RoomStatusEnum
    ensures DefaultBookingStatus == Pending
  {
  }
}
