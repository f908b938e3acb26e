/**
 * Room provisioning, `/add-room` (routes.js:122-151): each of eight fixed
 * room names is inserted, with the room schema's default status, unless a
 * room of that name already exists.
 */
module Seeding {
  import opened Schema

  const SeedNames: seq<string> := [
    "Lapangan Olahraga",
    "Lapangan Upacara",
    "Auditorium",
    "Ruang Serbaguna A",
    "Ruang Serbaguna B",
    "Kelas TK A",
    "Kelas TK B",
    "lapangan"
  ]

  /** One step of the seeding: insert the room unless its name is taken. */
  function AddIfAbsent(rooms: seq<Room>, namatempat: string): (r: seq<Room>)
    ensures HasRoom(r, namatempat)
  {
    if HasRoom(rooms, namatempat) then rooms
    else
      var r := rooms + [Room(namatempat, DefaultRoomStatus)];
      assert r[|rooms|].namatempat == namatempat;
      r
  }

  /** One insertion adds exactly the one name and keeps names unique. */
  lemma AddIfAbsentStep(rooms: seq<Room>, namatempat: string)
    ensures forall n :: HasRoom(AddIfAbsent(rooms, namatempat), n) <==> HasRoom(rooms, n) || n == namatempat
    ensures UniqueRoomNames(rooms) ==> UniqueRoomNames(AddIfAbsent(rooms, namatempat))
  {
    var step := AddIfAbsent(rooms, namatempat);
    forall n ensures HasRoom(step, n) <==> HasRoom(rooms, n) || n == namatempat {
      if HasRoom(step, n) && !HasRoom(rooms, n) {
        var i :| 0 <= i < |step| && step[i].namatempat == n;
      }
      if HasRoom(rooms, n) {
        var i :| 0 <= i < |rooms| && rooms[i].namatempat == n;
        assert step[i] == rooms[i];
      }
    }
    if UniqueRoomNames(rooms) && !HasRoom(rooms, namatempat) {
      forall i, j | 0 <= i < j < |step| ensures step[i].namatempat != step[j].namatempat {
        if j == |rooms| {
          assert step[i] == rooms[i];
        }
      }
    }
  }

  /** Seeding the given names in order. */
  function SeedFrom(rooms: seq<Room>, names: seq<string>): seq<Room>
    decreases |names|
  {
    if names == [] then rooms else SeedFrom(AddIfAbsent(rooms, names[0]), names[1..])
  }

  /** `/add-room`: the existing rooms stay as they were, every seed name
      ends up present, and unique room names stay unique. */
  function Seed(rooms: seq<Room>): (r: seq<Room>)
    ensures |rooms| <= |r| && r[..|rooms|] == rooms
    ensures forall n :: n in SeedNames ==> HasRoom(r, n)
    ensures UniqueRoomNames(rooms) ==> UniqueRoomNames(r)
  {
    SeedNamesDistinct();
    SeedFromProperties(rooms, SeedNames);
    SeedFrom(rooms, SeedNames)
  }

  ghost predicate Distinct(names: seq<string>) {
    forall i, j :: 0 <= i < j < |names| ==> names[i] != names[j]
  }

  lemma SeedNamesDistinct()
    ensures Distinct(SeedNames)
  {
    // the length, the first character or the last character tells any two apart
    forall i, j | 0 <= i < j < |SeedNames| ensures SeedNames[i] != SeedNames[j] {
      var a, b := SeedNames[i], SeedNames[j];
      assert |a| != |b| || a[0] != b[0] || a[|a| - 1] != b[|b| - 1];
    }
  }

  /** Seeding keeps the existing rooms untouched as a prefix, appends only
      rooms named in `names` with the default status, ends with every name
      present, and keeps names unique when the seed names are distinct. */
  lemma {:induction false} SeedFromProperties(rooms: seq<Room>, names: seq<string>)
    ensures var r := SeedFrom(rooms, names);
            && |rooms| <= |r| && r[..|rooms|] == rooms
            && (forall k :: |rooms| <= k < |r| ==> r[k].namatempat in names && r[k].status == Available)
            && (forall n :: HasRoom(r, n) <==> HasRoom(rooms, n) || n in names)
    ensures UniqueRoomNames(rooms) && Distinct(names) ==> UniqueRoomNames(SeedFrom(rooms, names))
    decreases |names|
  {
    if names != [] {
      var step := AddIfAbsent(rooms, names[0]);
      SeedFromProperties(step, names[1..]);
      var r := SeedFrom(step, names[1..]);
      assert r == SeedFrom(rooms, names);
      assert step[..|rooms|] == rooms;
      assert r[..|rooms|] == r[..|step|][..|rooms|];
      AddIfAbsentStep(rooms, names[0]);
      assert forall k :: |rooms| <= k < |step| ==> step[k].namatempat == names[0];
      forall k | |rooms| <= k < |r| ensures r[k].namatempat in names && r[k].status == Available {
        if k < |step| {
          assert r[k] == r[..|step|][k] == step[k];
        } else {
          assert r[k].namatempat in names[1..];
        }
      }
      if UniqueRoomNames(rooms) && Distinct(names) {
        assert Distinct(names[1..]);
      }
    }
  }

  /** Seeding one more name extends the seeding of the names before it. */
  lemma {:induction false} SeedFromSnoc(rooms: seq<Room>, names: seq<string>, namatempat: string)
    ensures SeedFrom(rooms, names + [namatempat]) == AddIfAbsent(SeedFrom(rooms, names), namatempat)
    decreases |names|
  {
    if names == [] {
      assert [] + [namatempat] == [namatempat];
    } else {
      assert (names + [namatempat])[1..] == names[1..] + [namatempat];
      SeedFromSnoc(AddIfAbsent(rooms, names[0]), names[1..], namatempat);
    }
  }

  /** One iteration of the seeding loop, which has seeded the first `i`
      names into `orig`: the i-th name is present now exactly when it was
      present at the start, and inserting it seeds one name further. */
  lemma SeedLoopStep(orig: seq<Room>, i: nat)
    requires i < |SeedNames|
    ensures var before := SeedFrom(orig, SeedNames[..i]);
            && (HasRoom(before, SeedNames[i]) <==> HasRoom(orig, SeedNames[i]))
            && AddIfAbsent(before, SeedNames[i]) == SeedFrom(orig, SeedNames[..i + 1])
  {
    SeedNamesDistinct();
    SeedFromProperties(orig, SeedNames[..i]);
    assert SeedNames[i] !in SeedNames[..i];
    assert SeedNames[..i + 1] == SeedNames[..i] + [SeedNames[i]];
    SeedFromSnoc(orig, SeedNames[..i], SeedNames[i]);
  }

  /** When every name is already present, seeding adds nothing. */
  lemma {:induction false} SeedFromPresent(rooms: seq<Room>, names: seq<string>)
    requires forall n :: n in names ==> HasRoom(rooms, n)
    ensures SeedFrom(rooms, names) == rooms
    decreases |names|
  {
    if names != [] {
      SeedFromPresent(rooms, names[1..]);
    }
  }

  /** With unique names, a name that is present is on exactly one room. */
  lemma PresentNameIsOnOneRoom(rooms: seq<Room>, namatempat: string)
    requires UniqueRoomNames(rooms) && HasRoom(rooms, namatempat)
    ensures exists k :: 0 <= k < |rooms| && rooms[k].namatempat == namatempat
              && forall j :: 0 <= j < |rooms| && rooms[j].namatempat == namatempat ==> j == k
  {
    var k :| 0 <= k < |rooms| && rooms[k].namatempat == namatempat;
    assert forall j :: 0 <= j < |rooms| && rooms[j].namatempat == namatempat ==> j == k;
  }

  /** `/add-room` leaves every seed name on exactly one room, keeps the rooms
      that were there, and only adds seed rooms with the default status. */
  lemma SeedEnsuresEachNameOnce(rooms: seq<Room>)
    requires UniqueRoomNames(rooms)
    ensures var r := Seed(rooms);
            && |rooms| <= |r| && r[..|rooms|] == rooms
            && UniqueRoomNames(r)
            && (forall k :: |rooms| <= k < |r| ==> r[k].namatempat in SeedNames && r[k].status == Available)
            && forall n :: n in SeedNames ==>
                 exists k :: 0 <= k < |r| && r[k].namatempat == n
                   && forall j :: 0 <= j < |r| && r[j].namatempat == n ==> j == k
  {
    SeedNamesDistinct();
    SeedFromProperties(rooms, SeedNames);
    var r := Seed(rooms);
    forall n | n in SeedNames
      ensures exists k :: 0 <= k < |r| && r[k].namatempat == n
                && forall j :: 0 <= j < |r| && r[j].namatempat == n ==> j == k
    {
      PresentNameIsOnOneRoom(r, n);
    }
  }

  /** Running `/add-room` a second time adds nothing. */
  lemma SeedIdempotent(rooms: seq<Room>)
    ensures Seed(Seed(rooms)) == Seed(rooms)
  {
    SeedFromProperties(rooms, SeedNames);
    SeedFromPresent(Seed(rooms), SeedNames);
  }
}
