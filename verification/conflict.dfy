/**
 * Conflict detection of `/book-room` (routes.js:194-212): a request for a
 * room is refused when a `Pending` or `Accepted` booking of the same room
 * has `start < request.end` and `end > request.start`, both comparisons on
 * the stored strings.
 */
module Conflict {
  import opened TimeFormat
  import opened Schema

  /** A booking that still holds its room. */
  predicate IsActive(b: Booking) {
    b.status == Pending || b.status == Accepted
  }

  /** The query's overlap test of a stored window against a requested one. */
  predicate WindowsOverlap(start: string, end: string, reqStart: string, reqEnd: string) {
    LexLess(start, reqEnd) && LexLess(reqStart, end)
  }

  /** A booking matched by the admission query for the request. */
  predicate Blocks(b: Booking, namatempat: string, start: string, end: string) {
    b.namatempat == namatempat && IsActive(b) && WindowsOverlap(b.start, b.end, start, end)
  }

  /** Whether the admission query finds a booking, scanning the store in order. */
  function HasConflict(bs: seq<Booking>, namatempat: string, start: string, end: string): (r: bool)
    ensures r <==> exists i :: 0 <= i < |bs| && Blocks(bs[i], namatempat, start, end)
  {
    if |bs| == 0 then false
    else if Blocks(bs[0], namatempat, start, end) then true
    else
      var rest := HasConflict(bs[1..], namatempat, start, end);
      assert forall i :: 1 <= i < |bs| ==> bs[i] == bs[1..][i - 1];
      rest
  }

  /** Active bookings of the same room never overlap one another. */
  ghost predicate NoActiveOverlap(bs: seq<Booking>) {
    forall i, j ::
      0 <= i < |bs| && 0 <= j < |bs| && i != j && IsActive(bs[i]) && IsActive(bs[j])
      && bs[i].namatempat == bs[j].namatempat
      ==> !WindowsOverlap(bs[i].start, bs[i].end, bs[j].start, bs[j].end)
  }

  lemma {:induction false} LexLessIrreflexive(a: string)
    ensures !LexLess(a, a)
    decreases |a|
  {
    if |a| > 0 {
      LexLessIrreflexive(a[1..]);
    }
  }

  /** The overlap test is symmetric, and windows that only touch do not overlap. */
  lemma OverlapSymmetricAndHalfOpen(s1: string, e1: string, s2: string, e2: string)
    ensures WindowsOverlap(s1, e1, s2, e2) == WindowsOverlap(s2, e2, s1, e1)
    ensures e1 == s2 ==> !WindowsOverlap(s1, e1, s2, e2)
    ensures e2 == s1 ==> !WindowsOverlap(s1, e1, s2, e2)
  {
    LexLessIrreflexive(e1);
    LexLessIrreflexive(e2);
  }

  /** Only active bookings of the same room can block, and one whose window
      merely touches the request never does. */
  lemma WhatNeverBlocks(b: Booking, namatempat: string, start: string, end: string)
    ensures b.namatempat != namatempat ==> !Blocks(b, namatempat, start, end)
    ensures b.status == Rejected || b.status == Available ==> !Blocks(b, namatempat, start, end)
    ensures b.end == start || b.start == end ==> !Blocks(b, namatempat, start, end)
  {
    OverlapSymmetricAndHalfOpen(b.start, b.end, start, end);
  }

  /** Second `t` lies in the half-open window `[lo, hi)`. */
  predicate Within(t: int, lo: int, hi: int) {
    lo <= t < hi
  }

  /** For validated, non-empty windows the string test is exactly interval
      intersection: some second of the day lies in both half-open windows. */
  lemma OverlapMeansSharedSecond(s1: string, e1: string, s2: string, e2: string)
    requires IsTimeFormat(s1) && IsTimeFormat(e1) && IsTimeFormat(s2) && IsTimeFormat(e2)
    requires Seconds(s1) < Seconds(e1) && Seconds(s2) < Seconds(e2)
    ensures WindowsOverlap(s1, e1, s2, e2) <==>
      exists t :: Within(t, Seconds(s1), Seconds(e1)) && Within(t, Seconds(s2), Seconds(e2))
  {
    LexOrderIsTimeOrder(s1, e2);
    LexOrderIsTimeOrder(s2, e1);
    if WindowsOverlap(s1, e1, s2, e2) {
      var t := if Seconds(s1) < Seconds(s2) then Seconds(s2) else Seconds(s1);
      assert Within(t, Seconds(s1), Seconds(e1)) && Within(t, Seconds(s2), Seconds(e2));
    }
  }
}
