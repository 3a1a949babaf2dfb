/**
 * Entries of a trip's `waitlist` and `passenger_list` and of a user's `my_trips`.
 *
 * Two encodings are stored side by side: the legacy bare identifier string and
 * the application record. Every lookup, removal and rewrite in api/trips.ts goes
 * through the accessors of this module. A record field that the source leaves
 * absent (or sets to a falsy value) is the empty string here.
 */
module Entries {
  import opened Wrappers

  /** The `status` of an application record: "waitlist", "accepted" or "cancelled". */
  datatype EntryStatus = Waiting | Accepted | Cancelled

  datatype Coordinates = Coordinates(lat: Option<real>, lng: Option<real>)

  /** A passenger's `origin` or `destination` as stored in an application record. */
  datatype Place = Place(address: string, coordinates: Option<Coordinates>)

  datatype Record = Record(
    tripId: string,
    firebaseUid: string,
    userId: string,
    origin: Option<Place>,
    destination: Option<Place>,
    status: EntryStatus,
    appliedAt: string,
    cancelledAt: string,
    cancelledBy: string,
    movedFrom: string)

  /** A list entry: a bare identifier string (pre-upgrade data) or a record. */
  datatype Entry = Legacy(id: string) | Rec(record: Record)

  /** The `firebase_uid` of a record entry; a legacy string has none. */
  function UidOf(e: Entry): string {
    match e
    case Legacy(_) => ""
    case Rec(r) => r.firebaseUid
  }

  /**
   * How an action looks a passenger up: by `user_id` alone (accept, apply,
   * remove_passenger), or by `user_id` or the caller's `firebase_uid`
   * (cancel_passenger).
   */
  datatype Matcher = ByUserId(userId: string) | ByUserOrUid(userId: string, uid: string)

  /** A legacy string matches when it equals the `user_id`; a record when its `user_id` (or, for `ByUserOrUid`, its `firebase_uid`) does. */
  predicate Matches(m: Matcher, e: Entry) {
    match e
    case Legacy(s) => s == m.userId
    case Rec(r) =>
      (r.userId != "" && r.userId == m.userId) ||
      (m.ByUserOrUid? && r.firebaseUid != "" && r.firebaseUid == m.uid)
  }

  /** A `my_trips` entry refers to trip `tripId`: the string equals it, or the record's `trip_id` does. */
  predicate IsForTrip(e: Entry, tripId: string) {
    match e
    case Legacy(s) => s == tripId
    case Rec(r) => r.tripId == tripId
  }

  /** Array.prototype.findIndex with a matcher: the first matching index, or -1. */
  function FindIndex(s: seq<Entry>, m: Matcher): (i: int)
    ensures -1 <= i < |s|
    ensures i == -1 <==> forall k :: 0 <= k < |s| ==> !Matches(m, s[k])
    ensures 0 <= i ==> Matches(m, s[i]) && forall k :: 0 <= k < i ==> !Matches(m, s[k])
  {
    if |s| == 0 then -1
    else if Matches(m, s[0]) then 0
    else
      var j := FindIndex(s[1..], m);
      if j == -1 then -1 else j + 1
  }

  /** `splice(i, 1)`: drop the element at `i`, the others keep their order. */
  function RemoveAt<T>(s: seq<T>, i: nat): (r: seq<T>)
    requires i < |s|
    ensures |r| == |s| - 1
    ensures forall k :: 0 <= k < i ==> r[k] == s[k]
    ensures forall k :: i <= k < |r| ==> r[k] == s[k + 1]
    ensures multiset(r) + multiset{s[i]} == multiset(s)
  {
    assert s == s[..i] + [s[i]] + s[i + 1..];
    s[..i] + s[i + 1..]
  }

  /** Array.prototype.some with a matcher. */
  predicate Contains(s: seq<Entry>, m: Matcher) {
    exists k | 0 <= k < |s| :: Matches(m, s[k])
  }

  /** `findIndex` followed by `splice` when found: the first match leaves, nothing else changes. */
  function RemoveFirst(s: seq<Entry>, m: Matcher): (r: seq<Entry>)
    ensures !Contains(s, m) ==> r == s
    ensures Contains(s, m) ==>
      var i := FindIndex(s, m);
      0 <= i && r == s[..i] + s[i + 1..] && multiset(r) + multiset{s[i]} == multiset(s)
  {
    var i := FindIndex(s, m);
    if i == -1 then s else RemoveAt(s, i)
  }

  /**
   * One entry of the driver-side `my_trips` rewrite (driver cancels the trip,
   * or removes the passenger): an entry for the trip becomes a cancelled record;
   * a legacy string becomes a fresh record for `uid` (and `userId`, which the
   * cancel action leaves absent).
   */
  function CancelEntry(e: Entry, tripId: string, uid: string, userId: string, now: string): Entry {
    match e
    case Legacy(s) =>
      if s == tripId then Rec(Record(tripId, uid, userId, None, None, Cancelled, "", now, "driver", ""))
      else e
    case Rec(r) =>
      if r.tripId == tripId then Rec(r.(status := Cancelled, cancelledAt := now, cancelledBy := "driver"))
      else e
  }

  /** The driver-side `my_trips` rewrite: same length, only the entries for `tripId` change. */
  function MarkCancelled(s: seq<Entry>, tripId: string, uid: string, userId: string, now: string): (r: seq<Entry>)
    ensures |r| == |s|
    ensures forall k :: 0 <= k < |s| && !IsForTrip(s[k], tripId) ==> r[k] == s[k]
    ensures forall k :: 0 <= k < |s| && IsForTrip(s[k], tripId) ==>
      r[k].Rec? && r[k].record.tripId == tripId && r[k].record.status == Cancelled &&
      r[k].record.cancelledBy == "driver" && r[k].record.cancelledAt == now
    ensures forall k :: 0 <= k < |s| && IsForTrip(s[k], tripId) && s[k].Rec? ==>
      r[k].record.(status := s[k].record.status, cancelledAt := s[k].record.cancelledAt,
                   cancelledBy := s[k].record.cancelledBy) == s[k].record
    ensures forall k :: 0 <= k < |s| && IsForTrip(s[k], tripId) && s[k].Legacy? ==>
      r[k].record.firebaseUid == uid && r[k].record.userId == userId
  {
    if s == [] then []
    else [CancelEntry(s[0], tripId, uid, userId, now)] + MarkCancelled(s[1..], tripId, uid, userId, now)
  }

  /** The record entries of `my_trips` that the accept mirror update rewrites. */
  predicate OwnedBy(e: Entry, tripId: string, userId: string) {
    e.Rec? && e.record.tripId == tripId && (e.record.userId == userId || e.record.userId == "")
  }

  /** The accept mirror update: owned records get status accepted; legacy strings are left as they are. */
  function MarkAccepted(s: seq<Entry>, tripId: string, userId: string): (r: seq<Entry>)
    ensures |r| == |s|
    ensures forall k :: 0 <= k < |s| && !OwnedBy(s[k], tripId, userId) ==> r[k] == s[k]
    ensures forall k :: 0 <= k < |s| && OwnedBy(s[k], tripId, userId) ==>
      r[k].Rec? && r[k].record.status == Accepted &&
      r[k].record.(status := s[k].record.status) == s[k].record
  {
    if s == [] then []
    else
      var head := if OwnedBy(s[0], tripId, userId) then Rec(s[0].record.(status := Accepted)) else s[0];
      [head] + MarkAccepted(s[1..], tripId, userId)
  }

  /** The cancel_passenger mirror update: every entry for `tripId` is deleted, the rest keep their order. */
  function DropTrip(s: seq<Entry>, tripId: string): (r: seq<Entry>)
    ensures |r| <= |s|
    ensures forall k :: 0 <= k < |r| ==> !IsForTrip(r[k], tripId) && r[k] in s
  {
    if s == [] then []
    else
      (if IsForTrip(s[0], tripId) then [] else [s[0]]) + DropTrip(s[1..], tripId)
  }

  /** Each entry not for the trip survives as often as it occurred; entries for the trip are all gone. */
  lemma {:induction false} DropTripCounts(s: seq<Entry>, tripId: string, e: Entry)
    ensures multiset(DropTrip(s, tripId))[e] == if IsForTrip(e, tripId) then 0 else multiset(s)[e]
  {
    if s != [] {
      var d := DropTrip(s, tripId);
      DropTripCounts(s[1..], tripId, e);
      CountFront(s, e);
      if !IsForTrip(s[0], tripId) {
        assert d[0] == s[0] && d[1..] == DropTrip(s[1..], tripId);
        CountFront(d, e);
      }
    }
  }

  /** How often `e` occurs in a non-empty sequence: once for the head if it is `e`, plus in the tail. */
  lemma CountFront<T>(s: seq<T>, e: T)
    requires s != []
    ensures multiset(s)[e] == (if s[0] == e then 1 else 0) + multiset(s[1..])[e]
  {
    assert s == [s[0]] + s[1..];
  }

  /** Deleting the trip's entries commutes with concatenation, so the kept entries keep their relative order. */
  lemma {:induction false} DropTripAppend(a: seq<Entry>, b: seq<Entry>, tripId: string)
    ensures DropTrip(a + b, tripId) == DropTrip(a, tripId) + DropTrip(b, tripId)
  {
    if a != [] {
      var ab := a + b;
      var head := if IsForTrip(a[0], tripId) then [] else [a[0]];
      assert ab[0] == a[0] && ab[1..] == a[1..] + b;
      DropTripAppend(a[1..], b, tripId);
      Regroup(head, DropTrip(a[1..], tripId), DropTrip(b, tripId));
    } else {
      assert a + b == b;
    }
  }

  /** A `my_trips` without an entry for the trip is left exactly as it was. */
  lemma {:induction false} DropTripNothingToDrop(s: seq<Entry>, tripId: string)
    requires forall k :: 0 <= k < |s| ==> !IsForTrip(s[k], tripId)
    ensures DropTrip(s, tripId) == s
  {
    if s != [] {
      DropTripNothingToDrop(s[1..], tripId);
    }
  }

  /** The identities the cancel cascade reaches: the non-empty `firebase_uid`s of record entries. */
  function CascadeTargets(s: seq<Entry>): set<string> {
    set e | e in s && UidOf(e) != "" :: UidOf(e)
  }

  /** No identity is listed twice. */
  predicate Distinct(s: seq<string>) {
    forall i, j :: 0 <= i < j < |s| ==> s[i] != s[j]
  }

  /**
   * The `passengerUids` set the cancel action builds with `forEach`/`add`,
   * returned in insertion order as `Array.from` gives it.
   */
  method CollectCascadeTargets(s: seq<Entry>) returns (uids: seq<string>)
    ensures Distinct(uids)
    ensures forall u :: u in uids <==> u in CascadeTargets(s)
  {
    uids := [];
    var i := 0;
    while i < |s|
      invariant 0 <= i <= |s|
      invariant Distinct(uids)
      invariant forall u :: u in uids <==> u in CascadeTargets(s[..i])
    {
      assert s[..i + 1] == s[..i] + [s[i]];
      var u := UidOf(s[i]);
      if u != "" && u !in uids {
        uids := uids + [u];
      }
      i := i + 1;
    }
    assert s[..i] == s;
  }

  /** Legacy string entries never reach the cascade. */
  lemma LegacyNotCascaded(s: seq<Entry>, id: string)
    ensures CascadeTargets(s + [Legacy(id)]) == CascadeTargets(s)
  {
    assert forall e :: e in s + [Legacy(id)] && UidOf(e) != "" ==> e in s;
  }
}
