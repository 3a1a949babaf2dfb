/**
 * The trip state machine of the PATCH branch of api/trips.ts, on values.
 *
 * Each action is a function from the trip document, the `users` collection and
 * the request to an `Outcome`: the response code, the trip as written back and
 * the users as written back. A rejected request writes nothing. The class
 * `TripStore.Trip` performs the same actions step by step and is proved equal
 * to these functions; the lemmas below state what the actions promise.
 */
module TripSpec {
  import opened Wrappers
  import opened Entries

  datatype TripStatus = Open | Closed | Cancelled

  /** The fields of a trip document that the PATCH actions read or write. */
  datatype TripState = TripState(
    id: string,
    driverUid: string,
    driverId: string,
    status: TripStatus,
    seats: int,
    waitlist: seq<Entry>,
    passengerList: seq<Entry>,
    updatedAt: string)

  /** A document of the `users` collection: the application-level `user_id` ("" when absent) and the `my_trips` mirror. */
  datatype UserDoc = UserDoc(userId: string, myTrips: seq<Entry>, updatedAt: string)

  /** The `users` collection, keyed by authenticated identity. */
  type Users = map<string, UserDoc>

  /**
   * An authenticated PATCH request: `caller` is the verified uid, `userId` the
   * body's `user_id` ("" when missing), `now` the clock reading used for every
   * timestamp the request writes.
   */
  datatype Request = Request(
    caller: string,
    userId: string,
    origin: Option<Place>,
    destination: Option<Place>,
    now: string)

  datatype Outcome = Outcome(code: int, trip: TripState, users: Users)

  /** The actions of the PATCH branch; any other action string means apply. */
  datatype Action = Cancel | RemovePassenger | CancelPassenger | Accept | Apply

  /** `action` is the body's action already lower-cased and trimmed. */
  function ActionOf(action: string): (a: Action)
    ensures a == Cancel <==> action == "cancel"
    ensures a == RemovePassenger <==> action == "remove_passenger"
    ensures a == CancelPassenger <==> action == "cancel_passenger"
    ensures a == Accept <==> action == "accept"
    ensures a == Apply <==> action !in {"cancel", "remove_passenger", "cancel_passenger", "accept"}
  {
    if action == "cancel" then Cancel
    else if action == "remove_passenger" then RemovePassenger
    else if action == "cancel_passenger" then CancelPassenger
    else if action == "accept" then Accept
    else Apply
  }

  /** The driver check: the caller is the trip's `driver_uid` or its `driver_id`. */
  predicate IsDriver(t: TripState, uid: string) {
    t.driverUid == uid || t.driverId == uid
  }

  /** The `applicationRecord` built for accept and apply. */
  function ApplicationRecord(tripId: string, rq: Request): Record {
    Record(tripId, rq.caller, rq.userId, rq.origin, rq.destination, Waiting, rq.now, "", "", "")
  }

  /** The entry accept appends to `passenger_list`: the waitlist record marked accepted, or a fresh record for a legacy string. */
  function AcceptedRecord(entry: Entry, tripId: string, rq: Request): Record {
    match entry
    case Rec(r) => r.(status := Accepted)
    case Legacy(_) => ApplicationRecord(tripId, rq).(status := Accepted, movedFrom := "waitlist")
  }

  /** The reopen rule of remove_passenger and cancel_passenger. */
  function ReopenedStatus(t: TripState, passengers: seq<Entry>): TripStatus {
    if t.status == Closed && |passengers| < t.seats then Open else t.status
  }

  // ---------------------------------------------------------------- accept

  /** The mirror update of accept: only the accepted passenger's `my_trips`, and only when it changes. */
  function AcceptMirror(us: Users, entry: Entry, tripId: string, rq: Request): Users {
    var uid := UidOf(entry);
    if uid != "" && uid in us then
      var updated := MarkAccepted(us[uid].myTrips, tripId, rq.userId);
      if updated != us[uid].myTrips then us[uid := us[uid].(myTrips := updated, updatedAt := rq.now)] else us
    else us
  }

  /** Accept answers 200, 400, 403 or 404; a refusal writes nothing; no user document appears or vanishes. */
  function AcceptSpec(t: TripState, us: Users, rq: Request): (o: Outcome)
    ensures o.code in {200, 400, 403, 404}
    ensures o.code != 200 ==> o.trip == t && o.users == us
    ensures o.users.Keys == us.Keys && o.trip.id == t.id
  {
    if rq.userId == "" then Outcome(400, t, us)
    else if !IsDriver(t, rq.caller) then Outcome(403, t, us)
    else
      var i := FindIndex(t.waitlist, ByUserId(rq.userId));
      if i == -1 then Outcome(404, t, us)
      else
        var entry := t.waitlist[i];
        var passengers := t.passengerList + [Rec(AcceptedRecord(entry, t.id, rq))];
        var status := if |passengers| >= t.seats && t.status == Open then Closed else t.status;
        Outcome(200,
                t.(waitlist := RemoveAt(t.waitlist, i), passengerList := passengers,
                   status := status, updatedAt := rq.now),
                AcceptMirror(us, entry, t.id, rq))
  }

  // ---------------------------------------------------------------- apply

  /** Some `my_trips` entry already refers to the trip. */
  predicate HasTrip(s: seq<Entry>, tripId: string) {
    exists k | 0 <= k < |s| :: IsForTrip(s[k], tripId)
  }

  /** The mirror update of apply: the caller's `my_trips` gains the record unless it already refers to the trip. */
  function ApplyMirror(us: Users, app: Record, rq: Request): Users {
    if rq.caller in us && !HasTrip(us[rq.caller].myTrips, app.tripId) then
      us[rq.caller := us[rq.caller].(myTrips := us[rq.caller].myTrips + [Rec(app)], updatedAt := rq.now)]
    else us
  }

  /** Apply answers 200 or 400; a refusal writes nothing; no user document appears or vanishes. */
  function ApplySpec(t: TripState, us: Users, rq: Request): (o: Outcome)
    ensures o.code in {200, 400}
    ensures o.code != 200 ==> o.trip == t && o.users == us
    ensures o.users.Keys == us.Keys && o.trip.id == t.id
  {
    if rq.userId == "" then Outcome(400, t, us)
    else if IsDriver(t, rq.caller) then Outcome(400, t, us)
    else if Contains(t.waitlist, ByUserId(rq.userId)) then Outcome(400, t, us)
    else
      var app := ApplicationRecord(t.id, rq);
      Outcome(200, t.(waitlist := t.waitlist + [Rec(app)], updatedAt := rq.now), ApplyMirror(us, app, rq))
  }

  // ------------------------------------------------ remove_passenger, cancel_passenger

  /** The list surgery both withdrawals share: the first match leaves each list, then the reopen rule. */
  function Withdraw(t: TripState, m: Matcher, now: string): TripState {
    var passengers := RemoveFirst(t.passengerList, m);
    t.(passengerList := passengers, waitlist := RemoveFirst(t.waitlist, m),
       status := ReopenedStatus(t, passengers), updatedAt := now)
  }

  /** Whose `my_trips` remove_passenger rewrites: the removed passenger record's `firebase_uid`, else the waitlist record's. */
  function RemovedUid(t: TripState, m: Matcher): string {
    var pi := FindIndex(t.passengerList, m);
    var wi := FindIndex(t.waitlist, m);
    var fromPassengers := if pi == -1 then "" else UidOf(t.passengerList[pi]);
    if fromPassengers != "" then fromPassengers
    else if wi == -1 then ""
    else UidOf(t.waitlist[wi])
  }

  /** Remove_passenger answers 200, 400, 403 or 404; a refusal writes nothing; no user document appears or vanishes. */
  function RemovePassengerSpec(t: TripState, us: Users, rq: Request): (o: Outcome)
    ensures o.code in {200, 400, 403, 404}
    ensures o.code != 200 ==> o.trip == t && o.users == us
    ensures o.users.Keys == us.Keys && o.trip.id == t.id
  {
    if !IsDriver(t, rq.caller) then Outcome(403, t, us)
    else if rq.userId == "" then Outcome(400, t, us)
    else
      var m := ByUserId(rq.userId);
      if !Contains(t.passengerList, m) && !Contains(t.waitlist, m) then Outcome(404, t, us)
      else
        var uid := RemovedUid(t, m);
        var us' :=
          if uid != "" && uid in us then
            us[uid := us[uid].(myTrips := MarkCancelled(us[uid].myTrips, t.id, uid, rq.userId, rq.now),
                               updatedAt := rq.now)]
          else us;
        Outcome(200, Withdraw(t, m, rq.now), us')
  }

  /** The `user_id` of the caller's profile, "" when the profile or the field is missing. */
  function ProfileUserId(us: Users, uid: string): string {
    if uid in us then us[uid].userId else ""
  }

  /** Cancel_passenger answers 200, 400 or 404; a refusal writes nothing; no user document appears or vanishes. */
  function CancelPassengerSpec(t: TripState, us: Users, rq: Request): (o: Outcome)
    ensures o.code in {200, 400, 404}
    ensures o.code != 200 ==> o.trip == t && o.users == us
    ensures o.users.Keys == us.Keys && o.trip.id == t.id
  {
    var pid := ProfileUserId(us, rq.caller);
    if pid == "" then Outcome(400, t, us)
    else
      var m := ByUserOrUid(pid, rq.caller);
      if !Contains(t.passengerList, m) && !Contains(t.waitlist, m) then Outcome(404, t, us)
      else
        Outcome(200, Withdraw(t, m, rq.now),
                us[rq.caller := us[rq.caller].(myTrips := DropTrip(us[rq.caller].myTrips, t.id),
                                               updatedAt := rq.now)])
  }

  // ---------------------------------------------------------------- cancel

  /** A passenger's user document after the driver cancelled trip `tripId`. */
  function CancelledDoc(d: UserDoc, tripId: string, uid: string, now: string): UserDoc {
    d.(myTrips := MarkCancelled(d.myTrips, tripId, uid, "", now), updatedAt := now)
  }

  /** The cancel fan-out: every existing target's document is rewritten, the others are left alone. */
  function CancelCascade(us: Users, targets: set<string>, tripId: string, now: string): (r: Users)
    ensures r.Keys == us.Keys
    ensures forall u | u in us && u !in targets :: r[u] == us[u]
    ensures forall u | u in us && u in targets ::
      && r[u].userId == us[u].userId && r[u].updatedAt == now
      && |r[u].myTrips| == |us[u].myTrips|
      && forall k | 0 <= k < |us[u].myTrips| ::
           if IsForTrip(us[u].myTrips[k], tripId)
           then r[u].myTrips[k].Rec? && r[u].myTrips[k].record.status == EntryStatus.Cancelled
           else r[u].myTrips[k] == us[u].myTrips[k]
  {
    map u | u in us :: if u in targets then CancelledDoc(us[u], tripId, u, now) else us[u]
  }

  /** Cancel answers 200, 400 or 403; a refusal writes nothing; no user document appears or vanishes. */
  function CancelSpec(t: TripState, us: Users, rq: Request): (o: Outcome)
    ensures o.code in {200, 400, 403}
    ensures o.code != 200 ==> o.trip == t && o.users == us
    ensures o.users.Keys == us.Keys && o.trip.id == t.id
  {
    if !IsDriver(t, rq.caller) then Outcome(403, t, us)
    else if t.status != Open then Outcome(400, t, us)
    else
      Outcome(200, t.(status := TripStatus.Cancelled, updatedAt := rq.now),
              CancelCascade(us, CascadeTargets(t.passengerList + t.waitlist), t.id, rq.now))
  }

  /** The PATCH dispatch: cancel, remove_passenger and cancel_passenger are tried first, then accept, else apply. */
  function PatchSpec(action: string, t: TripState, us: Users, rq: Request): (o: Outcome)
    ensures o.code in {200, 400, 403, 404}
    ensures o.code != 200 ==> o.trip == t && o.users == us
    ensures o.users.Keys == us.Keys && o.trip.id == t.id
  {
    match ActionOf(action)
    case Cancel => CancelSpec(t, us, rq)
    case RemovePassenger => RemovePassengerSpec(t, us, rq)
    case CancelPassenger => CancelPassengerSpec(t, us, rq)
    case Accept => AcceptSpec(t, us, rq)
    case Apply => ApplySpec(t, us, rq)
  }
}
