/**
 * The PATCH actions of api/trips.ts as the handler performs them: copy the
 * lists, find and splice entries, push records, set flags, then write the trip
 * and the affected user documents. Each method is proved to leave exactly the
 * state that the corresponding `TripSpec` function describes.
 */
module TripStore {
  import opened Wrappers
  import opened Entries
  import opened TripSpec

  /** The `users` collection as the PATCH actions read and update it. */
  class UserDirectory {
    var docs: map<string, UserDoc>

    constructor (docs: map<string, UserDoc>)
      ensures this.docs == docs
    {
      this.docs := docs;
    }

    /** `users.doc(uid).update({ my_trips, updatedAt })` on an existing document. */
    method UpdateMyTrips(uid: string, myTrips: seq<Entry>, now: string)
      requires uid in docs
      modifies this
      ensures docs == old(docs)[uid := old(docs)[uid].(myTrips := myTrips, updatedAt := now)]
    {
      docs := docs[uid := docs[uid].(myTrips := myTrips, updatedAt := now)];
    }

    /** The cancel fan-out: the `my_trips` of every listed uid that has a document marks trip `tripId` cancelled. */
    method CancelTripFor(uids: seq<string>, tripId: string, now: string)
      modifies this
      ensures docs == CancelCascade(old(docs), (set u | u in uids), tripId, now)
    {
      ghost var before := docs;
      var i := 0;
      while i < |uids|
        invariant 0 <= i <= |uids|
        invariant docs.Keys == before.Keys
        invariant forall u | u in before ::
          docs[u] == if u in uids[..i] then CancelledDoc(before[u], tripId, u, now) else before[u]
      {
        var uid := uids[i];
        assert uids[..i + 1] == uids[..i] + [uid];
        if uid in docs {
          UpdateMyTrips(uid, MarkCancelled(docs[uid].myTrips, tripId, uid, "", now), now);
        }
        i := i + 1;
      }
      assert uids[..i] == uids;
    }
  }

  /** A trip document; the identity, driver and seat fields are never written by the PATCH actions. */
  class Trip {
    const id: string
    const driverUid: string
    const driverId: string
    const seats: int
    var status: TripStatus
    var waitlist: seq<Entry>
    var passengerList: seq<Entry>
    var updatedAt: string

    function State(): TripState
      reads this
    {
      TripState(id, driverUid, driverId, status, seats, waitlist, passengerList, updatedAt)
    }

    constructor (s: TripState)
      ensures State() == s
    {
      id, driverUid, driverId, seats := s.id, s.driverUid, s.driverId, s.seats;
      status, waitlist, passengerList, updatedAt := s.status, s.waitlist, s.passengerList, s.updatedAt;
    }

    /** The driver moves the applicant `rq.userId` from the waitlist to the passenger list. */
    method Accept(users: UserDirectory, rq: Request) returns (code: int)
      modifies this, users
      ensures Outcome(code, State(), users.docs) == AcceptSpec(old(State()), old(users.docs), rq)
    {
      if rq.userId == "" {
        return 400;
      }
      if driverUid != rq.caller && driverId != rq.caller {
        return 403;
      }
      var wl := waitlist;
      var passengers := passengerList;
      var index := FindIndex(wl, ByUserId(rq.userId));
      if index == -1 {
        return 404;
      }
      var entry := wl[index];
      var passengerRecord := AcceptedRecord(entry, id, rq);
      wl := RemoveAt(wl, index);
      passengers := passengers + [Rec(passengerRecord)];

      var passengerUid := UidOf(entry);
      if passengerUid != "" && passengerUid in users.docs {
        var myTrips := users.docs[passengerUid].myTrips;
        var updatedTrips := MarkAccepted(myTrips, id, rq.userId);
        if updatedTrips != myTrips {
          users.UpdateMyTrips(passengerUid, updatedTrips, rq.now);
        }
      }

      var shouldCloseTrip := |passengers| >= seats;
      waitlist, passengerList := wl, passengers;
      if shouldCloseTrip && status == Open {
        status := Closed;
      }
      updatedAt := rq.now;
      code := 200;
    }

    /** The default action: the caller applies to join the waitlist. */
    method Apply(users: UserDirectory, rq: Request) returns (code: int)
      modifies this, users
      ensures Outcome(code, State(), users.docs) == ApplySpec(old(State()), old(users.docs), rq)
    {
      if rq.userId == "" {
        return 400;
      }
      if driverUid == rq.caller || driverId == rq.caller {
        return 400;
      }
      var wl := waitlist;
      if FindIndex(wl, ByUserId(rq.userId)) != -1 {
        return 400;
      }
      var applicationRecord := ApplicationRecord(id, rq);
      wl := wl + [Rec(applicationRecord)];
      waitlist, updatedAt := wl, rq.now;

      if rq.caller in users.docs {
        var myTrips := users.docs[rq.caller].myTrips;
        if !HasTrip(myTrips, id) {
          myTrips := myTrips + [Rec(applicationRecord)];
          users.UpdateMyTrips(rq.caller, myTrips, rq.now);
        }
      }
      code := 200;
    }

    /** `findIndex` on a copy of `list` and `splice(index, 1)` when found: the remaining list and the removed entry. */
    static method SpliceFirst(list: seq<Entry>, m: Matcher) returns (rest: seq<Entry>, removed: Option<Entry>)
      ensures rest == RemoveFirst(list, m)
      ensures removed.None? <==> !Contains(list, m)
      ensures removed.Some? ==> Matches(m, removed.value) && removed.value == list[FindIndex(list, m)]
    {
      rest := list;
      removed := None;
      var index := FindIndex(list, m);
      if index != -1 {
        removed := Some(list[index]);
        rest := RemoveAt(list, index);
      }
    }

    /**
     * The trip update after a withdrawal: each list that lost an entry, `status: "open"`
     * when a closed trip now has fewer passengers than seats, and `updatedAt`.
     */
    method WriteWithdrawal(passengers: seq<Entry>, removedFromPassengerList: bool,
                           wl: seq<Entry>, removedFromWaitlist: bool, now: string)
      requires removedFromPassengerList || passengers == passengerList
      requires removedFromWaitlist || wl == waitlist
      modifies this
      ensures State() == old(State()).(passengerList := passengers, waitlist := wl,
                                       status := ReopenedStatus(old(State()), passengers), updatedAt := now)
    {
      var shouldReopenTrip := status == Closed && |passengers| < seats;
      if removedFromPassengerList {
        passengerList := passengers;
      }
      if removedFromWaitlist {
        waitlist := wl;
      }
      if shouldReopenTrip {
        status := Open;
      }
      updatedAt := now;
    }

    /** The driver removes the passenger `rq.userId` from whichever lists hold them. */
    method RemovePassenger(users: UserDirectory, rq: Request) returns (code: int)
      modifies this, users
      ensures Outcome(code, State(), users.docs) == RemovePassengerSpec(old(State()), old(users.docs), rq)
    {
      ghost var before := State();
      if driverUid != rq.caller && driverId != rq.caller {
        return 403;
      }
      if rq.userId == "" {
        return 400;
      }
      var m := ByUserId(rq.userId);

      var passengers, removedPassenger := SpliceFirst(passengerList, m);
      var removedPassengerUid := if removedPassenger.Some? then UidOf(removedPassenger.value) else "";
      var wl, removedEntry := SpliceFirst(waitlist, m);
      if removedPassengerUid == "" && removedEntry.Some? {
        removedPassengerUid := UidOf(removedEntry.value);
      }
      assert removedPassengerUid == RemovedUid(before, m);
      if removedPassenger.None? && removedEntry.None? {
        return 404;
      }

      WriteWithdrawal(passengers, removedPassenger.Some?, wl, removedEntry.Some?, rq.now);
      assert State() == Withdraw(before, m, rq.now);

      if removedPassengerUid != "" && removedPassengerUid in users.docs {
        var myTrips := users.docs[removedPassengerUid].myTrips;
        users.UpdateMyTrips(removedPassengerUid, MarkCancelled(myTrips, id, removedPassengerUid, rq.userId, rq.now), rq.now);
      }
      code := 200;
    }

    /** The caller withdraws from the trip, found by their profile's `user_id` or their uid. */
    method CancelPassenger(users: UserDirectory, rq: Request) returns (code: int)
      modifies this, users
      ensures Outcome(code, State(), users.docs) == CancelPassengerSpec(old(State()), old(users.docs), rq)
    {
      ghost var before := State();
      var passengerUserId := "";
      if rq.caller in users.docs {
        passengerUserId := users.docs[rq.caller].userId;
      }
      if passengerUserId == "" {
        return 400;
      }
      var m := ByUserOrUid(passengerUserId, rq.caller);

      var passengers, removedPassenger := SpliceFirst(passengerList, m);
      var wl, removedEntry := SpliceFirst(waitlist, m);
      if removedPassenger.None? && removedEntry.None? {
        return 404;
      }

      WriteWithdrawal(passengers, removedPassenger.Some?, wl, removedEntry.Some?, rq.now);
      assert State() == Withdraw(before, m, rq.now);

      var myTrips := users.docs[rq.caller].myTrips;
      users.UpdateMyTrips(rq.caller, DropTrip(myTrips, id), rq.now);
      code := 200;
    }

    /** The driver cancels an open trip and cascades the cancellation to every passenger's `my_trips`. */
    method Cancel(users: UserDirectory, rq: Request) returns (code: int)
      modifies this, users
      ensures Outcome(code, State(), users.docs) == CancelSpec(old(State()), old(users.docs), rq)
    {
      if driverUid != rq.caller && driverId != rq.caller {
        return 403;
      }
      if status != Open {
        return 400;
      }
      var allPassengers := passengerList + waitlist;
      status, updatedAt := TripStatus.Cancelled, rq.now;

      var passengerUids := CollectCascadeTargets(allPassengers);
      users.CancelTripFor(passengerUids, id, rq.now);
      assert (set u | u in passengerUids) == CascadeTargets(allPassengers);
      code := 200;
    }

    /** The PATCH dispatch on the lower-cased, trimmed `action`. */
    method Patch(action: string, users: UserDirectory, rq: Request) returns (code: int)
      modifies this, users
      ensures Outcome(code, State(), users.docs) == PatchSpec(action, old(State()), old(users.docs), rq)
    {
      if action == "cancel" {
        code := Cancel(users, rq);
      } else if action == "remove_passenger" {
        code := RemovePassenger(users, rq);
      } else if action == "cancel_passenger" {
        code := CancelPassenger(users, rq);
      } else if action == "accept" {
        code := Accept(users, rq);
      } else {
        code := Apply(users, rq);
      }
    }
  }
}
