/**
 * What the PATCH actions of api/trips.ts promise, proved about the functions of
 * `TripSpec`. The lemmas state what the code does, including where it does not
 * keep the invariants its data model suggests (seat capacity, one list per
 * passenger, apply only on open trips).
 */
module TripProperties {
  import opened Entries
  import opened TripSpec

  // ---------------------------------------------------------------- accept

  /** Accept answers 400 without `user_id`, then 403 unless the caller is the driver, then 404 unless the waitlist holds the user; a rejection writes nothing. */
  lemma AcceptGuards(t: TripState, us: Users, rq: Request)
    ensures var o := AcceptSpec(t, us, rq);
      && (o.code == 400 <==> rq.userId == "")
      && (o.code == 403 <==> rq.userId != "" && !IsDriver(t, rq.caller))
      && (o.code == 404 <==> rq.userId != "" && IsDriver(t, rq.caller) && !Contains(t.waitlist, ByUserId(rq.userId)))
      && (o.code == 200 <==> rq.userId != "" && IsDriver(t, rq.caller) && Contains(t.waitlist, ByUserId(rq.userId)))
      && (o.code != 200 ==> o.trip == t && o.users == us)
  {
  }

  /**
   * A successful accept moves the first matching waitlist entry to the end of
   * `passenger_list` with status accepted; the other waitlist entries keep their
   * order and nothing but the lists, the status and `updatedAt` changes.
   */
  lemma AcceptMoves(t: TripState, us: Users, rq: Request)
    requires AcceptSpec(t, us, rq).code == 200
    ensures var o := AcceptSpec(t, us, rq);
      var i := FindIndex(t.waitlist, ByUserId(rq.userId));
      && 0 <= i
      && o.trip.waitlist == t.waitlist[..i] + t.waitlist[i + 1..]
      && |o.trip.passengerList| == |t.passengerList| + 1
      && o.trip.passengerList[..|t.passengerList|] == t.passengerList
      && o.trip.(waitlist := t.waitlist, passengerList := t.passengerList,
                 status := t.status, updatedAt := t.updatedAt) == t
      && var moved := o.trip.passengerList[|t.passengerList|];
         && moved.Rec? && moved.record.status == Accepted
         && Matches(ByUserId(rq.userId), moved)
         && (t.waitlist[i].Rec? ==> moved.record.(status := t.waitlist[i].record.status) == t.waitlist[i].record)
         && (t.waitlist[i].Legacy? ==>
               moved.record.movedFrom == "waitlist" && moved.record.tripId == t.id &&
               moved.record.firebaseUid == rq.caller && moved.record.userId == rq.userId)
  {
    var i := FindIndex(t.waitlist, ByUserId(rq.userId));
    AcceptTripShape(t, us, rq);
    MovedRecord(t.waitlist[i], t.id, rq);
  }

  /** The trip written by a successful accept: the waitlist loses entry `i`, the passenger list gains its accepted form. */
  lemma AcceptTripShape(t: TripState, us: Users, rq: Request)
    requires AcceptSpec(t, us, rq).code == 200
    ensures var o := AcceptSpec(t, us, rq);
      var i := FindIndex(t.waitlist, ByUserId(rq.userId));
      && 0 <= i
      && o.trip.waitlist == t.waitlist[..i] + t.waitlist[i + 1..]
      && |o.trip.passengerList| == |t.passengerList| + 1
      && o.trip.passengerList[..|t.passengerList|] == t.passengerList
      && o.trip.(waitlist := t.waitlist, passengerList := t.passengerList,
                 status := t.status, updatedAt := t.updatedAt) == t
      && o.trip.passengerList[|t.passengerList|] == Rec(AcceptedRecord(t.waitlist[i], t.id, rq))
  {
    var i := FindIndex(t.waitlist, ByUserId(rq.userId));
    var o := AcceptSpec(t, us, rq);
    Appended(t.waitlist, i, t.passengerList, Rec(AcceptedRecord(t.waitlist[i], t.id, rq)));
    assert o.trip == t.(waitlist := RemoveAt(t.waitlist, i),
                        passengerList := t.passengerList + [Rec(AcceptedRecord(t.waitlist[i], t.id, rq))],
                        status := o.trip.status, updatedAt := rq.now);
  }

  /** The two list edits of accept, on plain sequences. */
  lemma Appended(w: seq<Entry>, i: nat, p: seq<Entry>, e: Entry)
    requires i < |w|
    ensures RemoveAt(w, i) == w[..i] + w[i + 1..]
    ensures |p + [e]| == |p| + 1 && (p + [e])[..|p|] == p && (p + [e])[|p|] == e
  {
  }

  /** The accepted form of a matching waitlist entry: its own record with status accepted, or a fresh one for a bare uid. */
  lemma MovedRecord(entry: Entry, tripId: string, rq: Request)
    requires rq.userId != "" && Matches(ByUserId(rq.userId), entry)
    ensures var moved := Rec(AcceptedRecord(entry, tripId, rq));
      && moved.Rec? && moved.record.status == Accepted
      && Matches(ByUserId(rq.userId), moved)
      && (entry.Rec? ==> moved.record.(status := entry.record.status) == entry.record)
      && (entry.Legacy? ==>
            moved.record.movedFrom == "waitlist" && moved.record.tripId == tripId &&
            moved.record.firebaseUid == rq.caller && moved.record.userId == rq.userId)
  {
  }

  /** Accept closes the trip exactly when it was open and the new passenger count reaches `seats`; otherwise the status is unchanged. */
  lemma AcceptCloseRule(t: TripState, us: Users, rq: Request)
    requires AcceptSpec(t, us, rq).code == 200
    ensures var s := AcceptSpec(t, us, rq).trip.status;
      && (s == Closed <==> t.status == Closed || (t.status == Open && |t.passengerList| + 1 >= t.seats))
      && (s != Closed ==> s == t.status)
  {
  }

  /** Accept checks neither the status nor the capacity: on a full trip it still succeeds and overfills `passenger_list`. */
  lemma AcceptIgnoresCapacity(t: TripState, us: Users, rq: Request)
    requires rq.userId != "" && IsDriver(t, rq.caller) && Contains(t.waitlist, ByUserId(rq.userId))
    requires |t.passengerList| >= t.seats
    ensures var o := AcceptSpec(t, us, rq);
      o.code == 200 && |o.trip.passengerList| > t.seats
  {
  }

  /**
   * Accept touches at most one user document: that of the `firebase_uid` of
   * the accepted waitlist record, whose owned entries for the trip become
   * accepted (when that document exists, they are accepted afterwards even if
   * nothing had to be rewritten); every `my_trips` keeps its length.
   */
  lemma AcceptMirrorScope(t: TripState, us: Users, rq: Request)
    ensures var o := AcceptSpec(t, us, rq);
      && o.users.Keys == us.Keys
      && (forall u | u in us && o.users[u] != us[u] ::
           var i := FindIndex(t.waitlist, ByUserId(rq.userId));
           && o.code == 200 && 0 <= i
           && t.waitlist[i].Rec? && u == t.waitlist[i].record.firebaseUid
           && |o.users[u].myTrips| == |us[u].myTrips|
           && forall k | 0 <= k < |us[u].myTrips| ::
                if OwnedBy(us[u].myTrips[k], t.id, rq.userId)
                then o.users[u].myTrips[k].record.status == Accepted
                else o.users[u].myTrips[k] == us[u].myTrips[k])
      && (o.code == 200 ==>
           var i := FindIndex(t.waitlist, ByUserId(rq.userId));
           var u := UidOf(t.waitlist[i]);
           u != "" && u in us ==>
             forall k | 0 <= k < |us[u].myTrips| && OwnedBy(us[u].myTrips[k], t.id, rq.userId) ::
               o.users[u].myTrips[k].Rec? && o.users[u].myTrips[k].record.status == Accepted)
  {
  }

  // ---------------------------------------------------------------- apply

  /** Apply is refused (400) without `user_id`, for the driver, and for a user already in the waitlist; a refusal writes nothing. */
  lemma ApplyGuards(t: TripState, us: Users, rq: Request)
    ensures var o := ApplySpec(t, us, rq);
      && (o.code == 400 <==> rq.userId == "" || IsDriver(t, rq.caller) || Contains(t.waitlist, ByUserId(rq.userId)))
      && (o.code != 400 ==> o.code == 200)
      && (o.code == 400 ==> o.trip == t && o.users == us)
  {
  }

  /**
   * A successful apply appends exactly one waitlist record for the caller and
   * changes nothing else in the trip; the caller's `my_trips` gains the same
   * record only when no entry refers to the trip yet, and no other user
   * document changes.
   */
  lemma ApplyAppends(t: TripState, us: Users, rq: Request)
    requires ApplySpec(t, us, rq).code == 200
    ensures var o := ApplySpec(t, us, rq);
      var app := o.trip.waitlist[|t.waitlist|];
      && |o.trip.waitlist| == |t.waitlist| + 1
      && o.trip == t.(waitlist := t.waitlist + [app], updatedAt := rq.now)
      && app.Rec? && app.record.status == Waiting && app.record.tripId == t.id
      && app.record.firebaseUid == rq.caller && app.record.userId == rq.userId
      && o.users.Keys == us.Keys
      && (forall u | u in us && u != rq.caller :: o.users[u] == us[u])
      && (rq.caller in us ==>
            o.users[rq.caller].myTrips ==
              if HasTrip(us[rq.caller].myTrips, t.id) then us[rq.caller].myTrips
              else us[rq.caller].myTrips + [app])
  {
    var o := ApplySpec(t, us, rq);
    assert o.trip.waitlist == t.waitlist + [Rec(ApplicationRecord(t.id, rq))];
  }

  /** Apply reads neither the status nor `passenger_list`: the verdict is the same on a closed or cancelled trip. */
  lemma ApplyIgnoresStatus(t: TripState, us: Users, rq: Request, status: TripStatus, passengers: seq<Entry>)
    ensures ApplySpec(t.(status := status, passengerList := passengers), us, rq).code == ApplySpec(t, us, rq).code
  {
  }

  /** An accepted passenger who applies again is admitted and then stands in both lists. */
  lemma ReapplyJoinsBothLists(t: TripState, us: Users, rq: Request)
    requires rq.userId != "" && !IsDriver(t, rq.caller)
    requires Contains(t.passengerList, ByUserId(rq.userId)) && !Contains(t.waitlist, ByUserId(rq.userId))
    ensures var o := ApplySpec(t, us, rq);
      && o.code == 200
      && Contains(o.trip.passengerList, ByUserId(rq.userId))
      && Contains(o.trip.waitlist, ByUserId(rq.userId))
  {
    var o := ApplySpec(t, us, rq);
    assert Matches(ByUserId(rq.userId), o.trip.waitlist[|t.waitlist|]);
  }

  /** Applying twice with the same `user_id`: the second call is refused and the waitlist stays as the first left it. */
  lemma ApplyTwiceConflicts(t: TripState, us: Users, rq: Request)
    requires ApplySpec(t, us, rq).code == 200
    ensures var o := ApplySpec(t, us, rq);
      var o2 := ApplySpec(o.trip, o.users, rq);
      o2.code == 400 && o2.trip == o.trip && o2.users == o.users
  {
    var o := ApplySpec(t, us, rq);
    assert Matches(ByUserId(rq.userId), o.trip.waitlist[|t.waitlist|]);
  }

  // ------------------------------------------------ remove_passenger, cancel_passenger

  /**
   * The list surgery of both withdrawals removes at most one entry from each
   * list (one exactly when the list holds a match) and reopens the trip exactly
   * when it was closed and the remaining passengers are fewer than `seats`.
   */
  lemma WithdrawLists(t: TripState, m: Matcher, now: string)
    ensures var w := Withdraw(t, m, now);
      && |w.passengerList| == |t.passengerList| - (if Contains(t.passengerList, m) then 1 else 0)
      && |w.waitlist| == |t.waitlist| - (if Contains(t.waitlist, m) then 1 else 0)
      && multiset(w.passengerList) <= multiset(t.passengerList)
      && multiset(w.waitlist) <= multiset(t.waitlist)
      && (w.status == Open <==> t.status == Open || (t.status == Closed && |w.passengerList| < t.seats))
      && (w.status != Open ==> w.status == t.status)
      && w.(passengerList := t.passengerList, waitlist := t.waitlist,
            status := t.status, updatedAt := t.updatedAt) == t
  {
  }

  /** remove_passenger: 403 unless the caller is the driver, then 400 without `user_id`, then 404 when neither list holds the user; a rejection writes nothing. */
  lemma RemovePassengerGuards(t: TripState, us: Users, rq: Request)
    ensures var o := RemovePassengerSpec(t, us, rq);
      var m := ByUserId(rq.userId);
      && (o.code == 403 <==> !IsDriver(t, rq.caller))
      && (o.code == 400 <==> IsDriver(t, rq.caller) && rq.userId == "")
      && (o.code == 404 <==>
            IsDriver(t, rq.caller) && rq.userId != "" && !Contains(t.passengerList, m) && !Contains(t.waitlist, m))
      && (o.code == 200 <==>
            IsDriver(t, rq.caller) && rq.userId != "" && (Contains(t.passengerList, m) || Contains(t.waitlist, m)))
      && (o.code != 200 ==> o.trip == t && o.users == us)
      && (o.code == 200 ==> o.trip == Withdraw(t, m, rq.now))
  {
  }

  /**
   * The remove_passenger mirror: only the removed passenger's `my_trips` may
   * change; it keeps its length and its entries for other trips, and, when the
   * removed passenger's document exists, its entries for this trip are
   * cancelled by the driver.
   */
  lemma RemovePassengerMirror(t: TripState, us: Users, rq: Request)
    ensures var o := RemovePassengerSpec(t, us, rq);
      && o.users.Keys == us.Keys
      && (forall u | u in us ::
           && |o.users[u].myTrips| == |us[u].myTrips|
           && (forall k | 0 <= k < |us[u].myTrips| && !IsForTrip(us[u].myTrips[k], t.id) ::
                 o.users[u].myTrips[k] == us[u].myTrips[k])
           && (o.users[u] != us[u] ==>
                 && o.code == 200 && u == RemovedUid(t, ByUserId(rq.userId))
                 && forall k | 0 <= k < |us[u].myTrips| && IsForTrip(us[u].myTrips[k], t.id) ::
                      o.users[u].myTrips[k].Rec? && o.users[u].myTrips[k].record.status == EntryStatus.Cancelled &&
                      o.users[u].myTrips[k].record.cancelledBy == "driver"))
      && (o.code == 200 ==>
           var u := RemovedUid(t, ByUserId(rq.userId));
           u != "" && u in us ==>
             forall k | 0 <= k < |us[u].myTrips| && IsForTrip(us[u].myTrips[k], t.id) ::
               o.users[u].myTrips[k].Rec? && o.users[u].myTrips[k].record.status == EntryStatus.Cancelled &&
               o.users[u].myTrips[k].record.cancelledBy == "driver")
  {
  }

  /** cancel_passenger: 400 when the caller's profile has no `user_id`, 404 when neither list matches it or the caller's uid; a rejection writes nothing. */
  lemma CancelPassengerGuards(t: TripState, us: Users, rq: Request)
    ensures var o := CancelPassengerSpec(t, us, rq);
      var pid := ProfileUserId(us, rq.caller);
      var m := ByUserOrUid(pid, rq.caller);
      && (o.code == 400 <==> pid == "")
      && (o.code == 404 <==> pid != "" && !Contains(t.passengerList, m) && !Contains(t.waitlist, m))
      && (o.code == 200 <==> pid != "" && (Contains(t.passengerList, m) || Contains(t.waitlist, m)))
      && (o.code != 200 ==> o.trip == t && o.users == us)
      && (o.code == 200 ==> o.trip == Withdraw(t, m, rq.now))
  {
  }

  /**
   * The cancel_passenger mirror: only the caller's document changes, and its
   * `my_trips` loses every entry for the trip (string or record) while each
   * other entry keeps its multiplicity.
   */
  lemma CancelPassengerMirror(t: TripState, us: Users, rq: Request)
    requires CancelPassengerSpec(t, us, rq).code == 200
    ensures var o := CancelPassengerSpec(t, us, rq);
      && rq.caller in us
      && o.users.Keys == us.Keys
      && (forall u | u in us && u != rq.caller :: o.users[u] == us[u])
      && forall e :: multiset(o.users[rq.caller].myTrips)[e] ==
                       if IsForTrip(e, t.id) then 0 else multiset(us[rq.caller].myTrips)[e]
  {
    forall e {
      DropTripCounts(us[rq.caller].myTrips, t.id, e);
    }
  }

  // ---------------------------------------------------------------- cancel

  /** Cancel: 403 unless the caller is the driver, then 400 unless the trip is open; success only sets the status to cancelled. */
  lemma CancelGuards(t: TripState, us: Users, rq: Request)
    ensures var o := CancelSpec(t, us, rq);
      && (o.code == 403 <==> !IsDriver(t, rq.caller))
      && (o.code == 400 <==> IsDriver(t, rq.caller) && t.status != Open)
      && (o.code == 200 <==> IsDriver(t, rq.caller) && t.status == Open)
      && (o.code != 200 ==> o.trip == t && o.users == us)
      && (o.code == 200 ==> o.trip == t.(status := TripStatus.Cancelled, updatedAt := rq.now))
  {
  }

  /** `u` is the `firebase_uid` of some record entry of either list. */
  predicate Participant(t: TripState, u: string) {
    var all := t.passengerList + t.waitlist;
    u != "" && exists k | 0 <= k < |all| :: all[k].Rec? && all[k].record.firebaseUid == u
  }

  /**
   * The cancel cascade: the document of every participant has each entry for
   * the trip cancelled by the driver, keeps its length and its other entries;
   * every other document is untouched.
   */
  lemma CancelCascadeEffect(t: TripState, us: Users, rq: Request)
    requires CancelSpec(t, us, rq).code == 200
    ensures var o := CancelSpec(t, us, rq);
      && o.users.Keys == us.Keys
      && forall u | u in us ::
           && (!Participant(t, u) ==> o.users[u] == us[u])
           && |o.users[u].myTrips| == |us[u].myTrips|
           && (forall k | 0 <= k < |us[u].myTrips| && !IsForTrip(us[u].myTrips[k], t.id) ::
                 o.users[u].myTrips[k] == us[u].myTrips[k])
           && (Participant(t, u) ==>
                 forall k | 0 <= k < |us[u].myTrips| && IsForTrip(us[u].myTrips[k], t.id) ::
                   o.users[u].myTrips[k].Rec? && o.users[u].myTrips[k].record.status == EntryStatus.Cancelled &&
                   o.users[u].myTrips[k].record.cancelledBy == "driver")
  {
    var all := t.passengerList + t.waitlist;
    forall u | u in us
      ensures u in CascadeTargets(all) <==> Participant(t, u)
    {
      if Participant(t, u) {
        var k :| 0 <= k < |all| && all[k].Rec? && all[k].record.firebaseUid == u;
        assert UidOf(all[k]) == u;
      }
    }
  }

  // ---------------------------------------------------------------- scenario

  /** A one-seat open trip: accepting its only applicant closes it, and removing that passenger reopens it with both lists empty. */
  lemma AcceptThenRemoveReopens(t: TripState, us: Users, rq: Request)
    requires t.status == Open && t.seats == 1 && t.passengerList == [] && |t.waitlist| == 1
    requires rq.userId != "" && IsDriver(t, rq.caller) && Matches(ByUserId(rq.userId), t.waitlist[0])
    ensures var a := AcceptSpec(t, us, rq);
      && a.code == 200 && a.trip.status == Closed && a.trip.waitlist == [] && |a.trip.passengerList| == 1
      && var r := RemovePassengerSpec(a.trip, a.users, rq);
         r.code == 200 && r.trip.status == Open && r.trip.passengerList == [] && r.trip.waitlist == []
  {
    var a := AcceptSpec(t, us, rq);
    AcceptMoves(t, us, rq);
    assert Matches(ByUserId(rq.userId), a.trip.passengerList[0]);
  }
}
