/**
 * The passenger search of the GET branch of api/trips.ts (`search=true`).
 *
 * Each open trip runs through five filters in order: the caller's own trips,
 * the requested date, the requested time, the route coordinates and the route
 * geometry. The distances come from outside the model: `dist` stands for the
 * great-circle distance and `toSegment` for the distance from a point to the
 * driver's start-destination segment; only the comparisons and thresholds are
 * modelled. Accepted trips come back newest first; rejected ones are reported
 * with their reasons in debug mode.
 */
module Search {
  import opened Wrappers
  import opened Listing

  datatype Coord = Coord(lat: real, lng: real)

  /** The trip's `time` as the Date parser reads it: the UTC calendar date (YYYY-MM-DD) and the instant in milliseconds. */
  datatype Instant = Instant(dateIso: string, ms: int)

  /** An open trip document as the search reads it; a coordinate that does not convert to a number is `None`. */
  datatype Candidate = Candidate(
    tripId: string,
    driverUid: string,
    time: Option<Instant>,
    extraMinutes: real,
    startLat: Option<real>,
    startLng: Option<real>,
    destLat: Option<real>,
    destLng: Option<real>,
    createdAt: Option<int>)

  /**
   * A search request: `requestedDate` is "" when absent, `passengerMs` the
   * instant of the requested local date and time when it parses, and
   * `includeSelf` holds for `viewerRole=driver`.
   */
  datatype Query = Query(
    caller: string,
    from: Coord,
    to: Coord,
    requestedDate: string,
    passengerMs: Option<int>,
    includeSelf: bool,
    debug: bool)

  /** The rejection reasons reported in debug mode. */
  datatype Reason =
    | SameDriver | DateMismatch | TimeDifference | MissingCoordinates
    | LocationMismatch | DetourExceeded | MinutesExceeded

  /** A trip is accepted with its extra distance and detour minutes, or rejected with its reasons. */
  datatype Verdict = Match(extraKm: real, minutes: real) | Reject(reasons: seq<Reason>)

  /** 30 km/h. */
  const AverageSpeedKmPerMin: real := 0.5
  /** Tolerance for coordinate errors. */
  const BaseRouteToleranceKm: real := 0.5
  const FixedExtraMarginKm: real := 0.2
  /** Added to `extra_minutes` for the time filter. */
  const TimeMarginMinutes: real := 30.0
  /** Added to `extra_minutes` for the detour-minutes check. */
  const DetourMinutesMargin: real := 15.0

  /** The self filter: only `driver_uid` is compared, and `viewerRole=driver` switches it off. */
  predicate SelfExcluded(c: Candidate, q: Query) {
    !q.includeSelf && c.driverUid == q.caller
  }

  /** The date filter: with a requested date, a trip without a time or on another date is dropped. */
  predicate DateRejected(c: Candidate, q: Query) {
    q.requestedDate != "" && (c.time.None? || c.time.value.dateIso != q.requestedDate)
  }

  function MinutesApart(a: int, b: int): real {
    (if a >= b then a - b else b - a) as real / 60000.0
  }

  /**
   * The time filter applies only when both instants are truthy (present and
   * not 0), and drops the trip when they are more than `extra_minutes + 30`
   * minutes apart.
   */
  predicate TimeRejected(c: Candidate, q: Query) {
    q.passengerMs.Some? && q.passengerMs.value != 0 && c.time.Some? && c.time.value.ms != 0 &&
    MinutesApart(c.time.value.ms, q.passengerMs.value) > c.extraMinutes + TimeMarginMinutes
  }

  predicate HasCoordinates(c: Candidate) {
    c.startLat.Some? && c.startLng.Some? && c.destLat.Some? && c.destLng.Some?
  }

  /** The quantities of the geometry filter. */
  datatype Geometry = Geometry(extraKm: real, allowanceKm: real, minutes: real, originOk: bool, destinationOk: bool)

  /**
   * The geometry filter's quantities: the extra distance is the detour's excess
   * over the driver's route, never negative; the minutes are that distance at
   * 30 km/h; the allowance is `extra_minutes` at that speed plus 0.2 km; an
   * end of the passenger's route is near when it is within 0.5 km
   * of the driver's segment and within the allowance plus 0.5 km of the
   * driver's own end.
   */
  function Measure(c: Candidate, q: Query, dist: (Coord, Coord) -> real, toSegment: (Coord, Coord, Coord) -> real): (g: Geometry)
    requires HasCoordinates(c)
    ensures var start, dest := Coord(c.startLat.value, c.startLng.value), Coord(c.destLat.value, c.destLng.value);
      var detourKm := dist(start, q.from) + dist(q.from, q.to) + dist(q.to, dest);
      && g.extraKm >= 0.0 && g.extraKm >= detourKm - dist(start, dest)
      && (g.extraKm == 0.0 || g.extraKm == detourKm - dist(start, dest))
      && g.minutes * AverageSpeedKmPerMin == g.extraKm
      && g.allowanceKm == c.extraMinutes * AverageSpeedKmPerMin + FixedExtraMarginKm
      && (g.originOk <==> toSegment(q.from, start, dest) <= 0.5 && dist(start, q.from) <= g.allowanceKm + 0.5)
      && (g.destinationOk <==> toSegment(q.to, start, dest) <= 0.5 && dist(dest, q.to) <= g.allowanceKm + 0.5)
  {
    var start := Coord(c.startLat.value, c.startLng.value);
    var dest := Coord(c.destLat.value, c.destLng.value);
    var driverRouteKm := dist(start, dest);
    var detourRouteKm := dist(start, q.from) + dist(q.from, q.to) + dist(q.to, dest);
    var extraKm := if detourRouteKm - driverRouteKm > 0.0 then detourRouteKm - driverRouteKm else 0.0;
    var allowanceKm := c.extraMinutes * AverageSpeedKmPerMin + FixedExtraMarginKm;
    var originOk :=
      toSegment(q.from, start, dest) <= BaseRouteToleranceKm &&
      dist(start, q.from) <= allowanceKm + BaseRouteToleranceKm;
    var destinationOk :=
      toSegment(q.to, start, dest) <= BaseRouteToleranceKm &&
      dist(dest, q.to) <= allowanceKm + BaseRouteToleranceKm;
    Geometry(extraKm, allowanceKm, extraKm / AverageSpeedKmPerMin, originOk, destinationOk)
  }

  /** Where each reason stands in the order the filters report them. */
  function ReportOrder(r: Reason): nat {
    match r
    case SameDriver => 0
    case DateMismatch => 1
    case TimeDifference => 2
    case MissingCoordinates => 3
    case LocationMismatch => 4
    case DetourExceeded => 5
    case MinutesExceeded => 6
  }

  /** The reasons appear in report order, each at most once. */
  predicate InReportOrder(rs: seq<Reason>) {
    forall i, j :: 0 <= i < j < |rs| ==> ReportOrder(rs[i]) < ReportOrder(rs[j])
  }

  /** The geometry filter's reasons: one per failed check, in the order they are reported. */
  function GeometryReasons(locationMatches: bool, detourOk: bool, minutesOk: bool): (r: seq<Reason>)
    ensures LocationMismatch in r <==> !locationMatches
    ensures DetourExceeded in r <==> !detourOk
    ensures MinutesExceeded in r <==> !minutesOk
    ensures forall x :: x in r ==> x in {LocationMismatch, DetourExceeded, MinutesExceeded}
    ensures InReportOrder(r)
  {
    (if !locationMatches then [LocationMismatch] else []) +
    (if !detourOk then [DetourExceeded] else []) +
    (if !minutesOk then [MinutesExceeded] else [])
  }

  /** The body of the per-trip callback: the first failing filter decides, the geometry filter lists all it finds. */
  function Evaluate(c: Candidate, q: Query, dist: (Coord, Coord) -> real, toSegment: (Coord, Coord, Coord) -> real): (v: Verdict)
    ensures v.Match? ==>
      0.0 <= v.extraKm <= c.extraMinutes * AverageSpeedKmPerMin + FixedExtraMarginKm &&
      v.minutes * AverageSpeedKmPerMin == v.extraKm
    ensures v.Reject? ==> |v.reasons| >= 1
  {
    if SelfExcluded(c, q) then Reject([SameDriver])
    else if DateRejected(c, q) then Reject([DateMismatch])
    else if TimeRejected(c, q) then Reject([TimeDifference])
    else if !HasCoordinates(c) then Reject([MissingCoordinates])
    else
      var g := Measure(c, q, dist, toSegment);
      var locationMatches := g.originOk || g.destinationOk;
      var detourOk := g.extraKm <= g.allowanceKm;
      var minutesOk := g.minutes <= c.extraMinutes + DetourMinutesMargin;
      if locationMatches && detourOk && minutesOk then Match(g.extraKm, g.minutes)
      else Reject(GeometryReasons(locationMatches, detourOk, minutesOk))
  }

  /**
   * A trip is accepted exactly when it passes the first four filters, one end
   * of the passenger's route lies near the driver's route, and the detour fits
   * the allowance: the detour-minutes check never decides on its own.
   */
  lemma AcceptedExactly(c: Candidate, q: Query, dist: (Coord, Coord) -> real, toSegment: (Coord, Coord, Coord) -> real)
    ensures Evaluate(c, q, dist, toSegment).Match? <==>
      !SelfExcluded(c, q) && !DateRejected(c, q) && !TimeRejected(c, q) && HasCoordinates(c) &&
      (Measure(c, q, dist, toSegment).originOk || Measure(c, q, dist, toSegment).destinationOk) &&
      Measure(c, q, dist, toSegment).extraKm <= Measure(c, q, dist, toSegment).allowanceKm
  {
    if !SelfExcluded(c, q) && !DateRejected(c, q) && !TimeRejected(c, q) && HasCoordinates(c) {
      DetourBoundsMinutes(c, q, dist, toSegment);
    }
  }

  /** Within the detour allowance, the detour minutes stay within `extra_minutes + 0.4`, well inside `extra_minutes + 15`. */
  lemma DetourBoundsMinutes(c: Candidate, q: Query, dist: (Coord, Coord) -> real, toSegment: (Coord, Coord, Coord) -> real)
    requires HasCoordinates(c)
    ensures var g := Measure(c, q, dist, toSegment);
      g.extraKm <= g.allowanceKm ==> g.minutes <= c.extraMinutes + 0.4
    ensures var g := Measure(c, q, dist, toSegment);
      g.extraKm <= g.allowanceKm ==> g.minutes <= c.extraMinutes + DetourMinutesMargin
  {
    var g := Measure(c, q, dist, toSegment);
    assert g.minutes == g.extraKm * 2.0;
  }

  /**
   * Once the first four filters pass, a rejected trip reports exactly the
   * geometry checks it fails, in report order and each once: the route ends
   * are both too far, the extra distance is over the allowance, or the
   * minutes are over `extra_minutes + 15`.
   */
  lemma GeometryRejection(c: Candidate, q: Query, dist: (Coord, Coord) -> real, toSegment: (Coord, Coord, Coord) -> real)
    requires !SelfExcluded(c, q) && !DateRejected(c, q) && !TimeRejected(c, q) && HasCoordinates(c)
    requires Evaluate(c, q, dist, toSegment).Reject?
    ensures var g, v := Measure(c, q, dist, toSegment), Evaluate(c, q, dist, toSegment);
      && (LocationMismatch in v.reasons <==> !(g.originOk || g.destinationOk))
      && (DetourExceeded in v.reasons <==> g.extraKm > g.allowanceKm)
      && (MinutesExceeded in v.reasons <==> g.minutes > c.extraMinutes + DetourMinutesMargin)
      && (forall r :: r in v.reasons ==> r in {LocationMismatch, DetourExceeded, MinutesExceeded})
      && InReportOrder(v.reasons)
  {
  }

  /** A trip reported for exceeding the minutes is always reported for exceeding the detour too. */
  lemma MinutesExceededOnlyWithDetour(c: Candidate, q: Query, dist: (Coord, Coord) -> real, toSegment: (Coord, Coord, Coord) -> real)
    requires Evaluate(c, q, dist, toSegment).Reject?
    ensures MinutesExceeded in Evaluate(c, q, dist, toSegment).reasons ==> DetourExceeded in Evaluate(c, q, dist, toSegment).reasons
  {
    if HasCoordinates(c) {
      DetourBoundsMinutes(c, q, dist, toSegment);
    }
  }

  /** Every threshold that depends on `extra_minutes` grows with it, so a larger value never loses a match. */
  lemma MoreMinutesKeepMatch(c: Candidate, more: real, q: Query, dist: (Coord, Coord) -> real, toSegment: (Coord, Coord, Coord) -> real)
    requires c.extraMinutes <= more
    requires Evaluate(c, q, dist, toSegment).Match?
    ensures Evaluate(c.(extraMinutes := more), q, dist, toSegment).Match?
  {
    var c' := c.(extraMinutes := more);
    AcceptedExactly(c, q, dist, toSegment);
    AcceptedExactly(c', q, dist, toSegment);
    var g, g' := Measure(c, q, dist, toSegment), Measure(c', q, dist, toSegment);
    assert g'.extraKm == g.extraKm && g.allowanceKm <= g'.allowanceKm;
  }

  /** The filters run in order: a trip is rejected for its first failing filter alone, and only geometry reports several. */
  lemma FirstFailingFilter(c: Candidate, q: Query, dist: (Coord, Coord) -> real, toSegment: (Coord, Coord, Coord) -> real)
    ensures SelfExcluded(c, q) ==> Evaluate(c, q, dist, toSegment) == Reject([SameDriver])
    ensures !SelfExcluded(c, q) && DateRejected(c, q) ==> Evaluate(c, q, dist, toSegment) == Reject([DateMismatch])
    ensures !SelfExcluded(c, q) && !DateRejected(c, q) && TimeRejected(c, q) ==>
      Evaluate(c, q, dist, toSegment) == Reject([TimeDifference])
    ensures !SelfExcluded(c, q) && !DateRejected(c, q) && !TimeRejected(c, q) && !HasCoordinates(c) ==>
      Evaluate(c, q, dist, toSegment) == Reject([MissingCoordinates])
    ensures Evaluate(c, q, dist, toSegment).Reject? && |Evaluate(c, q, dist, toSegment).reasons| > 1 ==>
      HasCoordinates(c) && forall r :: r in Evaluate(c, q, dist, toSegment).reasons ==>
        r in {LocationMismatch, DetourExceeded, MinutesExceeded}
  {
  }

  // ---------------------------------------------------------------- the search loop

  /** An accepted trip with its detour minutes and extra distance. */
  datatype Found = Found(trip: Candidate, estimatedMinutes: real, extraKm: real)

  /** A debug entry: the trip and why it was dropped. */
  datatype Rejection = Rejection(tripId: string, reasons: seq<Reason>)

  function FoundCreatedAt(f: Found): int {
    CreatedAtMs(f.trip.createdAt)
  }

  /** The accepted trips in snapshot order. */
  function Matched(cs: seq<Candidate>, q: Query, dist: (Coord, Coord) -> real, toSegment: (Coord, Coord, Coord) -> real): (r: seq<Found>)
    ensures |r| <= |cs|
    ensures forall f :: f in r ==>
      f.trip in cs && Evaluate(f.trip, q, dist, toSegment) == Match(f.extraKm, f.estimatedMinutes)
    ensures forall c :: c in cs && Evaluate(c, q, dist, toSegment).Match? ==>
      Found(c, Evaluate(c, q, dist, toSegment).minutes, Evaluate(c, q, dist, toSegment).extraKm) in r
  {
    if cs == [] then []
    else
      var c := cs[|cs| - 1];
      var v := Evaluate(c, q, dist, toSegment);
      assert cs == cs[..|cs| - 1] + [c];
      Matched(cs[..|cs| - 1], q, dist, toSegment) + (if v.Match? then [Found(c, v.minutes, v.extraKm)] else [])
  }

  /** The rejected trips in snapshot order, with their reasons. */
  function Rejected(cs: seq<Candidate>, q: Query, dist: (Coord, Coord) -> real, toSegment: (Coord, Coord, Coord) -> real): (r: seq<Rejection>)
    ensures |r| <= |cs|
    ensures forall k :: 0 <= k < |r| ==> |r[k].reasons| >= 1
  {
    if cs == [] then []
    else
      var c := cs[|cs| - 1];
      var v := Evaluate(c, q, dist, toSegment);
      Rejected(cs[..|cs| - 1], q, dist, toSegment) + (if v.Reject? then [Rejection(c.tripId, v.reasons)] else [])
  }

  /** A snapshot of one trip: it is collected with its figures when accepted, and reported with its reasons otherwise. */
  lemma OneCandidate(c: Candidate, q: Query, dist: (Coord, Coord) -> real, toSegment: (Coord, Coord, Coord) -> real)
    ensures var v := Evaluate(c, q, dist, toSegment);
      && Matched([c], q, dist, toSegment) == (if v.Match? then [Found(c, v.minutes, v.extraKm)] else [])
      && Rejected([c], q, dist, toSegment) == (if v.Reject? then [Rejection(c.tripId, v.reasons)] else [])
  {
    assert [c][..0] == [];
  }

  /** Appending one trip to the snapshot appends what that trip alone yields. */
  lemma MatchedSnoc(cs: seq<Candidate>, c: Candidate, q: Query, dist: (Coord, Coord) -> real, toSegment: (Coord, Coord, Coord) -> real)
    ensures Matched(cs + [c], q, dist, toSegment) == Matched(cs, q, dist, toSegment) + Matched([c], q, dist, toSegment)
  {
    assert (cs + [c])[..|cs|] == cs;
    assert [c][..0] == [];
  }

  /** The accepted trips are collected trip by trip in snapshot order: the list commutes with concatenation. */
  lemma {:induction false} MatchedAppend(a: seq<Candidate>, b: seq<Candidate>, q: Query, dist: (Coord, Coord) -> real, toSegment: (Coord, Coord, Coord) -> real)
    ensures Matched(a + b, q, dist, toSegment) == Matched(a, q, dist, toSegment) + Matched(b, q, dist, toSegment)
  {
    if b == [] {
      assert a + b == a;
    } else {
      var init, c := b[..|b| - 1], b[|b| - 1];
      assert b == init + [c];
      assert a + b == (a + init) + [c];
      MatchedAppend(a, init, q, dist, toSegment);
      MatchedSnoc(a + init, c, q, dist, toSegment);
      MatchedSnoc(init, c, q, dist, toSegment);
      Regroup(Matched(a, q, dist, toSegment), Matched(init, q, dist, toSegment), Matched([c], q, dist, toSegment));
    }
  }

  /** Appending one trip to the snapshot appends what that trip alone yields. */
  lemma RejectedSnoc(cs: seq<Candidate>, c: Candidate, q: Query, dist: (Coord, Coord) -> real, toSegment: (Coord, Coord, Coord) -> real)
    ensures Rejected(cs + [c], q, dist, toSegment) == Rejected(cs, q, dist, toSegment) + Rejected([c], q, dist, toSegment)
  {
    assert (cs + [c])[..|cs|] == cs;
    assert [c][..0] == [];
  }

  /** The rejected trips are reported trip by trip in snapshot order: the list commutes with concatenation. */
  lemma {:induction false} RejectedAppend(a: seq<Candidate>, b: seq<Candidate>, q: Query, dist: (Coord, Coord) -> real, toSegment: (Coord, Coord, Coord) -> real)
    ensures Rejected(a + b, q, dist, toSegment) == Rejected(a, q, dist, toSegment) + Rejected(b, q, dist, toSegment)
  {
    if b == [] {
      assert a + b == a;
    } else {
      var init, c := b[..|b| - 1], b[|b| - 1];
      assert b == init + [c];
      assert a + b == (a + init) + [c];
      RejectedAppend(a, init, q, dist, toSegment);
      RejectedSnoc(a + init, c, q, dist, toSegment);
      RejectedSnoc(init, c, q, dist, toSegment);
      Regroup(Rejected(a, q, dist, toSegment), Rejected(init, q, dist, toSegment), Rejected([c], q, dist, toSegment));
    }
  }

  /** Every trip of the snapshot is either accepted or reported. */
  lemma {:induction false} MatchedOrRejected(cs: seq<Candidate>, q: Query, dist: (Coord, Coord) -> real, toSegment: (Coord, Coord, Coord) -> real)
    ensures |Matched(cs, q, dist, toSegment)| + |Rejected(cs, q, dist, toSegment)| == |cs|
  {
    if cs != [] {
      MatchedOrRejected(cs[..|cs| - 1], q, dist, toSegment);
    }
  }

  /**
   * The search loop over the snapshot: accepted trips are collected, rejected
   * ones are reported only in debug mode, and the accepted trips are returned
   * newest first.
   */
  method Search(candidates: seq<Candidate>, q: Query, dist: (Coord, Coord) -> real, toSegment: (Coord, Coord, Coord) -> real)
    returns (trips: seq<Found>, debugDetails: seq<Rejection>)
    ensures trips == SortNewestFirst(Matched(candidates, q, dist, toSegment), FoundCreatedAt)
    ensures debugDetails == if q.debug then Rejected(candidates, q, dist, toSegment) else []
  {
    var accepted: seq<Found> := [];
    debugDetails := [];
    var i := 0;
    while i < |candidates|
      invariant 0 <= i <= |candidates|
      invariant accepted == Matched(candidates[..i], q, dist, toSegment)
      invariant debugDetails == if q.debug then Rejected(candidates[..i], q, dist, toSegment) else []
    {
      var c := candidates[i];
      assert candidates[..i + 1][..i] == candidates[..i];
      var v := Evaluate(c, q, dist, toSegment);
      if v.Match? {
        accepted := accepted + [Found(c, v.minutes, v.extraKm)];
      } else if q.debug {
        debugDetails := debugDetails + [Rejection(c.tripId, v.reasons)];
      }
      i := i + 1;
    }
    assert candidates[..i] == candidates;
    trips := SortNewestFirst(accepted, FoundCreatedAt);
  }
}
