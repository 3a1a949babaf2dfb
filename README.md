# Ride-sharing trips backend: a verified model of its core

This project models the request logic of a ride-sharing backend in Dafny.
Drivers post trips. Passengers apply to join a trip's waitlist. The driver accepts applicants into the passenger list, removes them, or cancels the trip. Each user document keeps a `my_trips` mirror of the trips it takes part in.

The model covers:

- **The PATCH actions of `api/trips.ts`.** These are `cancel`, `remove_passenger`, `cancel_passenger`, `accept` and the default `apply`.
  - The actions appear twice. `TripSpec` gives them as functions from a trip, the `users` collection and a request to an `Outcome`: a response code, the trip as written back, and the users as written back.
  - `TripStore.Trip` is a class whose methods perform the same steps in place: copy the lists, find an entry, splice it out, push a record, set the flags, then write. Each method is proved to end in exactly the state that its `TripSpec` function describes.
  - `TripProperties` proves what the actions promise, and also where they do not keep the invariants the data model suggests.
- **List entries (`Entries`).** A waitlist, passenger-list or `my_trips` entry is either a legacy bare identifier string or an application record. The module also holds:
  - the first-match lookups;
  - the three `my_trips` rewrites: cancelled by the driver, accepted, and deleted;
  - the cancel cascade's target set.
- **The passenger search (`Search`).** Each open trip goes through five filters: the caller's own trips, the date, the time, the coordinates and the route geometry.
  - The great-circle distance and the point-to-segment distance are function parameters. Only the comparisons and thresholds are modelled.
  - The loop collects the accepted trips. It also reports the rejected ones when the request is in debug mode.
  - The accepted trips come back sorted newest first.
- **The listing helpers (`Listing`).**
  - the `ids` query parameter: split on commas, trim each piece, drop the empty ones;
  - the stable newest-first sort on `createdAt`;
  - the `±HH:MM` suffix that `parseLocalDateTimeMs` appends.
- **The auth sub-router of `api/auth/index.ts` (`AuthRouter`).**
  - It strips the query string, removes one trailing slash and dispatches on an exact match to one of nine handlers.
  - Any other path gets a 404 that echoes the normalised path.

Conventions:

- A document field that the code treats as absent or falsy is the empty string, or `None` when it is not a string.
- Every timestamp a request writes is the request's `now`.
- Firestore reads and writes are the fields of `Trip` and the map in `UserDirectory`.
- The caller's uid comes from a verified token (api/trips.ts:106-118), and a PATCH without a `trip_id` is answered before any action runs (api/trips.ts:489). The trip actions are therefore stated for a non-empty caller and trip id; with an empty caller, the driver check would also hold for a trip that has no `driver_uid`.

## Model

| member | source | states |
|---|---|---|
| Entries.FindIndex | api/trips.ts:612-620 | the index is -1 exactly when no entry matches; otherwise the entry there matches and none before it does (`findIndex`) |
| Entries.RemoveAt | api/trips.ts:625 | `splice(i, 1)`: one element shorter, elements before `i` in place, later ones shifted down by one, the multiset loses exactly `s[i]` |
| Entries.RemoveFirst | api/trips.ts:612-628 | with no match the list is unchanged; otherwise it is the list without the first match, and the multiset loses exactly that entry |
| Entries.MarkCancelled | api/trips.ts:546-568 | same length; entries for other trips untouched; each entry for the trip becomes a record with status cancelled, `cancelledBy` "driver" and `cancelledAt` now; a record keeps its other fields; a legacy string becomes a record carrying the given uid and `user_id` |
| Entries.MarkAccepted | api/trips.ts:981-991 | same length; only record entries for the trip whose `user_id` is the request's or absent become accepted, with no other field changed; legacy strings and other entries stay unchanged |
| Entries.DropTrip | api/trips.ts:861-870 | the result is no longer than the input and holds no entry for the trip; every entry it holds comes from the input |
| Entries.DropTripCounts | api/trips.ts:861-870 | every entry for the trip is deleted (count 0), and every other entry keeps its multiplicity |
| Entries.DropTripAppend | api/trips.ts:861-870 | the filter commutes with concatenation, so the kept entries keep their relative order |
| Entries.DropTripNothingToDrop | api/trips.ts:861-870 | a `my_trips` with no entry for the trip comes back unchanged |
| Entries.CollectCascadeTargets | api/trips.ts:527-532 | the `passengerUids` set built with `forEach`/`add`: holds no duplicate and contains exactly the non-empty `firebase_uid`s of the record entries |
| Entries.LegacyNotCascaded | api/trips.ts:528-531 | appending a legacy string entry does not change the cascade targets |
| TripSpec.ActionOf | api/trips.ts:504-1044 | each named action is chosen exactly when `action` is its string ("cancel", "remove_passenger", "cancel_passenger", "accept"), and apply exactly when it is none of the four |
| TripSpec.AcceptSpec | api/trips.ts:936-1039 | accept answers 200, 400, 403 or 404; any other code than 200 writes neither the trip nor a user document; no user document appears or disappears, and the trip keeps its id |
| TripSpec.ApplySpec | api/trips.ts:1044-1113 | apply answers 200 or 400; a 400 writes nothing; no user document appears or disappears, and the trip keeps its id |
| TripSpec.RemovePassengerSpec | api/trips.ts:593-755 | remove_passenger answers 200, 400, 403 or 404; a refusal writes nothing; no user document appears or disappears, and the trip keeps its id |
| TripSpec.CancelPassengerSpec | api/trips.ts:758-890 | cancel_passenger answers 200, 400 or 404; a refusal writes nothing; no user document appears or disappears, and the trip keeps its id |
| TripSpec.CancelCascade | api/trips.ts:537-581 | the fan-out keeps the set of user documents; a document outside the targets is unchanged; a target keeps its `user_id`, gets `updatedAt` now, and keeps its `my_trips` length, with the entries for the trip cancelled and the others unchanged |
| TripSpec.CancelSpec | api/trips.ts:504-589 | cancel answers 200, 400 or 403; a refusal writes nothing; no user document appears or disappears, and the trip keeps its id |
| TripSpec.PatchSpec | api/trips.ts:480-1113 | the PATCH answers 200, 400, 403 or 404 whatever the action; a refusal writes nothing; no user document appears or disappears, and the trip keeps its id |
| TripProperties.AcceptGuards | api/trips.ts:893-956 | accept gives 400 iff `user_id` is missing, then 403 iff the caller is neither `driver_uid` nor `driver_id`, then 404 iff no waitlist entry matches, else 200; any code other than 200 writes nothing |
| TripProperties.AcceptMoves | api/trips.ts:958-1024 | on success the first match leaves the waitlist and the others keep their order. The passenger list gains one accepted entry at its end that matches `user_id`. A record keeps its other fields; a legacy string becomes a fresh record with `movedFrom` "waitlist" for the trip. Nothing outside the lists, status and `updatedAt` changes |
| TripProperties.AcceptCloseRule | api/trips.ts:1015-1030 | the status after accept is closed iff it was closed, or it was open and the new passenger count reaches `seats`; otherwise the status is unchanged |
| TripProperties.AcceptIgnoresCapacity | api/trips.ts:936-1030 | accept succeeds on a full trip and leaves more passengers than `seats` |
| TripProperties.AcceptMirrorScope | api/trips.ts:967-1003 | accept changes no user document except that of the accepted record's `firebase_uid`. In that document `my_trips` keeps its length, its owned entries for the trip become accepted, and every other entry stays unchanged. Conversely, after a 200, when the accepted entry has a `firebase_uid` with a document, every owned entry for the trip in that document is accepted |
| TripProperties.ApplyGuards | api/trips.ts:893-1059 | apply gives 400 iff `user_id` is missing, or the caller is the driver, or the waitlist already matches `user_id`; otherwise 200; a refusal writes nothing |
| TripProperties.ApplyAppends | api/trips.ts:898-1091 | on success the trip changes only by one waitlist record (status waitlist, this trip, the caller's uid and `user_id`) plus `updatedAt`. The caller's `my_trips` gains the same record only when no entry refers to the trip. No other user document changes |
| TripProperties.ApplyIgnoresStatus | api/trips.ts:1044-1061 | the verdict of apply depends neither on the trip status nor on `passenger_list` |
| TripProperties.ReapplyJoinsBothLists | api/trips.ts:1049-1061 | a passenger already in `passenger_list` who applies again is admitted, and then stands in both lists |
| TripProperties.ApplyTwiceConflicts | api/trips.ts:1049-1059 | a second identical apply is refused with 400 and writes nothing |
| TripProperties.WithdrawLists | api/trips.ts:612-852 | each list loses one entry exactly when it held a match, and entries only leave, never arrive. The status becomes open iff it was open, or it was closed and the remaining passengers are fewer than `seats`; otherwise it is unchanged. Nothing else changes |
| TripProperties.RemovePassengerGuards | api/trips.ts:596-665 | remove_passenger gives 403 iff the caller is not the driver, then 400 iff `user_id` is missing, then 404 iff neither list matches. A rejection writes nothing; success leaves the withdrawn trip |
| TripProperties.RemovePassengerMirror | api/trips.ts:622-742 | only the document of the removed entry's `firebase_uid` may change, with the passenger-list entry taking precedence over the waitlist entry. Every `my_trips` keeps its length and its entries for other trips; in the changed document the entries for the trip become cancelled by the driver. Conversely, after a 200, when the removed entry has a `firebase_uid` with a document, every entry for the trip in that document is cancelled by the driver |
| TripProperties.CancelPassengerGuards | api/trips.ts:760-825 | cancel_passenger gives 400 iff the caller's profile has no `user_id`, then 404 iff neither list matches by `user_id` or by the caller's `firebase_uid`. A rejection writes nothing; success leaves the withdrawn trip |
| TripProperties.CancelPassengerMirror | api/trips.ts:855-879 | only the caller's document changes: every entry for the trip is deleted from its `my_trips`, and every other entry keeps its multiplicity |
| TripProperties.CancelGuards | api/trips.ts:504-524 | cancel gives 403 iff the caller is not the driver, then 400 iff the trip is not open; success changes only the status to cancelled and `updatedAt` |
| TripProperties.CancelCascadeEffect | api/trips.ts:515-581 | exactly the documents of the record entries' `firebase_uid`s in both lists are rewritten. Their entries for the trip become cancelled by the driver, with length and other entries kept; every other document is untouched |
| TripProperties.AcceptThenRemoveReopens | api/trips.ts:593-1030 | on a one-seat open trip, accepting its only applicant closes the trip; removing that passenger again reopens it with both lists empty |
| TripStore.UserDirectory.UpdateMyTrips | api/trips.ts:570-877 | `users.doc(uid).update({ my_trips, updatedAt })` replaces only those two fields of that one document |
| TripStore.UserDirectory.CancelTripFor | api/trips.ts:537-581 | after the fan-out, every listed uid with a document has its trip entries marked cancelled; other documents are unchanged |
| TripStore.Trip.Accept | api/trips.ts:936-1039 | the new trip fields, user documents and code equal `TripSpec.AcceptSpec` on the old state |
| TripStore.Trip.Apply | api/trips.ts:1044-1113 | the new trip fields, user documents and code equal `TripSpec.ApplySpec` on the old state |
| TripStore.Trip.SpliceFirst | api/trips.ts:612-652 | the remaining list is the list without its first match. The removed entry is absent exactly when nothing matches; otherwise it is that first match |
| TripStore.Trip.WriteWithdrawal | api/trips.ts:667-852 | the trip update after a withdrawal: the new lists are written, the reopen rule is applied, `updatedAt` is now, and nothing else changes |
| TripStore.Trip.RemovePassenger | api/trips.ts:593-755 | the new trip fields, user documents and code equal `TripSpec.RemovePassengerSpec` on the old state |
| TripStore.Trip.CancelPassenger | api/trips.ts:758-890 | the new trip fields, user documents and code equal `TripSpec.CancelPassengerSpec` on the old state |
| TripStore.Trip.Cancel | api/trips.ts:504-589 | the new trip fields, user documents and code equal `TripSpec.CancelSpec` on the old state |
| TripStore.Trip.Patch | api/trips.ts:480-1113 | dispatch: the outcome equals `TripSpec.PatchSpec` for the action string |
| Search.Measure | api/trips.ts:284-315 | the extra distance is the detour's excess over the driver's route and never negative; the detour minutes times 0.5 km/min give it back; the allowance is `extra_minutes * 0.5 + 0.2` km; an end of the passenger's route is near iff it lies within 0.5 km of the driver's segment and within the allowance plus 0.5 km of the driver's own end |
| Search.Evaluate | api/trips.ts:233-357 | an accepted trip's extra distance lies between 0 and `extra_minutes * 0.5 + 0.2` km, and its detour minutes are that distance divided by 0.5 km/min; a rejection carries at least one reason |
| Search.AcceptedExactly | api/trips.ts:233-332 | a trip is accepted iff it passes the self, date, time and coordinate filters, one end of the passenger's route is near the driver's route, and the extra distance fits the allowance |
| Search.DetourBoundsMinutes | api/trips.ts:290-313 | within the detour allowance, the detour minutes never exceed `extra_minutes + 0.4`, and so never exceed `extra_minutes + 15`: the minutes check never decides on its own |
| Search.GeometryReasons | api/trips.ts:340-343 | each geometry reason is present exactly when its check failed, no other reason appears, and they come in report order, each once |
| Search.GeometryRejection | api/trips.ts:309-343 | when the first four filters pass and the trip is rejected, its reasons are exactly the failed geometry checks: `location_mismatch` when neither end of the passenger's route is near, `detour_exceeded` when the extra distance is over the allowance, `minutes_exceeded` when the minutes are over `extra_minutes + 15`, in that order and each once |
| Search.MinutesExceededOnlyWithDetour | api/trips.ts:339-343 | a debug report of `minutes_exceeded` always comes with `detour_exceeded` |
| Search.MoreMinutesKeepMatch | api/trips.ts:253-313 | acceptance is monotone in `extra_minutes`: raising it never loses a match |
| Search.FirstFailingFilter | api/trips.ts:233-343 | the filters run in order, and a trip rejected by self, date, time or coordinates carries only that one reason. Several reasons come only from the geometry filter: location, detour or minutes |
| Search.Matched | api/trips.ts:332-338 | every collected trip comes from the snapshot and was accepted with the recorded figures; every accepted trip of the snapshot is collected; the list is no longer than the snapshot |
| Search.Rejected | api/trips.ts:234-356 | no more reports than trips in the snapshot, and every report carries at least one reason |
| Search.OneCandidate | api/trips.ts:332-356 | a single trip is collected with its figures iff it is accepted, and reported with its reasons iff it is rejected |
| Search.MatchedAppend | api/trips.ts:234-338 | the collected trips of a snapshot split in two are those of the first part followed by those of the second, so they keep the snapshot order and each trip yields at most one entry |
| Search.RejectedAppend | api/trips.ts:234-356 | the reports of a snapshot split in two are those of the first part followed by those of the second, in snapshot order |
| Search.MatchedOrRejected | api/trips.ts:229-358 | the collected and the reported trips together number exactly the trips of the snapshot; with `OneCandidate` and the two append lemmas, each trip lands in exactly one of the lists |
| Search.Search | api/trips.ts:229-366 | the returned trips are the accepted ones sorted newest first by `createdAt`; the debug details are the rejections in snapshot order in debug mode, otherwise empty |
| Listing.TrimStart | api/trips.ts:130 | a suffix of the input, with only whitespace cut off in front and no whitespace left at its start |
| Listing.TrimEnd | api/trips.ts:130 | a prefix of the input, with only whitespace cut off behind and no whitespace left at its end |
| Listing.Trim | api/trips.ts:130 | `trim()`: a slice of the input with only whitespace cut off on both sides and none left at either end. It is empty iff the input is blank, and an already trimmed string is returned unchanged |
| Listing.Split | api/trips.ts:128-129 | `split(",")`: at least one piece, and no piece contains the separator |
| Listing.JoinSplit | api/trips.ts:128-129 | joining the pieces of a split with the separator gives the input back |
| Listing.SplitJoin | api/trips.ts:128-129 | splitting the join of separator-free pieces gives the pieces back |
| Listing.TrimAll | api/trips.ts:130-131 | `.map(trim).filter(Boolean)`: no more ids than pieces, each one non-empty and trimmed |
| Listing.TrimAllAppend | api/trips.ts:130-131 | trimming and filtering works piece by piece: it commutes with concatenation, so the ids keep the order of their pieces |
| Listing.TrimAllSingle | api/trips.ts:130-131 | a single piece yields its trim, or nothing when it is blank |
| Listing.ParseIds | api/trips.ts:128-131 | every parsed id is non-empty, trimmed and free of commas |
| Listing.ParseIdsPiece | api/trips.ts:128-131 | a value without a comma yields its trim, or no id when it is blank |
| Listing.ParseIdsCons | api/trips.ts:128-131 | the ids of a value are those of its first comma-separated piece followed by those of the rest |
| Listing.ParseJoinedIds | api/trips.ts:128-131 | a list of non-empty, trimmed, comma-free ids survives a round trip through the query value |
| Listing.TrimAllIdentity | api/trips.ts:130-131 | pieces that are already non-empty and trimmed pass through unchanged |
| Listing.ParseIdsEmpty | api/trips.ts:128-135 | parsing yields no id exactly when the value holds only commas and whitespace |
| Listing.IdsRequest | api/trips.ts:126-135 | an absent `ids` is not an ids request. A value of only commas and whitespace gives the 400 answer. Anything else fetches exactly the parsed ids, at least one |
| Listing.InsertNewest | api/trips.ts:149-153 | one insertion step of the sort: the result is a permutation of the list plus the new element |
| Listing.InsertSorted | api/trips.ts:149-153 | inserting into a newest-first list keeps it newest first |
| Listing.SortNewestFirst | api/trips.ts:149-364 | the result is ordered by `createdAt` descending and is a permutation of the input |
| Listing.InsertKeepsTies | api/trips.ts:149-153 | an inserted element lands in front of the elements with its own key and leaves every other key's order alone |
| Listing.SortKeepsTies | api/trips.ts:149-364 | the sort is stable: for every key, the elements carrying it come out in their input order |
| Listing.Decimal | api/trips.ts:7-10 | `toString()` of a non-negative integer: at least one decimal digit, one digit iff below 10, at most two iff below 100, no leading zero, and "0" exactly for 0 |
| Listing.DecimalValue | api/trips.ts:7-10 | the digits denote the number they were printed from |
| Listing.PadStart2 | api/trips.ts:7-10 | `padStart(2, "0")`: an input of two or more characters comes back unchanged; a shorter one comes back as itself preceded by enough '0's to reach length 2 |
| Listing.PaddedValue | api/trips.ts:7-10 | a padded decimal is still all digits and denotes the same number |
| Listing.OffsetSuffix | api/trips.ts:5-12 | the suffix starts with '+' iff the offset is at least 0 and with '-' iff it is negative, has ':' third from the end, and is exactly six characters iff the offset is below 100 hours in magnitude; between the sign and the ':' stand the digits of the whole hours of the offset's magnitude, after it the two digits of the remaining minutes |
| Listing.ReadBack | api/trips.ts:5-12 | any suffix with the offset's sign, the digits of its whole hours and the two digits of its remaining minutes reads back as the offset |
| Listing.ParseSuffix | api/trips.ts:5-12 | a signed suffix built from digit strings reads back as its sign applied to hours * 60 + minutes |
| Listing.OffsetRoundTrip | api/trips.ts:5-12 | every offset can be read back from its suffix |
| Listing.DefaultSuffix | api/trips.ts:1-12 | the default offset of -300 minutes gives "-05:00" |
| Listing.LaidOut | api/trips.ts:12 | the assembled string consists of the date, a 'T', the clock, ":00" and the suffix, in that order and nothing else |
| Listing.LocalDateTimeString | api/trips.ts:3-12 | no string for a missing date. Otherwise the string is the date, a 'T', the time (or "00:00" when it is missing), ":00" and an offset suffix that reads back as the offset |
| AuthRouter.Route | api/auth/index.ts:12-59 | a dispatched handler's path is the request's normalised path; a 404 echoes the normalised path, and no handler has that path |
| AuthRouter.RoutedPath | api/auth/index.ts:14-15 | the routed path is "" for an absent url; otherwise it is the prefix of the url before its first '?' (the whole url when it has none) |
| AuthRouter.Normalize | api/auth/index.ts:18 | "/" is kept. Otherwise the result is the path or the path minus one final '/', and it differs from the path exactly when the path ends in '/' and is not "/" |
| AuthRouter.HandlerFor | api/auth/index.ts:21-55 | a found handler's path is exactly the given path; when none is found, no handler has that path |
| AuthRouter.PathsDistinct | api/auth/index.ts:21-55 | the nine route paths are pairwise distinct, so at most one route matches |
| AuthRouter.RouteExactly | api/auth/index.ts:14-58 | a request reaches a handler iff its normalised path is that handler's path. It is a 404 iff no handler has that path, and the 404 echoes the normalised path |
| AuthRouter.QueryAndSlashIgnored | api/auth/index.ts:14-55 | each route's path reaches its handler as is, with a query string, with one trailing slash, and with both |
| AuthRouter.DoubleSlashNotFound | api/auth/index.ts:18-58 | a route path followed by two slashes is a 404 that echoes the path with one slash |

## Left out

- Firestore I/O is not modelled. `get`, `update`, `add` and the `where`/`limit(50)` queries appear as the fields of `Trip`, the map of `UserDirectory`, and the candidate sequence handed to `Search`. So are the `trip_id` check, the 404 for a missing trip, and the `my_trips` reads that default to `[]`.
- The 50-document limit is not modelled. Neither are the passenger-role `array-contains` query, the driver's own listing, or the skipping of missing documents in the `ids` fetch. These are query semantics of the database; the sort applied to their results is modelled.
- Token verification, the 401 answers, the CORS headers and the OPTIONS answer are left out. They are library glue around the handler.
- Concurrency is left out. This covers the `Promise.all` fan-out of the cancel cascade, the swallowed errors of the mirror updates, and lost updates between read and write. The model applies each update in sequence and assumes it succeeds.
- `new Date(...)` parsing is left out. Trip times come in as an `Instant` (the UTC date and the milliseconds), `createdAt` as milliseconds (`None` when absent), and the requested instant as an optional integer. A date string that `Date` cannot parse is not modelled.
- The distance functions are left out: `haversineDistanceKm` and `distancePointToSegmentKm` are parameters. `toNumber`/`Number(...)` coercion, `toFixed` rounding and floating point are not modelled either; numbers are reals.
- Search.Evaluate: the debug entries keep only the trip id and the reasons. The measured figures the source adds to each entry are left out.
- TRIP_TIMEZONE_OFFSET_MINUTES is read from the environment; here the offset is an integer parameter. A non-integer or non-numeric value is not modelled.
- `seats` is an integer; `Number(seats || 0)` on other values is not modelled.
- `action` arrives already lower-cased and trimmed; `toLowerCase().trim()` is not modelled.
- The `else if (action === "accept")` branch inside apply (api/trips.ts:1092-1110) is not modelled. Accept always returns earlier (api/trips.ts:1034), so the branch can never run.
- The response bodies are not modelled: messages, echoed lists, and debug fields of the PATCH answers. Only the status code and the documents written are.
- Logging is not modelled.
- Not part of this model: the POST branch (`api/trips.ts:388-476`), `api/users/phone.ts`, `src/firebase.ts`, and the nine authentication handlers that `api/auth/index.ts` dispatches to.

## Where the code does not keep the rules its data model suggests

A trip has a number of `seats`, a status, a waitlist and a passenger list. These suggest capacity and status rules that the code does not enforce. The model follows the code:

- Accept checks neither the trip status nor the free seats. A full trip still accepts, and then holds more passengers than `seats` (`TripProperties.AcceptIgnoresCapacity`).
- Apply works on a trip in any status. It checks only the waitlist, so a passenger who was already accepted can apply again and stand in both lists (`TripProperties.ApplyIgnoresStatus`, `TripProperties.ReapplyJoinsBothLists`).
- Accepting a legacy string entry builds the new passenger record from the request. Its `firebase_uid` is therefore the caller's, which is the driver's uid (`TripProperties.AcceptMoves`).
- The detour-minutes check of the search can never reject a trip on its own. Within the detour allowance the minutes are at most `extra_minutes + 0.4` (`Search.DetourBoundsMinutes`, `Search.AcceptedExactly`).
