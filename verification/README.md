# Refugee camp assignment — a Dafny model

This project models the core of a refugee-camp management service. Camps are
stored with a capacity, a current occupancy and a status. Refugees register with
an address or coordinates, and the service assigns each refugee's family to the
nearest camp that is open for intake and has room for the whole family. The
model covers:

- the nearest-camp search of `backend/utils/distance.js`: the single nearest
  camp, the N nearest camps, and the radius test;
- the assignment engine of `backend/controllers/assignmentController.js`:
  assign, register-and-assign, nearest camps and distance;
- the camp and refugee documents of `backend/models/`: enums, defaults, the
  `availableCapacity` virtual and the status rule run on save;
- the camp requests of `backend/controllers/campController.js`: create, the
  location handling of update, delete, available camps, and connect;
- the refugee requests of `backend/controllers/refugeeController.js`: create,
  the location handling of update, and delete, which releases occupancy;
- the payload `frontend/src/components/CampForm.jsx` builds: the facilities
  list, the integer fields and the refusal without coordinates.

The two collections are one immutable value, `Store.Db`. It holds the camps by
id, the camps' natural (insertion) order, and the refugees by id. The order
matters because the nearest-camp scan keeps the first of several equally near
camps.

Every request that may write is a pure function from a `Db` to a `Reply`. A
`Reply` pairs the state afterwards with an `Ok` response or an `Error`. This
lets every contract say what an error leaves behind. Every error leaves the
state unchanged except one: `connectCamps` answers an error after its first
save has already been written. The two
read-only assignment requests, `Assignment.GetNearestCamps` and
`Assignment.GetDistance`, return a bare `Result`.

Some inputs are parameters rather than computations:

- the great-circle distance, `Geo.Distance`;
- the rounding `parseFloat(d.toFixed(2))`, `Geo.Rounding`;
- the geocoder's answer (`None` when it throws);
- new document ids, which are required to be fresh.

Coordinates in request bodies are read with JavaScript truthiness, so `None`
and `0.0` are both falsy (`Geo.Truthy`).

Files:

| file | modules |
|---|---|
| `wrappers.dfy` | `Wrappers`, `Ids`, `Errors` |
| `text.dfy` | `Text` |
| `geo.dfy` | `Geo` |
| `nearest.dfy` | `Nearest` |
| `camp.dfy` | `CampModel` |
| `refugee.dfy` | `RefugeeModel` |
| `store.dfy` | `Store` |
| `assignment.dfy` | `Assignment` |
| `camps.dfy` | `CampController` |
| `refugees.dfy` | `RefugeeController` |
| `accounting.dfy` | `Accounting` |
| `campform.dfy` | `CampForm` |

The `Accounting` module states the invariant the requests keep between them:

- each stored camp's occupancy equals the sum of the family sizes of the
  refugees assigned to it;
- the natural order lists each stored camp once;
- every refugee's camp and status agree.

Under this invariant, and with no negative family size, the occupancy
decrement in `deleteRefugee` never goes below zero, although the code itself
does not clamp it.

The model follows the code as written, including these points:

- Assignment reads the camps, filters them and then increments an occupancy.
  This is not one atomic conditional update, and nothing is retried.
- Connecting a camp to itself is not refused.
- Connecting saves the first camp before the second. Mongoose validates the
  whole document at every save, so a camp with a negative occupancy fails.
  When that is the second camp, the first camp's link stays and the answer is
  an error (`CampController.ConnectLeavesOneWayLink`). A negative occupancy can
  arise because deleting a refugee decrements occupancy without a floor.
- No request releases a refugee from a camp except deleting the refugee.
- The occupancy increment on assignment does not recompute the camp's status
  (`Assignment.PlacementSkipsStatusRule`).
- `familyMembers` has a default of 1 but no minimum.
- A zero latitude or longitude is refused, or triggers geocoding, wherever the
  code tests truthiness.

## Model

| member | source | states |
|---|---|---|
| CampModel.ParseStatus | backend/models/Camp.js:69-73 | exactly the four status names are accepted, each read back as the status that prints as it |
| CampModel.StatusRuleByCapacity | backend/models/Camp.js:93-105 | the save hook marks a camp Full exactly when `availableCapacity` is not positive, and a camp open for intake has at least one free place |
| CampModel.ApplyStatusRule | backend/models/Camp.js:98-105 | the save hook changes only the status; the camp is Full exactly when occupancy reaches capacity; a Full camp below capacity becomes Active; any other status below capacity is kept |
| CampModel.StatusRuleIdempotent | backend/models/Camp.js:98-105 | saving a second time changes nothing the first save did not |
| CampModel.AvailableAfterStatusRule | backend/models/Camp.js:98-105 | after a save, a camp is open for intake exactly when it is below capacity and not Inactive |
| RefugeeModel.ParseGender | backend/models/Refugee.js:13-17 | exactly the three gender names are accepted |
| RefugeeModel.NewRefugee | backend/models/Refugee.js:4-62 | creation succeeds exactly when name, age, gender, address and both coordinates pass validation; the new refugee is Pending with no camp, the name and contact number trimmed, age, gender and address as given, family size 1 and medical conditions "None" when absent |
| Geo.PointAt | backend/controllers/campController.js:10-13 | the GeoJSON point lists longitude first, then latitude |
| Geo.PointAtRoundTrip | backend/controllers/refugeeController.js:11-14 | reading a built point back gives the latitude and longitude it was built from |
| Geo.SiteAt | backend/controllers/campController.js:8-14 | a created document's scalar coordinates and its location point agree |
| Geo.UpdateSite | backend/controllers/campController.js:82-87 | as written: given coordinates overwrite the scalars, but the point is rebuilt only when both are truthy, and otherwise left as it was |
| Geo.UpdateSiteLeavesStaleLocation | backend/controllers/campController.js:82-87 | moving a consistent site to latitude 0 leaves its point at the old place |
| Geo.UpdateSiteConsistency | backend/controllers/campController.js:82-87 | as written, a consistent site stays consistent exactly when both values are truthy or the stored latitude and longitude do not move |
| Geo.UpdateSiteFixed | backend/controllers/refugeeController.js:83-87 | corrected: whenever a coordinate is given the point is rebuilt, so scalars and point always agree afterwards |
| Nearest.NearestIndex | backend/utils/distance.js:51-66 | the left-to-right scan with strict `<` finds a nearest candidate that no earlier candidate ties |
| Nearest.FirstNearestUnique | backend/utils/distance.js:59-64 | there is only one such first nearest position, so ties go to the earliest camp |
| Nearest.FindNearest | backend/utils/distance.js:43-69 | no candidates give null; otherwise the first nearest candidate, carrying its rounded distance |
| Nearest.FindNearestCamp | backend/utils/distance.js:43-69 | the imperative scan from an infinite minimum returns the same first nearest candidate |
| Nearest.IsWithinRadius | backend/utils/distance.js:113-116 | the radius test is inclusive: a point at exactly the radius is within it |
| Nearest.NearestWithinRadius | backend/utils/distance.js:113-116 | the radius test is inclusive, and if any candidate lies within a radius the nearest one does |
| Nearest.Insert | backend/utils/distance.js:99-100 | inserting into a sorted list keeps it sorted by distance and keeps the same multiset of entries |
| Nearest.SortByDistance | backend/utils/distance.js:99-100 | the sort returns a permutation of its input, ordered by non-decreasing rounded distance |
| Nearest.SortKeepsTieOrder | backend/utils/distance.js:99-100 | the sort is stable: entries with equal distance keep their input order |
| Nearest.FindNearestCamps | backend/utils/distance.js:79-102 | the N nearest: min(N, number of camps) entries, sorted, drawn from the annotated camps; every dropped camp is at least as far as every kept one; tied camps keep their input order |
| Store.AvailableAmongMembers | backend/controllers/campController.js:150-153 | the query returns exactly the camps that are Active or Emergency and below capacity, each as stored |
| Store.AvailableAmongAppend | backend/controllers/campController.js:150-153 | the query keeps the natural order: the answer for two runs of ids is the first run's answer followed by the second's |
| Store.AvailableCamps | backend/controllers/campController.js:148-166 | the available-camps list is exactly the stored camps open for intake |
| Store.AvailableCampsEmpty | backend/controllers/assignmentController.js:123-128 | the query is empty exactly when no stored camp is open for intake |
| Assignment.WithRoom | backend/controllers/assignmentController.js:131-133 | keeps exactly the camps whose free capacity covers the whole family |
| Assignment.ChoiceFacts | backend/controllers/assignmentController.js:131-146 | when some camp qualifies, the search over the filtered camps picks one that passes both filters, is no farther than any qualifying camp and is the first such in natural order, with its rounded distance |
| Assignment.NearestComesFirstInOrder | backend/controllers/assignmentController.js:142-146 | the camp chosen among the filtered camps is the first qualifying camp in natural order that no earlier qualifying camp ties |
| Assignment.PlacementTakesRoom | backend/controllers/assignmentController.js:131-157 | the chosen camp's `availableCapacity` falls by exactly the family size and stays non-negative, since the filter required it to cover the family |
| Assignment.PlacementSkipsStatusRule | backend/controllers/assignmentController.js:154-157 | the occupancy increment keeps the camp's Active or Emergency status, even when it fills the camp, and never exceeds capacity |
| Assignment.Place | backend/controllers/assignmentController.js:117-157 | no open camp and no camp with room are distinct errors that change nothing; otherwise the refugee goes to the nearest qualifying camp, becomes Assigned, and that camp's occupancy grows by the family size |
| Assignment.Assign | backend/controllers/assignmentController.js:89-174 | missing id, unknown refugee and an already assigned refugee are refused in that order with the state unchanged; every success is a placement as above |
| Assignment.GeocodedInput | backend/controllers/assignmentController.js:194-203 | the refugee is created at the geocoded coordinates, with the resolved name as address or the given address when the name is empty; nothing else changes |
| Assignment.RegisterAndAssign | backend/controllers/assignmentController.js:179-262 | a missing address, a geocoder failure or invalid fields change nothing; otherwise the refugee is created and placed when some camp qualifies, or left Pending with no camp |
| Assignment.GetNearestCamps | backend/controllers/assignmentController.js:37-84 | geocodes only when a coordinate is falsy and an address is given, and then searches around the geocoded point (a zero there is refused too); refuses falsy coordinates and an empty camp list; returns min(count, available) stored, available camps, count 5 by default, each with its rounded distance from the search point, sorted by it, none left out nearer than one returned, and equally distant camps in natural order |
| Assignment.GetDistance | backend/controllers/assignmentController.js:267-293 | answers exactly when all four coordinates are truthy, with the rounded distance |
| Assignment.GetDistanceAgreesWithNearest | backend/controllers/assignmentController.js:267-293 | asked for the distance from a nearest-camps search point to a listed camp with truthy coordinates, the distance request answers the distance the listing reports |
| CampController.CreateCamp | backend/controllers/campController.js:6-28 | creation fails on invalid fields or a duplicate trimmed name with the state unchanged; otherwise the camp is appended in natural order with location `[longitude, latitude]`, the given capacity, address, resources, facilities and contact number, the trimmed name, defaults for occupancy, status and manager, and the status rule applied to a given status |
| CampController.CreateCampKeepsWf | backend/controllers/campController.js:6-28 | the natural order still lists every stored camp exactly once |
| CampController.UpdateCampSite | backend/controllers/campController.js:79-115 | an unknown camp is a not-found error; otherwise only the camp's coordinates change, each given one replacing the old; the location is rebuilt from them when both are truthy and is otherwise left as it was |
| CampController.DeleteCamp | backend/controllers/campController.js:120-143 | an unknown camp is a not-found error; otherwise exactly that camp leaves the map, refugees are untouched, and in a well-formed store the natural order loses just that camp's position, the others keeping their order |
| CampController.WithoutAt | backend/controllers/campController.js:131 | removing a camp listed once closes the gap in the natural order and moves no other camp |
| CampController.DeleteCampKeepsSymmetry | backend/controllers/campController.js:120-143 | deleting a camp keeps connections mutual among the remaining camps |
| CampController.Link | backend/controllers/campController.js:184-191 | an id already listed leaves the camp as it was; otherwise it is appended and the save hook runs; a list without duplicates stays so |
| CampController.ConnectCamps | backend/controllers/campController.js:171-204 | an unknown camp is a not-found error with the state unchanged; the request succeeds exactly when each save that happens passes validation; a failed first save writes nothing, a failed second save keeps the first camp's write; on success each camp lists the other and earlier connections stay as a prefix; no other camp or refugee ever changes |
| CampController.ConnectLinks | backend/controllers/campController.js:183-192 | after a successful connection of a and b, a camp lists another exactly when it did before or the two are a and b, in either order |
| CampController.ConnectKeepsSymmetry | backend/controllers/campController.js:183-192 | connections that were mutual stay mutual when the request succeeds or writes nothing, and always when every stored camp is within the schema |
| CampController.ConnectSucceedsWithinSchema | backend/controllers/campController.js:183-192 | connecting two stored camps that are within the schema succeeds |
| CampController.ConnectLeavesOneWayLink | backend/controllers/campController.js:183-192 | when the second camp fails validation, the request fails after the first camp has stored the link, leaving a one-way connection |
| CampController.ConnectKeepsLinksDistinct | backend/controllers/campController.js:184-191 | connecting never makes a camp list a connection twice (for a self-connection the program may; see Left out) |
| CampController.ConnectIdempotent | backend/controllers/campController.js:184-192 | connecting the same pair again changes nothing; so does connecting it in the reverse direction, unless the first request failed its first save |
| RefugeeController.CreateRefugee | backend/controllers/refugeeController.js:7-29 | creation succeeds exactly for valid fields, storing under the fresh id the document the schema builds from the input (`RefugeeModel.NewRefugee`), a Pending refugee whose point matches its coordinates; otherwise nothing changes |
| RefugeeController.UpdateRefugeeSite | backend/controllers/refugeeController.js:80-116 | an unknown refugee is a not-found error; otherwise only the refugee's coordinates change, each given one replacing the old; the location is rebuilt from them when both are truthy and is otherwise left as it was |
| RefugeeController.Release | backend/controllers/refugeeController.js:133-138 | the camp named loses the family size from its occupancy, with no lower bound and no status rule; other camps are untouched |
| RefugeeController.DeleteRefugee | backend/controllers/refugeeController.js:121-152 | an unknown refugee is a not-found error with the state unchanged; otherwise the refugee is removed and only its assigned camp's occupancy drops by its family size |
| RefugeeController.DeleteRefugeeCanUnderflow | backend/controllers/refugeeController.js:133-138 | a camp whose count is out of step with its refugees goes below zero |
| Accounting.AccountedOccupancyNonNegative | backend/controllers/refugeeController.js:133-138 | when the bookkeeping holds and no family size is negative, no occupancy is negative |
| Accounting.PlacedKeepsSound | backend/controllers/assignmentController.js:148-157 | placing an unassigned refugee keeps occupancy equal to the assigned families' sizes |
| Accounting.AssignKeepsSound | backend/controllers/assignmentController.js:89-174 | assignment keeps the bookkeeping invariant |
| Accounting.AssignKeepsCapacity | backend/controllers/assignmentController.js:131-157 | assignment never takes a camp over its capacity |
| Accounting.RegisterKeepsSound | backend/controllers/assignmentController.js:179-262 | registration, placed or not, keeps the bookkeeping invariant |
| Accounting.CreateRefugeeKeepsSound | backend/controllers/refugeeController.js:7-29 | creating a refugee keeps the bookkeeping invariant |
| Accounting.DeleteRefugeeKeepsSound | backend/controllers/refugeeController.js:121-152 | deleting a refugee releases exactly its family's places |
| Accounting.CreateCampKeepsSound | backend/controllers/campController.js:6-28 | a new camp that starts empty, under an id no refugee names, keeps the bookkeeping invariant |
| Accounting.ConnectKeepsSound | backend/controllers/campController.js:171-204 | connecting camps does not touch any occupancy |
| Accounting.DeleteCampKeepsSound | backend/controllers/campController.js:120-143 | deleting a camp keeps the bookkeeping for the camps that remain |
| Text.Trim | frontend/src/components/CampForm.jsx:76 | `trim` returns a contiguous slice of its input with no white space at either end |
| Text.TrimCutsSpace | frontend/src/components/CampForm.jsx:76 | everything `trim` cuts off, before and after the slice, is white space |
| Text.Split | frontend/src/components/CampForm.jsx:76 | `split` yields one more piece than there are separators, none containing one, and joining them gives the input back |
| Text.SplitConcat | frontend/src/components/CampForm.jsx:76 | splitting at a separator splits the text on each side of it separately |
| Text.SplitJoin | frontend/src/components/CampForm.jsx:76 | splitting separator-free pieces joined by the separator gives the pieces back |
| CampForm.ParseFacilities | frontend/src/components/CampForm.jsx:75-77 | an empty field gives no facilities; otherwise every name is trimmed, non-empty and comma-free; there are at most one more names than commas; the names are exactly the non-empty trimmed pieces |
| CampForm.ParseFacilitiesConcat | frontend/src/components/CampForm.jsx:75-77 | the names read from two comma-joined fields are the names of the first followed by those of the second, in order and with repeats kept |
| CampForm.ParseFacilitiesPiece | frontend/src/components/CampForm.jsx:75-77 | a field without commas gives its trimmed text as the one name, or no name when it is blank |
| CampForm.ParseFacilitiesJoin | frontend/src/components/CampForm.jsx:75-77 | clean names joined by commas are read back as the same names in the same order |
| CampForm.ParseInt | frontend/src/components/CampForm.jsx:84-91 | `parseInt` is NaN unless the first character after leading white space is a digit or a sign; a number read after a minus sign is not positive, any other is not negative |
| CampForm.CountOrZero | frontend/src/components/CampForm.jsx:88-91 | `parseInt(x) \|\| 0` gives zero for NaN and otherwise the number read |
| CampForm.ParseIntDecimal | frontend/src/components/CampForm.jsx:84 | `parseInt` reads a decimal numeral back as its value, ignoring any non-digit text after it |
| CampForm.ParseIntNegative | frontend/src/components/CampForm.jsx:87-92 | the same holds with a leading minus sign, giving the negated value |
| CampForm.ParseIntSkipsSpace | frontend/src/components/CampForm.jsx:84 | leading white space does not change what `parseInt` reads |
| CampForm.Submit | frontend/src/components/CampForm.jsx:63-94 | without geocoded coordinates nothing is sent; otherwise the body carries the name, address, contact number and manager as typed, the coordinates, the parsed capacity (NaN as null), `parseInt(x) \|\| 0` resource counts and the facilities field parsed into clean names |
| CampForm.SubmitValid | frontend/src/components/CampForm.jsx:79-94 | a geocoded form with a name, an address and a positive numeral as capacity produces a body the camp validators accept |

## Left out

- The haversine formula and `toFixed(2)` are parameters (`Geo.Distance`, `Geo.Rounding`), because their floating-point arithmetic is not modelled. Properties hold for every distance and rounding function.
- The geocoder (`backend/utils/geocoder.js`) and the `geocode` handler are left out, because they are network I/O. Their answer is a parameter of the requests that use them.
- Floating point in general is left out: NaN, infinities, and integers beyond 2^53 in `parseInt`. Coordinates are reals, and counts are unbounded integers.
- Concurrency is left out. Two assignments may both pass the capacity filter before either increment lands. Each request is modelled as running alone.
- CampController.ConnectKeepsSymmetry: mutual connections are promised after a successful or write-free request, and after any request only when every stored camp is within the schema. A failed second save leaves a one-way link (`CampController.ConnectLeavesOneWayLink`).
- CampController.ConnectIdempotent: the reverse-direction half no longer covers a first request that failed its first save. Then connecting the pair the other way saves the second camp's link before failing on the first camp.
- CampController.ConnectKeepsLinksDistinct: holds of the model for every pair, but for a camp connected to itself the program may store the id twice. `CampController.ConnectCamps` treats each `save` as writing the whole document, while Mongoose saves the stale second copy as a `$push` delta. Mongoose's change tracking is not modelled.
- Mongoose internals are left out: version keys, timestamps, `populate`, ObjectId cast errors, and errors from the database itself (the 500 responses).
- Read-only listing requests (`getAllCamps`, `getCampById`, `getAllRefugees`, `getRefugeeById`) are left out, because they return stored documents unchanged.
- `updateCamp` and `updateRefugee` copy arbitrary request fields into the document. Only their coordinate handling and not-found case are modelled (`UpdateCampSite`, `UpdateRefugeeSite`), as written, with the stale location listed under Findings.
- Fields a client may put in a create body beyond the modelled inputs are left out: `assignedCamp`, a refugee's `status`, `connectedCamps`, dates. A create request may also set `currentOccupancy`, which is modelled.
- Accounting.CreateCampKeepsSound: requires the new camp to start with no occupancy and no refugee to name its id. The code accepts any non-negative starting occupancy.
- Assignment.GetNearestCamps: `count` is a natural number. `parseInt(count)` producing NaN or a negative number, which changes what `slice` returns, is not modelled.
- `seed.js`, the routes, the server set-up and the other UI components are left out, because they are wiring and demo data.
- CampForm.Submit: the form's other state (loading flags, messages, resetting the form) is left out, because it is presentation only.

## Findings

| source | as written | input that shows it | evidently intended | confidence | as-written member | corrected member |
|---|---|---|---|---|---|---|
| backend/controllers/campController.js:82-87 (and backend/controllers/refugeeController.js:83-87) | the GeoJSON `location` is rebuilt only when both `latitude` and `longitude` in the body are truthy, while the scalar fields are overwritten whenever given | a camp at (10, 20) updated with `{ latitude: 0, longitude: 5 }`, or with `latitude` alone, keeps its point at `[20, 10]` | the point follows the stored coordinates whenever either is updated | not executed | Geo.UpdateSite, Geo.UpdateSiteLeavesStaleLocation, Geo.UpdateSiteConsistency | Geo.UpdateSiteFixed |
