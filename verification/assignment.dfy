/** The assignment engine of backend/controllers/assignmentController.js: the two
    eligibility filters, the nearest choice, and the two writes it performs. */
module Assignment {
  import opened Wrappers
  import opened Ids
  import opened Errors
  import opened Geo
  import opened Nearest
  import opened CampModel
  import opened RefugeeModel
  import opened Store

  /** The second filter: the free capacity covers the whole family. */
  predicate HasRoomFor(c: Camp, family: int) {
    AvailableCapacity(c) >= family
  }

  /** `camps.filter(camp => camp.capacity - camp.currentOccupancy >= familyMembers)`. */
  function WithRoom(cands: seq<Listed>, family: int): (r: seq<Listed>)
    ensures forall l :: l in r <==> l in cands && HasRoomFor(l.camp, family)
  {
    if cands == [] then []
    else
      assert forall l :: l in cands <==> l == cands[0] || l in cands[1..];
      (if HasRoomFor(cands[0].camp, family) then [cands[0]] else []) + WithRoom(cands[1..], family)
  }

  /** The stored camp `id` passes both filters for a family of the given size. */
  predicate Qualifies(camps: map<Id, Camp>, id: Id, family: int) {
    id in camps && IsAvailable(camps[id]) && HasRoomFor(camps[id], family)
  }

  ghost predicate SomeEligible(db: Db, family: int) {
    exists id :: id in db.campOrder && Qualifies(db.camps, id, family)
  }

  /** The camps left after both filters, in natural order. */
  function Candidates(camps: map<Id, Camp>, ids: seq<Id>, family: int): seq<Listed> {
    WithRoom(AvailableAmong(camps, ids), family)
  }

  /** The two filters, applied one after the other, keep exactly the qualifying
      camps, each at its place in the natural order. */
  lemma CandidatesCons(camps: map<Id, Camp>, ids: seq<Id>, family: int)
    requires ids != []
    ensures Candidates(camps, ids, family)
         == (if Qualifies(camps, ids[0], family) then [Listed(ids[0], camps[ids[0]])] else [])
            + Candidates(camps, ids[1..], family)
  {
    var rest := AvailableAmong(camps, ids[1..]);
    if ids[0] in camps && IsAvailable(camps[ids[0]]) {
      var l := Listed(ids[0], camps[ids[0]]);
      assert AvailableAmong(camps, ids) == [l] + rest;
      assert ([l] + rest)[1..] == rest;
    } else {
      assert AvailableAmong(camps, ids) == rest;
    }
  }

  lemma CandidatesEmpty(db: Db, family: int)
    ensures |Candidates(db.camps, db.campOrder, family)| == 0 <==> !SomeEligible(db, family)
  {
    var r := Candidates(db.camps, db.campOrder, family);
    AvailableAmongMembers(db.camps, db.campOrder);
    if |r| > 0 {
      assert r[0] in r;
      assert r[0].id in db.campOrder && Qualifies(db.camps, r[0].id, family);
    }
    if SomeEligible(db, family) {
      var id :| id in db.campOrder && Qualifies(db.camps, id, family);
      assert Listed(id, db.camps[id]) in AvailableAmong(db.camps, db.campOrder);
      assert Listed(id, db.camps[id]) in r;
    }
  }

  function CampAt(camps: map<Id, Camp>, id: Id): Coordinate
    requires id in camps
  {
    Position(camps[id].site)
  }

  /** Every qualifying camp listed before the chosen one in natural order is
      strictly farther: ties go to the camp the store returns first. */
  ghost predicate FirstInOrder(camps: map<Id, Camp>, ids: seq<Id>, family: int, at: Coordinate,
                               dist: Distance, chosen: Listed)
  {
    exists i :: 0 <= i < |ids| && ids[i] == chosen.id &&
      forall j :: 0 <= j < i && Qualifies(camps, ids[j], family) ==>
        dist(at, ListedAt(chosen)) < dist(at, CampAt(camps, ids[j]))
  }

  /** A camp first in order after the head stays first when the head is
      strictly farther or does not qualify. */
  lemma FirstInOrderShift(camps: map<Id, Camp>, ids: seq<Id>, family: int, at: Coordinate,
                          dist: Distance, chosen: Listed)
    requires ids != []
    requires FirstInOrder(camps, ids[1..], family, at, dist, chosen)
    requires Qualifies(camps, ids[0], family) ==> dist(at, ListedAt(chosen)) < dist(at, CampAt(camps, ids[0]))
    ensures FirstInOrder(camps, ids, family, at, dist, chosen)
  {
    var tail := ids[1..];
    var i :| 0 <= i < |tail| && tail[i] == chosen.id &&
      forall j :: 0 <= j < i && Qualifies(camps, tail[j], family) ==>
        dist(at, ListedAt(chosen)) < dist(at, CampAt(camps, tail[j]));
    forall j | 0 <= j < i + 1 && Qualifies(camps, ids[j], family)
      ensures dist(at, ListedAt(chosen)) < dist(at, CampAt(camps, ids[j]))
    {
      if j > 0 {
        assert ids[j] == tail[j - 1];
      }
    }
    assert ids[i + 1] == chosen.id;
  }

  /** The first nearest candidate is also first, among equally near qualifying
      camps, in the store's natural order. */
  lemma {:induction false} NearestComesFirstInOrder(camps: map<Id, Camp>, ids: seq<Id>, family: int,
                                                    at: Coordinate, dist: Distance, k: nat)
    requires IsFirstNearest(at, Candidates(camps, ids, family), ListedAt, dist, k)
    ensures FirstInOrder(camps, ids, family, at, dist, Candidates(camps, ids, family)[k])
  {
    var all := Candidates(camps, ids, family);
    var rest := Candidates(camps, ids[1..], family);
    CandidatesCons(camps, ids, family);
    var chosen := all[k];
    if Qualifies(camps, ids[0], family) {
      var head := Listed(ids[0], camps[ids[0]]);
      assert all == [head] + rest;
      if k == 0 {
        assert ids[0] == chosen.id;
      } else {
        FirstNearestTail(at, all, ListedAt, dist, k);
        assert all[1..] == rest;
        NearestComesFirstInOrder(camps, ids[1..], family, at, dist, k - 1);
        assert rest[k - 1] == chosen;
        FirstInOrderShift(camps, ids, family, at, dist, chosen);
      }
    } else {
      assert all == rest;
      NearestComesFirstInOrder(camps, ids[1..], family, at, dist, k);
      FirstInOrderShift(camps, ids, family, at, dist, chosen);
    }
  }

  /** The response of a successful assignment: the chosen camp as it was read,
      and its distance rounded to two decimals. */
  datatype Placement = Placement(campId: Id, camp: Camp, distance: real)

  /** The camp `findNearestCamp` picks for a family of `family` at `at`, and the
      distance it reports: the camp passes both filters, is nearest among all
      qualifying camps and the first such in natural order. */
  ghost predicate Chosen(db: Db, family: int, at: Coordinate, l: Listed, distance: real,
                         dist: Distance, round: Rounding)
  {
    && l.id in db.campOrder && Qualifies(db.camps, l.id, family)
    && l.camp == db.camps[l.id]
    && distance == round(dist(at, ListedAt(l)))
    && (forall id :: id in db.campOrder && Qualifies(db.camps, id, family) ==>
          dist(at, ListedAt(l)) <= dist(at, CampAt(db.camps, id)))
    && FirstInOrder(db.camps, db.campOrder, family, at, dist, l)
  }

  /** What a successful placement of refugee `rid` means. */
  ghost predicate Placed(db: Db, rid: Id, p: Placement, db': Db, dist: Distance, round: Rounding)
    requires rid in db.refugees
  {
    var refugee := db.refugees[rid];
    var family := refugee.familyMembers;
    && Chosen(db, family, Position(refugee.site), Listed(p.campId, p.camp), p.distance, dist, round)
    // the refugee is marked Assigned to it, its occupancy grows by the family,
    // and nothing else changes
    && db'.refugees == db.refugees[rid := refugee.(assignedCamp := Some(p.campId), status := Assigned)]
    && db'.camps == db.camps[p.campId := p.camp.(currentOccupancy := p.camp.currentOccupancy + family)]
    && db'.campOrder == db.campOrder
  }

  /** The `$inc` does not save the camp, so the status rule does not run: a camp
      the family fills keeps its Active or Emergency status. */
  lemma PlacementSkipsStatusRule(db: Db, rid: Id, p: Placement, db': Db, dist: Distance, round: Rounding)
    requires rid in db.refugees && Placed(db, rid, p, db', dist, round)
    ensures p.campId in db'.camps
    ensures db'.camps[p.campId].status == db.camps[p.campId].status
    ensures db'.camps[p.campId].status == Active || db'.camps[p.campId].status == Emergency
    ensures db'.camps[p.campId].currentOccupancy <= db'.camps[p.campId].capacity
  {
  }

  /** A placement takes exactly the family's places out of the chosen camp's
      free capacity, which never goes below zero. */
  lemma PlacementTakesRoom(db: Db, rid: Id, p: Placement, db': Db, dist: Distance, round: Rounding)
    requires rid in db.refugees && Placed(db, rid, p, db', dist, round)
    ensures p.campId in db.camps && p.campId in db'.camps
    ensures AvailableCapacity(db'.camps[p.campId])
         == AvailableCapacity(db.camps[p.campId]) - db.refugees[rid].familyMembers
    ensures AvailableCapacity(db'.camps[p.campId]) >= 0
  {
  }

  /** The steps after the refugee has been loaded: query, filter twice, choose
      the nearest, save the refugee and `$inc` the camp's occupancy (an update
      that does not run the status rule). */
  function Place(db: Db, rid: Id, dist: Distance, round: Rounding): (r: Reply<Placement>)
    requires rid in db.refugees
    ensures !SomeAvailable(db) ==> r == Reply(db, Err(NoAvailableCamps))
    ensures SomeAvailable(db) && !SomeEligible(db, db.refugees[rid].familyMembers) ==>
              r == Reply(db, Err(NoSufficientCapacity))
    ensures SomeEligible(db, db.refugees[rid].familyMembers) ==> r.result.Ok?
    ensures r.result.Ok? ==> Placed(db, rid, r.result.value, r.db, dist, round)
    ensures r.result.Err? ==> r.db == db
  {
    var refugee := db.refugees[rid];
    var available := AvailableCamps(db);
    AvailableCampsEmpty(db);
    if |available| == 0 then Reply(db, Err(NoAvailableCamps))
    else
      var room := WithRoom(available, refugee.familyMembers);
      CandidatesEmpty(db, refugee.familyMembers);
      if |room| == 0 then Reply(db, Err(NoSufficientCapacity))
      else
        var at := Position(refugee.site);
        var nearest := FindNearest(at, room, ListedAt, dist, round);
        ChoiceFacts(db, refugee.familyMembers, at, dist, round);
        CommitPlaces(db, rid, nearest.value, dist, round);
        Commit(db, rid, nearest.value)
  }

  /** The two writes for the chosen camp: `refugee.save()` with the camp and the
      Assigned status, then `$inc` of the camp's occupancy by the family size. */
  function Commit(db: Db, rid: Id, nearest: Ranked<Listed>): Reply<Placement>
    requires rid in db.refugees && nearest.item.id in db.camps
  {
    var refugee := db.refugees[rid];
    var id := nearest.item.id;
    var camp := db.camps[id];
    var refugees := db.refugees[rid := refugee.(assignedCamp := Some(id), status := Assigned)];
    var camps := db.camps[id := camp.(currentOccupancy := camp.currentOccupancy + refugee.familyMembers)];
    Reply(Db(camps, db.campOrder, refugees), Ok(Placement(id, nearest.item.camp, nearest.distance)))
  }

  /** Committing the chosen camp is a placement. */
  lemma CommitPlaces(db: Db, rid: Id, nearest: Ranked<Listed>, dist: Distance, round: Rounding)
    requires rid in db.refugees
    requires Chosen(db, db.refugees[rid].familyMembers, Position(db.refugees[rid].site),
                    nearest.item, nearest.distance, dist, round)
    ensures nearest.item.id in db.camps
    ensures var r := Commit(db, rid, nearest);
            r.result.Ok? && Placed(db, rid, r.result.value, r.db, dist, round)
  {
    var r := Commit(db, rid, nearest);
    assert Listed(r.result.value.campId, r.result.value.camp) == nearest.item;
  }

  /** What `findNearestCamp` over the filtered camps picks. */
  lemma ChoiceFacts(db: Db, family: int, at: Coordinate, dist: Distance, round: Rounding)
    requires SomeEligible(db, family)
    ensures var n := FindNearest(at, Candidates(db.camps, db.campOrder, family), ListedAt, dist, round);
            n.Some? && Chosen(db, family, at, n.value.item, n.value.distance, dist, round)
  {
    var room := Candidates(db.camps, db.campOrder, family);
    CandidatesEmpty(db, family);
    AvailableAmongMembers(db.camps, db.campOrder);
    var n := FindNearest(at, room, ListedAt, dist, round);
    var k: nat :| IsFirstNearest(at, room, ListedAt, dist, k) && n.value.item == room[k];
    assert room[k] in room;
    NearestComesFirstInOrder(db.camps, db.campOrder, family, at, dist, k);
    NearestAmongQualifying(db, family, at, dist, k);
  }

  /** The first nearest candidate is at least as near as every qualifying camp. */
  lemma NearestAmongQualifying(db: Db, family: int, at: Coordinate, dist: Distance, k: nat)
    requires IsFirstNearest(at, Candidates(db.camps, db.campOrder, family), ListedAt, dist, k)
    ensures forall id :: id in db.campOrder && Qualifies(db.camps, id, family) ==>
              dist(at, ListedAt(Candidates(db.camps, db.campOrder, family)[k])) <= dist(at, CampAt(db.camps, id))
  {
    var room := Candidates(db.camps, db.campOrder, family);
    AvailableAmongMembers(db.camps, db.campOrder);
    forall id | id in db.campOrder && Qualifies(db.camps, id, family)
      ensures dist(at, ListedAt(room[k])) <= dist(at, CampAt(db.camps, id))
    {
      assert Listed(id, db.camps[id]) in AvailableAmong(db.camps, db.campOrder);
      assert Listed(id, db.camps[id]) in room;
      var j :| 0 <= j < |room| && room[j] == Listed(id, db.camps[id]);
    }
  }

  /** `assignRefugeeToNearestCamp`. */
  function Assign(db: Db, refugeeId: Option<Id>, dist: Distance, round: Rounding): (r: Reply<Placement>)
    ensures !Given(refugeeId) ==> r == Reply(db, Err(MissingRefugeeId))
    ensures Given(refugeeId) && refugeeId.value !in db.refugees ==> r == Reply(db, Err(RefugeeNotFound))
    ensures Given(refugeeId) && refugeeId.value in db.refugees && db.refugees[refugeeId.value].assignedCamp.Some? ==>
              r == Reply(db, Err(AlreadyAssigned))
    ensures Given(refugeeId) && refugeeId.value in db.refugees && db.refugees[refugeeId.value].assignedCamp.None? ==>
              var family := db.refugees[refugeeId.value].familyMembers;
                  && (!SomeAvailable(db) ==> r == Reply(db, Err(NoAvailableCamps)))
                  && (SomeAvailable(db) && !SomeEligible(db, family) ==> r == Reply(db, Err(NoSufficientCapacity)))
                  && (SomeEligible(db, family) ==> r.result.Ok?)
    ensures r.result.Err? ==> r.db == db
    ensures r.result.Ok? ==>
              Given(refugeeId) && refugeeId.value in db.refugees &&
              Placed(db, refugeeId.value, r.result.value, r.db, dist, round)
  {
    if !Given(refugeeId) then Reply(db, Err(MissingRefugeeId))
    else if refugeeId.value !in db.refugees then Reply(db, Err(RefugeeNotFound))
    else if db.refugees[refugeeId.value].assignedCamp.Some? then Reply(db, Err(AlreadyAssigned))
    else Place(db, refugeeId.value, dist, round)
  }

  /** What the geocoder resolved an address to. */
  datatype Geocoded = Geocoded(latitude: real, longitude: real, displayName: string)

  /** The fields `registerAndAssignRefugee` creates the refugee from: the request's
      fields with the resolved name (or, when it is empty, the given address)
      and the resolved coordinates. */
  function GeocodedInput(input: RefugeeInput, address: string, g: Geocoded): (i: RefugeeInput)
    ensures i.latitude == Some(g.latitude) && i.longitude == Some(g.longitude)
    ensures g.displayName != "" ==> i.address == g.displayName
    ensures g.displayName == "" ==> i.address == address
    ensures i.(address := input.address, latitude := input.latitude, longitude := input.longitude) == input
  {
    var shown := if g.displayName != "" then g.displayName else address;
    input.(address := shown, latitude := Some(g.latitude), longitude := Some(g.longitude))
  }

  /** The response of a registration: the new refugee and, when a camp was
      found, the placement (`camp: null` otherwise). */
  datatype Registration = Registration(refugeeId: Id, refugee: Refugee, placement: Option<Placement>)

  /** `registerAndAssignRefugee`. The new id comes from the store and is fresh;
      the geocoder's answer is a parameter (`None` when it threw). */
  function RegisterAndAssign(db: Db, address: string, input: RefugeeInput, geocoded: Option<Geocoded>,
                             newId: Id, dist: Distance, round: Rounding): (r: Reply<Registration>)
    requires newId !in db.refugees
    ensures address == "" ==> r == Reply(db, Err(MissingAddress))
    ensures address != "" && geocoded.None? ==> r == Reply(db, Err(GeocodeFailed))
    ensures address != "" && geocoded.Some? ==>
              (r.result.Ok? <==> ValidInput(GeocodedInput(input, address, geocoded.value)))
    ensures r.result.Err? ==> r.db == db
    ensures r.result.Ok? ==>
              && address != "" && geocoded.Some?
              && var created := NewRefugee(GeocodedInput(input, address, geocoded.value)).value;
                 var db1 := db.(refugees := db.refugees[newId := created]);
                 var reg := r.result.value;
                 && reg.refugeeId == newId
                 && (SomeEligible(db, created.familyMembers) ==>
                       && reg.placement.Some?
                       && Placed(db1, newId, reg.placement.value, r.db, dist, round)
                       && reg.refugee == r.db.refugees[newId])
                 && (!SomeEligible(db, created.familyMembers) ==>
                       reg.placement.None? && r.db == db1 && reg.refugee == created)
  {
    if address == "" then Reply(db, Err(MissingAddress))
    else if geocoded.None? then Reply(db, Err(GeocodeFailed))
    else
      var created := NewRefugee(GeocodedInput(input, address, geocoded.value));
      if created.Err? then Reply(db, Err(created.error))
      else
        var db1 := db.(refugees := db.refugees[newId := created.value]);
        assert SomeEligible(db1, created.value.familyMembers) == SomeEligible(db, created.value.familyMembers);
        var placed := Place(db1, newId, dist, round);
        if placed.result.Ok? then
          Reply(placed.db, Ok(Registration(newId, placed.db.refugees[newId], Some(placed.result.value))))
        else
          Reply(db1, Ok(Registration(newId, created.value, None)))
  }

  /** The response of `getNearestCamps`. */
  datatype Nearby = Nearby(searchLocation: Coordinate, camps: seq<Ranked<Listed>>)

  const DefaultCount: nat := 5

  /** `cs` is what `findNearestCamps` answers for the camps `avail` around `at`:
      min(count, |avail|) of them, sorted by rounded distance, each an available
      camp with its own rounded distance, no camp left out nearer than one kept,
      and equally distant camps in the order of `avail`. */
  ghost predicate NearestListing(at: Coordinate, avail: seq<Listed>, cs: seq<Ranked<Listed>>, count: nat,
                                 dist: Distance, round: Rounding)
  {
    var all := Annotate(at, avail, ListedAt, dist, round);
    && |cs| == Min(count, |avail|)
    && SortedByDistance(cs)
    && (forall i :: 0 <= i < |cs| ==> cs[i].item in avail && cs[i].distance == round(dist(at, ListedAt(cs[i].item))))
    && multiset(cs) <= multiset(all)
    && (forall e, i :: e in all && e !in cs && 0 <= i < |cs| ==> cs[i].distance <= e.distance)
    && (forall d :: WithDistance(cs, d) <= WithDistance(all, d))
  }

  /** `getNearestCamps`. Coordinates are read with JavaScript truthiness, so a
      zero latitude or longitude counts as missing; an address is geocoded
      (`geocoded`, `None` when the geocoder threw) only when a coordinate is missing. */
  function GetNearestCamps(db: Db, latitude: Option<real>, longitude: Option<real>, address: string,
                           geocoded: Option<Coordinate>, count: Option<nat>,
                           dist: Distance, round: Rounding): (r: Result<Nearby, Error>)
    ensures address == "" && !(Truthy(latitude) && Truthy(longitude)) ==> r == Err(MissingCoordinates)
    ensures address != "" && !(Truthy(latitude) && Truthy(longitude)) && geocoded.None? ==> r == Err(GeocodeFailed)
    ensures Truthy(latitude) && Truthy(longitude) && !SomeAvailable(db) ==> r == Err(NoAvailableCamps)
    ensures Truthy(latitude) && Truthy(longitude) && SomeAvailable(db) ==>
              r.Ok? && r.value.searchLocation == Coordinate(latitude.value, longitude.value)
    ensures address != "" && !(Truthy(latitude) && Truthy(longitude)) && geocoded.Some? ==>
              var g := geocoded.value;
              && (g.latitude == 0.0 || g.longitude == 0.0 ==> r == Err(MissingCoordinates))
              && (g.latitude != 0.0 && g.longitude != 0.0 && !SomeAvailable(db) ==> r == Err(NoAvailableCamps))
              && (g.latitude != 0.0 && g.longitude != 0.0 && SomeAvailable(db) ==>
                    r.Ok? && r.value.searchLocation == g)
    ensures r.Ok? ==>
              && r.value.searchLocation.latitude != 0.0 && r.value.searchLocation.longitude != 0.0
              && NearestListing(r.value.searchLocation, AvailableCamps(db), r.value.camps,
                                count.GetOr(DefaultCount), dist, round)
              && (forall i :: 0 <= i < |r.value.camps| ==>
                    var l := r.value.camps[i].item;
                    Stored(db, l.id) && l.camp == db.camps[l.id] && IsAvailable(l.camp))
  {
    var geocode := address != "" && !(Truthy(latitude) && Truthy(longitude));
    if geocode && geocoded.None? then Err(GeocodeFailed)
    else
      var lat := if geocode then Some(geocoded.value.latitude) else latitude;
      var lon := if geocode then Some(geocoded.value.longitude) else longitude;
      if !(Truthy(lat) && Truthy(lon)) then Err(MissingCoordinates)
      else
        var camps := AvailableCamps(db);
        AvailableCampsEmpty(db);
        if |camps| == 0 then Err(NoAvailableCamps)
        else
          var at := Coordinate(lat.value, lon.value);
          NearbyAvailable(db, at, dist, round, count.GetOr(DefaultCount));
          Ok(Nearby(at, FindNearestCamps(at, camps, ListedAt, dist, round, count.GetOr(DefaultCount))))
  }

  /** The nearest camps listed are the search's answer, open for intake and as stored. */
  lemma NearbyAvailable(db: Db, at: Coordinate, dist: Distance, round: Rounding, count: nat)
    ensures var r := FindNearestCamps(at, AvailableCamps(db), ListedAt, dist, round, count);
            && NearestListing(at, AvailableCamps(db), r, count, dist, round)
            && forall i :: 0 <= i < |r| ==>
                 var l := r[i].item;
                 Stored(db, l.id) && l.camp == db.camps[l.id] && IsAvailable(l.camp)
  {
    var r := FindNearestCamps(at, AvailableCamps(db), ListedAt, dist, round, count);
    forall i | 0 <= i < |r|
      ensures Stored(db, r[i].item.id) && r[i].item.camp == db.camps[r[i].item.id] && IsAvailable(r[i].item.camp)
    {
      assert r[i].item in AvailableCamps(db);
    }
  }

  function Min(a: int, b: int): int {
    if a < b then a else b
  }

  /** `getDistance`: every coordinate must be truthy (zero is refused). */
  function GetDistance(lat1: Option<real>, lon1: Option<real>, lat2: Option<real>, lon2: Option<real>,
                       dist: Distance, round: Rounding): (r: Result<real, Error>)
    ensures r.Ok? <==> Truthy(lat1) && Truthy(lon1) && Truthy(lat2) && Truthy(lon2)
    ensures r.Err? ==> r.error == MissingCoordinates
    ensures r.Ok? ==> r.value == round(dist(Coordinate(lat1.value, lon1.value), Coordinate(lat2.value, lon2.value)))
  {
    if !(Truthy(lat1) && Truthy(lon1) && Truthy(lat2) && Truthy(lon2)) then Err(MissingCoordinates)
    else Ok(round(dist(Coordinate(lat1.value, lon1.value), Coordinate(lat2.value, lon2.value))))
  }

  /** `getDistance` and `getNearestCamps` agree: asked for the distance from the
      search point to a listed camp whose coordinates are truthy, `getDistance`
      answers the distance the listing reports for it. */
  lemma GetDistanceAgreesWithNearest(db: Db, latitude: Option<real>, longitude: Option<real>, address: string,
                                     geocoded: Option<Coordinate>, count: Option<nat>,
                                     dist: Distance, round: Rounding, i: nat)
    requires GetNearestCamps(db, latitude, longitude, address, geocoded, count, dist, round).Ok?
    requires i < |GetNearestCamps(db, latitude, longitude, address, geocoded, count, dist, round).value.camps|
    ensures var n := GetNearestCamps(db, latitude, longitude, address, geocoded, count, dist, round).value;
            var at := n.searchLocation;
            var c := n.camps[i].item.camp.site;
            c.latitude != 0.0 && c.longitude != 0.0 ==>
              GetDistance(Some(at.latitude), Some(at.longitude), Some(c.latitude), Some(c.longitude), dist, round)
                == Ok(n.camps[i].distance)
  {
    var n := GetNearestCamps(db, latitude, longitude, address, geocoded, count, dist, round).value;
    assert NearestListing(n.searchLocation, AvailableCamps(db), n.camps, count.GetOr(DefaultCount), dist, round);
    assert n.camps[i].distance == round(dist(n.searchLocation, ListedAt(n.camps[i].item)));
  }
}
