/** Camp requests of backend/controllers/campController.js. */
module CampController {
  import opened Wrappers
  import opened Ids
  import opened Errors
  import opened Text
  import opened Geo
  import opened CampModel
  import opened Store

  /** The fields a create request supplies; absent optional fields are `None`. */
  datatype CampInput = CampInput(
    name: string,
    address: string,
    latitude: Option<real>,
    longitude: Option<real>,
    capacity: Option<int>,
    currentOccupancy: Option<int>,
    status: Option<string>,
    resources: Resources,
    facilities: seq<string>,
    managedBy: Option<string>,
    contactNumber: string)

  /** The schema validators: a name left non-empty by trimming, an address, both
      coordinates, a capacity of at least 1, an occupancy not below 0 and a
      listed status. */
  predicate ValidCampInput(input: CampInput) {
    && Trim(input.name) != ""
    && input.address != ""
    && input.latitude.Some? && input.longitude.Some?
    && input.capacity.Some? && input.capacity.value >= 1
    && input.currentOccupancy.GetOr(0) >= 0
    && (input.status.None? || ParseStatus(input.status.value).Some?)
  }

  predicate NameTaken(db: Db, name: string) {
    exists id :: id in db.camps && db.camps[id].name == name
  }

  /** The document `Camp.create` validates and saves, before the status rule. */
  function Drafted(input: CampInput): Camp
    requires ValidCampInput(input)
  {
    Camp(
      name := Trim(input.name),
      address := input.address,
      site := SiteAt(input.latitude.value, input.longitude.value),
      capacity := input.capacity.value,
      currentOccupancy := input.currentOccupancy.GetOr(0),
      resources := input.resources,
      facilities := input.facilities,
      connectedCamps := [],
      status := if input.status.Some? then ParseStatus(input.status.value).value else Active,
      managedBy := input.managedBy.GetOr(DefaultManager),
      contactNumber := input.contactNumber)
  }

  /** `createCamp`: the location is built as `[longitude, latitude]`, the
      defaults are filled in, the validators and the unique name index are
      checked, and the save runs the status rule. The new id is fresh. */
  function CreateCamp(db: Db, input: CampInput, newId: Id): (r: Reply<Camp>)
    requires newId !in db.camps && newId !in db.campOrder
    ensures !ValidCampInput(input) ==> r == Reply(db, Err(ValidationFailed))
    ensures ValidCampInput(input) && NameTaken(db, Trim(input.name)) ==> r == Reply(db, Err(DuplicateCampName))
    ensures r.result.Err? ==> r.db == db
    ensures r.result.Ok? <==> ValidCampInput(input) && !NameTaken(db, Trim(input.name))
    ensures r.result.Ok? ==>
              var c := r.result.value;
              && r.db == db.(camps := db.camps[newId := c], campOrder := db.campOrder + [newId])
              && WithinSchema(c) && Consistent(c.site)
              && c.site.location == PointAt(input.latitude.value, input.longitude.value)
              && Position(c.site) == Coordinate(input.latitude.value, input.longitude.value)
              && c.name == Trim(input.name) && c.address == input.address && c.connectedCamps == []
              && c.capacity == input.capacity.value
              && c.currentOccupancy == input.currentOccupancy.GetOr(0)
              && c.resources == input.resources && c.facilities == input.facilities
              && c.contactNumber == input.contactNumber
              && (c.status == Full <==> c.currentOccupancy >= c.capacity)
              && (input.status.None? && c.currentOccupancy < c.capacity ==> c.status == Active)
              && (input.status.Some? && c.currentOccupancy < c.capacity ==>
                    var given := ParseStatus(input.status.value).value;
                    c.status == if given == Full then Active else given)
              && c.managedBy == input.managedBy.GetOr(DefaultManager)
  {
    if !ValidCampInput(input) then Reply(db, Err(ValidationFailed))
    else if NameTaken(db, Trim(input.name)) then Reply(db, Err(DuplicateCampName))
    else
      var c := ApplyStatusRule(Drafted(input));
      Reply(db.(camps := db.camps[newId := c], campOrder := db.campOrder + [newId]), Ok(c))
  }

  /** Appending a fresh camp keeps the natural order in step with the stored camps. */
  lemma AppendKeepsWf(db: Db, newId: Id, c: Camp)
    requires Wf(db) && newId !in db.camps
    ensures Wf(db.(camps := db.camps[newId := c], campOrder := db.campOrder + [newId]))
  {
    var order := db.campOrder + [newId];
    assert newId !in db.campOrder;
    forall i, j | 0 <= i < j < |order| ensures order[i] != order[j] {
      if j < |db.campOrder| {
        assert order[i] == db.campOrder[i] && order[j] == db.campOrder[j];
      } else {
        assert order[i] == db.campOrder[i] && order[j] == newId;
        assert order[i] in db.campOrder;
      }
    }
    assert forall id :: id in order <==> id in db.campOrder || id == newId;
  }

  /** Creating a camp keeps the natural order in step with the stored camps. */
  lemma CreateCampKeepsWf(db: Db, input: CampInput, newId: Id)
    requires Wf(db) && newId !in db.camps
    ensures Wf(CreateCamp(db, input, newId).db)
  {
    var r := CreateCamp(db, input, newId);
    if r.result.Ok? {
      AppendKeepsWf(db, newId, r.result.value);
    }
  }

  /** `updateCamp`'s handling of coordinates (the other fields it overwrites
      are not modelled): the given values replace the scalar fields, and the
      location is rebuilt only when both are truthy (`Geo.UpdateSite`). */
  function UpdateCampSite(db: Db, id: Id, latitude: Option<real>, longitude: Option<real>): (r: Reply<Camp>)
    ensures id !in db.camps ==> r == Reply(db, Err(CampNotFound))
    ensures id in db.camps ==>
              && r.db.camps.Keys == db.camps.Keys
              && r.result == Ok(r.db.camps[id])
              && var before := db.camps[id];
                 var after := r.db.camps[id];
                 && after == before.(site := after.site)
                 && after.site.latitude == latitude.GetOr(before.site.latitude)
                 && after.site.longitude == longitude.GetOr(before.site.longitude)
                 && (Truthy(latitude) && Truthy(longitude) ==> Consistent(after.site))
                 && (!(Truthy(latitude) && Truthy(longitude)) ==> after.site.location == before.site.location)
    ensures id in db.camps ==>
              && (forall c :: c in db.camps && c != id ==> r.db.camps[c] == db.camps[c])
              && r.db.campOrder == db.campOrder && r.db.refugees == db.refugees
  {
    if id !in db.camps then Reply(db, Err(CampNotFound))
    else
      var c := db.camps[id].(site := UpdateSite(db.camps[id].site, latitude, longitude));
      Reply(db.(camps := db.camps[id := c]), Ok(c))
  }

  /** `ids` without `id`, order kept. */
  function Without(ids: seq<Id>, id: Id): (r: seq<Id>)
    ensures forall x :: x in r <==> x in ids && x != id
    ensures NoDuplicates(ids) ==> NoDuplicates(r)
    ensures id !in ids ==> r == ids
  {
    if ids == [] then []
    else
      var rest := Without(ids[1..], id);
      assert forall x :: x in ids <==> x == ids[0] || x in ids[1..];
      if ids[0] == id then rest
      else
        assert NoDuplicates(ids) ==> ids[0] !in rest;
        assert id !in ids ==> [ids[0]] + ids[1..] == ids;
        [ids[0]] + rest
  }

  /** The tail of a list without duplicates has none, and lacks the head. */
  lemma TailNoDuplicates(ids: seq<Id>)
    requires NoDuplicates(ids) && ids != []
    ensures NoDuplicates(ids[1..]) && ids[0] !in ids[1..]
  {
    var tail := ids[1..];
    forall a, b | 0 <= a < b < |tail| ensures tail[a] != tail[b] {
      assert tail[a] == ids[a + 1] && tail[b] == ids[b + 1];
    }
    forall a | 0 <= a < |tail| ensures tail[a] != ids[0] {
      assert tail[a] == ids[a + 1];
    }
  }

  /** Removing the one occurrence of `id` at position `i` closes the gap and
      keeps every other id where it was relative to the rest. */
  lemma {:induction false} WithoutAt(ids: seq<Id>, id: Id, i: nat)
    requires NoDuplicates(ids) && i < |ids| && ids[i] == id
    ensures Without(ids, id) == ids[..i] + ids[i + 1..]
  {
    var tail := ids[1..];
    TailNoDuplicates(ids);
    if i == 0 {
      assert Without(ids, id) == tail;
      assert ids[..0] + ids[1..] == tail;
    } else {
      assert tail[i - 1] == id;
      WithoutAt(tail, id, i - 1);
      calc {
        Without(ids, id);
        [ids[0]] + Without(tail, id);
        [ids[0]] + (tail[..i - 1] + tail[i..]);
        { GapAfterHead(ids, i); }
        ids[..i] + ids[i + 1..];
      }
    }
  }

  /** Cutting position `i > 0` out of a list is cutting `i - 1` out of its tail. */
  lemma GapAfterHead(ids: seq<Id>, i: nat)
    requires 0 < i < |ids|
    ensures ids[..i] + ids[i + 1..] == [ids[0]] + (ids[1..][..i - 1] + ids[1..][i..])
  {
    assert ids[..i] == [ids[0]] + ids[1..][..i - 1];
    assert ids[i + 1..] == ids[1..][i..];
  }

  /** `deleteCamp`: removes only the camp. Refugees assigned to it and other
      camps' connections to it are left as they are. */
  function DeleteCamp(db: Db, id: Id): (r: Reply<()>)
    ensures id !in db.camps ==> r == Reply(db, Err(CampNotFound))
    ensures id in db.camps ==>
              && r.result.Ok?
              && r.db.camps == db.camps - {id}
              && r.db.refugees == db.refugees
              && (forall x :: x in r.db.campOrder <==> x in db.campOrder && x != id)
    ensures id in db.camps && Wf(db) ==>
              exists i :: 0 <= i < |db.campOrder| && db.campOrder[i] == id
                          && r.db.campOrder == db.campOrder[..i] + db.campOrder[i + 1..]
    ensures Wf(db) ==> Wf(r.db)
  {
    if id !in db.camps then Reply(db, Err(CampNotFound))
    else
      DeletedAt(db, id);
      Reply(db.(camps := db.camps - {id}, campOrder := Without(db.campOrder, id)), Ok(()))
  }

  /** In a well-formed store the deleted camp sits at one position of the order,
      and the rest of the order closes over it. */
  lemma DeletedAt(db: Db, id: Id)
    requires id in db.camps
    ensures Wf(db) ==>
              exists i :: 0 <= i < |db.campOrder| && db.campOrder[i] == id
                          && Without(db.campOrder, id) == db.campOrder[..i] + db.campOrder[i + 1..]
  {
    if Wf(db) {
      var i :| 0 <= i < |db.campOrder| && db.campOrder[i] == id;
      WithoutAt(db.campOrder, id, i);
    }
  }

  /** One side of `connectCamps`: the id is pushed only when absent, and only
      then is the camp saved, which runs the status rule. */
  function Link(c: Camp, other: Id): (c': Camp)
    ensures other in c'.connectedCamps
    ensures other in c.connectedCamps ==> c' == c
    ensures other !in c.connectedCamps ==>
              c' == ApplyStatusRule(c).(connectedCamps := c.connectedCamps + [other])
    ensures NoDuplicates(c.connectedCamps) ==> NoDuplicates(c'.connectedCamps)
  {
    if other in c.connectedCamps then c
    else ApplyStatusRule(c.(connectedCamps := c.connectedCamps + [other]))
  }

  /** One side of `connectCamps` goes through: either nothing is saved, or the
      saved document passes the schema validators (`capacity` at least 1,
      `currentOccupancy` at least 0), which Mongoose runs on the whole
      document at every `save`. */
  predicate LinkSaves(c: Camp, other: Id) {
    other in c.connectedCamps || WithinSchema(Link(c, other))
  }

  /** `connectCamps`: both documents are read first, then each is updated and
      saved in turn. The two ids need not differ. A failed save answers 500;
      when it is the second one, the first camp's write has already happened. */
  function ConnectCamps(db: Db, a: Id, b: Id): (r: Reply<(Camp, Camp)>)
    ensures a !in db.camps || b !in db.camps ==> r == Reply(db, Err(CampNotFound))
    ensures a in db.camps && b in db.camps ==>
              (r.result.Ok? <==> LinkSaves(db.camps[a], b) && LinkSaves(db.camps[b], a))
    ensures a in db.camps && b in db.camps && !LinkSaves(db.camps[a], b) ==>
              r == Reply(db, Err(ValidationFailed))
    ensures a in db.camps && b in db.camps && LinkSaves(db.camps[a], b) && !LinkSaves(db.camps[b], a) ==>
              && r.result == Err(ValidationFailed)
              && r.db == db.(camps := db.camps[a := Link(db.camps[a], b)])
    ensures r.db.camps.Keys == db.camps.Keys
    ensures forall id :: id in db.camps && id != a && id != b ==> r.db.camps[id] == db.camps[id]
    ensures r.db.campOrder == db.campOrder && r.db.refugees == db.refugees
    ensures r.result.Ok? ==>
              && b in r.db.camps[a].connectedCamps && a in r.db.camps[b].connectedCamps
              && db.camps[a].connectedCamps <= r.db.camps[a].connectedCamps
              && db.camps[b].connectedCamps <= r.db.camps[b].connectedCamps
  {
    if a !in db.camps || b !in db.camps then Reply(db, Err(CampNotFound))
    else
      var camp1 := db.camps[a];
      var camp2 := db.camps[b];
      if !LinkSaves(camp1, b) then Reply(db, Err(ValidationFailed))
      else
        var db1 := db.(camps := db.camps[a := Link(camp1, b)]);
        if !LinkSaves(camp2, a) then Reply(db1, Err(ValidationFailed))
        else Reply(db1.(camps := db1.camps[b := Link(camp2, a)]), Ok((Link(camp1, b), Link(camp2, a))))
  }

  /** Linking leaves capacity and occupancy alone, so a link step fails only
      on a camp that was already outside the schema. */
  lemma LinkSavesWithinSchema(c: Camp, other: Id)
    ensures WithinSchema(c) ==> LinkSaves(c, other)
    ensures !LinkSaves(c, other) <==> other !in c.connectedCamps && !WithinSchema(c)
  {
  }

  /** Connections are mutual between stored camps. */
  ghost predicate Symmetric(db: Db) {
    forall x, y :: x in db.camps && y in db.camps ==>
      (y in db.camps[x].connectedCamps <==> x in db.camps[y].connectedCamps)
  }

  /** No camp lists the same connection twice. */
  ghost predicate LinksDistinct(db: Db) {
    forall x :: x in db.camps ==> NoDuplicates(db.camps[x].connectedCamps)
  }

  /** After a successful connection, each camp's connections are its old ones
      plus the new link. */
  lemma ConnectLinks(db: Db, a: Id, b: Id, x: Id, y: Id)
    requires a in db.camps && b in db.camps && x in db.camps
    ensures var r := ConnectCamps(db, a, b);
            r.result.Ok? ==>
              (y in r.db.camps[x].connectedCamps <==>
                 y in db.camps[x].connectedCamps || (x == a && y == b) || (x == b && y == a))
  {
    var r := ConnectCamps(db, a, b);
    if r.result.Ok? {
      if x == b {
        assert r.db.camps[x] == Link(db.camps[b], a);
      } else if x == a {
        assert r.db.camps[x] == Link(db.camps[a], b);
      }
    }
  }

  /** Connections that were mutual stay mutual when the request succeeds or
      writes nothing, and always when every stored camp is within the schema. */
  lemma ConnectKeepsSymmetry(db: Db, a: Id, b: Id)
    requires Symmetric(db)
    ensures var r := ConnectCamps(db, a, b);
            r.result.Ok? || r.db == db ==> Symmetric(r.db)
    ensures (forall c :: c in db.camps ==> WithinSchema(db.camps[c])) ==>
              Symmetric(ConnectCamps(db, a, b).db)
  {
    var r := ConnectCamps(db, a, b);
    if a in db.camps && b in db.camps {
      if forall c :: c in db.camps ==> WithinSchema(db.camps[c]) {
        LinkSavesWithinSchema(db.camps[a], b);
        LinkSavesWithinSchema(db.camps[b], a);
      }
      if r.result.Ok? {
        forall x, y | x in r.db.camps && y in r.db.camps
          ensures y in r.db.camps[x].connectedCamps <==> x in r.db.camps[y].connectedCamps
        {
          ConnectLinks(db, a, b, x, y);
          ConnectLinks(db, a, b, y, x);
        }
      }
    }
  }

  /** Every stored camp within the schema: connecting two stored camps succeeds. */
  lemma ConnectSucceedsWithinSchema(db: Db, a: Id, b: Id)
    requires a in db.camps && b in db.camps
    requires WithinSchema(db.camps[a]) && WithinSchema(db.camps[b])
    ensures ConnectCamps(db, a, b).result.Ok?
  {
    LinkSavesWithinSchema(db.camps[a], b);
    LinkSavesWithinSchema(db.camps[b], a);
  }

  /** The failure a second save leaves behind: the first camp lists the second,
      which does not list it back. */
  lemma ConnectLeavesOneWayLink(db: Db, a: Id, b: Id)
    requires a in db.camps && b in db.camps && a != b
    requires WithinSchema(db.camps[a])
    requires a !in db.camps[b].connectedCamps && !WithinSchema(db.camps[b])
    ensures var r := ConnectCamps(db, a, b);
            && r.result == Err(ValidationFailed)
            && b in r.db.camps[a].connectedCamps
            && a !in r.db.camps[b].connectedCamps
            && !Symmetric(r.db)
  {
    LinkSavesWithinSchema(db.camps[a], b);
    LinkSavesWithinSchema(db.camps[b], a);
    var r := ConnectCamps(db, a, b);
    assert r.db.camps[b] == db.camps[b];
    assert b in r.db.camps[a].connectedCamps;
  }

  lemma ConnectKeepsLinksDistinct(db: Db, a: Id, b: Id)
    requires LinksDistinct(db)
    ensures LinksDistinct(ConnectCamps(db, a, b).db)
  {
  }

  /** Connecting the same pair again changes nothing. In the reverse direction
      this needs the first request to get past its first save: when `a` fails
      validation, connecting `b` to `a` afterwards still writes `b`. */
  lemma ConnectIdempotent(db: Db, a: Id, b: Id)
    ensures ConnectCamps(ConnectCamps(db, a, b).db, a, b).db == ConnectCamps(db, a, b).db
    ensures a !in db.camps || b !in db.camps || LinkSaves(db.camps[a], b) ==>
              ConnectCamps(ConnectCamps(db, a, b).db, b, a).db == ConnectCamps(db, a, b).db
  {
    var db1 := ConnectCamps(db, a, b).db;
    if a in db.camps && b in db.camps && LinkSaves(db.camps[a], b) {
      assert b in db1.camps[a].connectedCamps;
      if LinkSaves(db.camps[b], a) {
        assert a in db1.camps[b].connectedCamps;
        assert db1.camps[a := db1.camps[a]][b := db1.camps[b]] == db1.camps;
        assert db1.camps[b := db1.camps[b]][a := db1.camps[a]] == db1.camps;
      } else {
        assert a != b;
        assert db1.camps[b] == db.camps[b];
        assert db1.camps[a := db1.camps[a]] == db1.camps;
      }
    }
  }

  /** Deleting a camp keeps the mutual connections among the camps that remain. */
  lemma DeleteCampKeepsSymmetry(db: Db, id: Id)
    requires Symmetric(db)
    ensures Symmetric(DeleteCamp(db, id).db)
  {
  }
}
