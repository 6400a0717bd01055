/** Refugee requests of backend/controllers/refugeeController.js. */
module RefugeeController {
  import opened Wrappers
  import opened Ids
  import opened Errors
  import opened Geo
  import opened CampModel
  import opened RefugeeModel
  import opened Store

  /** `createRefugee`: the location is built as `[longitude, latitude]` and the
      document is created. The new id is fresh. */
  function CreateRefugee(db: Db, input: RefugeeInput, newId: Id): (r: Reply<Refugee>)
    requires newId !in db.refugees
    ensures r.result.Ok? <==> ValidInput(input)
    ensures r.result.Err? ==> r == Reply(db, Err(ValidationFailed))
    ensures r.result.Ok? ==>
              && r.result.value == NewRefugee(input).value
              && r.db == db.(refugees := db.refugees[newId := r.result.value])
              && r.result.value.status == Pending && r.result.value.assignedCamp == None
              && Consistent(r.result.value.site)
              && Position(r.result.value.site) == Coordinate(input.latitude.value, input.longitude.value)
  {
    var created := NewRefugee(input);
    if created.Err? then Reply(db, Err(created.error))
    else Reply(db.(refugees := db.refugees[newId := created.value]), Ok(created.value))
  }

  /** `updateRefugee`'s handling of coordinates (the other fields it overwrites
      are not modelled): the given values replace the scalar fields, and the
      location is rebuilt only when both are truthy (`Geo.UpdateSite`). */
  function UpdateRefugeeSite(db: Db, id: Id, latitude: Option<real>, longitude: Option<real>): (r: Reply<Refugee>)
    ensures id !in db.refugees ==> r == Reply(db, Err(RefugeeNotFound))
    ensures id in db.refugees ==>
              && r.db.refugees.Keys == db.refugees.Keys
              && r.result == Ok(r.db.refugees[id])
              && var before := db.refugees[id];
                 var after := r.db.refugees[id];
                 && after == before.(site := after.site)
                 && after.site.latitude == latitude.GetOr(before.site.latitude)
                 && after.site.longitude == longitude.GetOr(before.site.longitude)
                 && (Truthy(latitude) && Truthy(longitude) ==> Consistent(after.site))
                 && (!(Truthy(latitude) && Truthy(longitude)) ==> after.site.location == before.site.location)
    ensures id in db.refugees ==>
              && (forall k :: k in db.refugees && k != id ==> r.db.refugees[k] == db.refugees[k])
              && r.db.camps == db.camps && r.db.campOrder == db.campOrder
  {
    if id !in db.refugees then Reply(db, Err(RefugeeNotFound))
    else
      var v := db.refugees[id].(site := UpdateSite(db.refugees[id].site, latitude, longitude));
      Reply(db.(refugees := db.refugees[id := v]), Ok(v))
  }

  /** `$inc: { currentOccupancy: -familyMembers }` on the camp `c`, when it
      exists: no lower bound, and no status rule (the update does not save). */
  function Release(camps: map<Id, Camp>, c: Id, family: int): (r: map<Id, Camp>)
    ensures r.Keys == camps.Keys
    ensures c in camps ==> r[c] == camps[c].(currentOccupancy := camps[c].currentOccupancy - family)
    ensures forall id :: id in camps && id != c ==> r[id] == camps[id]
  {
    if c in camps then camps[c := camps[c].(currentOccupancy := camps[c].currentOccupancy - family)]
    else camps
  }

  /** `deleteRefugee`: a refugee assigned to a camp gives its family's places
      back to that camp, then the refugee is removed. */
  function DeleteRefugee(db: Db, id: Id): (r: Reply<()>)
    ensures id !in db.refugees ==> r == Reply(db, Err(RefugeeNotFound))
    ensures id in db.refugees ==>
              && r.result.Ok?
              && r.db.refugees == db.refugees - {id}
              && r.db.campOrder == db.campOrder
              && r.db.camps.Keys == db.camps.Keys
              && var v := db.refugees[id];
                 && (v.assignedCamp.Some? && v.assignedCamp.value in db.camps ==>
                       var c := v.assignedCamp.value;
                       r.db.camps[c] == db.camps[c].(currentOccupancy := db.camps[c].currentOccupancy - v.familyMembers))
                 && (forall c :: c in db.camps && v.assignedCamp != Some(c) ==> r.db.camps[c] == db.camps[c])
  {
    if id !in db.refugees then Reply(db, Err(RefugeeNotFound))
    else
      var v := db.refugees[id];
      var camps := if v.assignedCamp.Some? then Release(db.camps, v.assignedCamp.value, v.familyMembers) else db.camps;
      Reply(db.(camps := camps, refugees := db.refugees - {id}), Ok(()))
  }

  /** The decrement has no lower bound: a camp whose count has fallen out of
      step with its refugees goes below zero. */
  lemma DeleteRefugeeCanUnderflow()
    ensures var camp := Camp("A", "a", SiteAt(1.0, 1.0), 10, 0, Resources(0, 0, 0, 0), [], [], Active, DefaultManager, "");
            var v := Refugee("R", 30, Female, "", "a", SiteAt(1.0, 1.0), Some("c"), DefaultMedicalConditions, 3, Assigned);
            var db := Db(map["c" := camp], ["c"], map["r" := v]);
            DeleteRefugee(db, "r").db.camps["c"].currentOccupancy == -3
  {
  }
}
