/** The occupancy bookkeeping the controllers keep between them: a camp's
    `currentOccupancy` is the number of people (whole families) assigned to it. */
module Accounting {
  import opened Wrappers
  import opened Ids
  import opened Errors
  import opened Geo
  import opened CampModel
  import opened RefugeeModel
  import opened Store
  import opened Assignment
  import CampController
  import RefugeeController

  /** The people refugee `v` accounts for in camp `c`. */
  function Share(v: Refugee, c: Id): int {
    if v.assignedCamp == Some(c) then v.familyMembers else 0
  }

  /** The people assigned to camp `c`: the sum of the families that name it. */
  ghost function Load(refs: map<Id, Refugee>, c: Id): int
    decreases refs.Keys
  {
    if refs == map[] then 0
    else
      var k :| k in refs;
      Share(refs[k], c) + Load(refs - {k}, c)
  }

  /** The sum does not depend on the order the refugees are taken in. */
  lemma {:induction false} LoadRemove(refs: map<Id, Refugee>, k: Id, c: Id)
    requires k in refs
    ensures Load(refs, c) == Share(refs[k], c) + Load(refs - {k}, c)
    decreases refs.Keys
  {
    var j :| j in refs && Load(refs, c) == Share(refs[j], c) + Load(refs - {j}, c);
    if j != k {
      var rest := refs - {j};
      LoadRemove(rest, k, c);
      LoadRemove(refs - {k}, j, c);
      assert rest - {k} == (refs - {k}) - {j};
    }
  }

  /** Replacing (or adding) one refugee changes the sum by the difference of its shares. */
  lemma LoadUpdate(refs: map<Id, Refugee>, k: Id, v: Refugee, c: Id)
    ensures Load(refs[k := v], c) == Load(refs, c) - (if k in refs then Share(refs[k], c) else 0) + Share(v, c)
  {
    LoadRemove(refs[k := v], k, c);
    assert refs[k := v] - {k} == refs - {k};
    if k in refs {
      LoadRemove(refs, k, c);
    } else {
      assert refs - {k} == refs;
    }
  }

  lemma LoadNonNegative(refs: map<Id, Refugee>, c: Id)
    requires forall k :: k in refs ==> refs[k].familyMembers >= 0
    ensures Load(refs, c) >= 0
    decreases refs.Keys
  {
    if refs != map[] {
      var k :| k in refs && Load(refs, c) == Share(refs[k], c) + Load(refs - {k}, c);
      LoadNonNegative(refs - {k}, c);
    }
  }

  /** Every stored camp's occupancy is the load its refugees put on it. */
  ghost predicate Accounted(db: Db) {
    forall c :: c in db.camps ==> db.camps[c].currentOccupancy == Load(db.refugees, c)
  }

  /** Every refugee's camp and status agree. */
  ghost predicate Agreeing(db: Db) {
    forall k :: k in db.refugees ==> StatusAgrees(db.refugees[k])
  }

  /** No family has a negative size. */
  ghost predicate Families(db: Db) {
    forall k :: k in db.refugees ==> db.refugees[k].familyMembers >= 0
  }

  /** The invariant the model's requests keep. */
  ghost predicate Sound(db: Db) {
    Wf(db) && Accounted(db) && Agreeing(db)
  }

  /** With the bookkeeping in step, the unclamped decrement never takes an
      occupancy below zero. */
  lemma AccountedOccupancyNonNegative(db: Db, c: Id)
    requires Accounted(db) && Families(db) && c in db.camps
    ensures db.camps[c].currentOccupancy >= 0
  {
    LoadNonNegative(db.refugees, c);
  }

  /** A placement of an unassigned refugee keeps the invariant. */
  lemma PlacedKeepsSound(db: Db, rid: Id, p: Placement, db': Db, dist: Distance, round: Rounding)
    requires Sound(db) && rid in db.refugees && db.refugees[rid].assignedCamp.None?
    requires Placed(db, rid, p, db', dist, round)
    ensures Sound(db')
  {
    var v := db.refugees[rid];
    var v' := v.(assignedCamp := Some(p.campId), status := Assigned);
    forall c | c in db'.camps
      ensures db'.camps[c].currentOccupancy == Load(db'.refugees, c)
    {
      LoadUpdate(db.refugees, rid, v', c);
    }
    assert Wf(db') by {
      assert db'.camps.Keys == db.camps.Keys;
    }
  }

  lemma AssignKeepsSound(db: Db, refugeeId: Option<Id>, dist: Distance, round: Rounding)
    requires Sound(db)
    ensures Sound(Assign(db, refugeeId, dist, round).db)
  {
    var r := Assign(db, refugeeId, dist, round);
    if r.result.Ok? {
      PlacedKeepsSound(db, refugeeId.value, r.result.value, r.db, dist, round);
    }
  }

  /** An assignment only fills a camp up to its capacity. */
  lemma AssignKeepsCapacity(db: Db, refugeeId: Option<Id>, dist: Distance, round: Rounding)
    requires forall c :: c in db.camps ==> db.camps[c].currentOccupancy <= db.camps[c].capacity
    ensures var db' := Assign(db, refugeeId, dist, round).db;
            forall c :: c in db'.camps ==> db'.camps[c].currentOccupancy <= db'.camps[c].capacity
  {
  }

  /** Adding a refugee who is not assigned anywhere keeps the invariant. */
  lemma AddUnassignedKeepsSound(db: Db, newId: Id, v: Refugee)
    requires Sound(db) && newId !in db.refugees && v.assignedCamp.None? && StatusAgrees(v)
    ensures Sound(db.(refugees := db.refugees[newId := v]))
  {
    var db1 := db.(refugees := db.refugees[newId := v]);
    forall c | c in db1.camps
      ensures db1.camps[c].currentOccupancy == Load(db1.refugees, c)
    {
      LoadUpdate(db.refugees, newId, v, c);
    }
  }

  /** A registration, with or without a placement, keeps the invariant. */
  lemma RegisterKeepsSound(db: Db, address: string, input: RefugeeInput, geocoded: Option<Geocoded>,
                           newId: Id, dist: Distance, round: Rounding)
    requires Sound(db) && newId !in db.refugees
    ensures Sound(RegisterAndAssign(db, address, input, geocoded, newId, dist, round).db)
  {
    var r := RegisterAndAssign(db, address, input, geocoded, newId, dist, round);
    if r.result.Ok? {
      var created := NewRefugee(GeocodedInput(input, address, geocoded.value)).value;
      var db1 := db.(refugees := db.refugees[newId := created]);
      AddUnassignedKeepsSound(db, newId, created);
      if r.result.value.placement.Some? {
        PlacedKeepsSound(db1, newId, r.result.value.placement.value, r.db, dist, round);
      }
    }
  }

  lemma CreateRefugeeKeepsSound(db: Db, input: RefugeeInput, newId: Id)
    requires Sound(db) && newId !in db.refugees
    ensures Sound(RefugeeController.CreateRefugee(db, input, newId).db)
  {
    var r := RefugeeController.CreateRefugee(db, input, newId);
    if r.result.Ok? {
      AddUnassignedKeepsSound(db, newId, r.result.value);
    }
  }

  /** Deleting a refugee releases exactly its family's places. */
  lemma DeleteRefugeeKeepsSound(db: Db, id: Id)
    requires Sound(db)
    ensures Sound(RefugeeController.DeleteRefugee(db, id).db)
  {
    var r := RefugeeController.DeleteRefugee(db, id);
    if id in db.refugees {
      forall c | c in r.db.camps
        ensures r.db.camps[c].currentOccupancy == Load(r.db.refugees, c)
      {
        LoadRemove(db.refugees, id, c);
      }
    }
  }

  /** A new camp starts the bookkeeping at zero: it keeps the invariant when no
      occupancy is supplied and no refugee already names its id. */
  lemma CreateCampKeepsSound(db: Db, input: CampController.CampInput, newId: Id)
    requires Sound(db) && newId !in db.camps
    requires input.currentOccupancy.GetOr(0) == 0
    requires forall k :: k in db.refugees ==> db.refugees[k].assignedCamp != Some(newId)
    ensures Sound(CampController.CreateCamp(db, input, newId).db)
  {
    CampController.CreateCampKeepsWf(db, input, newId);
    var r := CampController.CreateCamp(db, input, newId);
    if r.result.Ok? {
      LoadZero(db.refugees, newId);
    }
  }

  lemma LoadZero(refs: map<Id, Refugee>, c: Id)
    requires forall k :: k in refs ==> refs[k].assignedCamp != Some(c)
    ensures Load(refs, c) == 0
    decreases refs.Keys
  {
    if refs != map[] {
      var k :| k in refs && Load(refs, c) == Share(refs[k], c) + Load(refs - {k}, c);
      LoadZero(refs - {k}, c);
    }
  }

  lemma ConnectKeepsSound(db: Db, a: Id, b: Id)
    requires Sound(db)
    ensures Sound(CampController.ConnectCamps(db, a, b).db)
  {
  }

  lemma DeleteCampKeepsSound(db: Db, id: Id)
    requires Sound(db)
    ensures Sound(CampController.DeleteCamp(db, id).db)
  {
  }
}
