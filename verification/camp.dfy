/** The camp document of backend/models/Camp.js. */
module CampModel {
  import opened Wrappers
  import opened Ids
  import opened Geo

  datatype CampStatus = Active | Full | Inactive | Emergency

  function StatusName(st: CampStatus): string {
    match st
    case Active => "Active"
    case Full => "Full"
    case Inactive => "Inactive"
    case Emergency => "Emergency"
  }

  /** The `enum` validator of `status`: exactly the four names are accepted. */
  function ParseStatus(s: string): (st: Option<CampStatus>)
    ensures st.Some? ==> StatusName(st.value) == s
    ensures st.None? ==> forall t :: StatusName(t) != s
  {
    if s == "Active" then Some(Active)
    else if s == "Full" then Some(Full)
    else if s == "Inactive" then Some(Inactive)
    else if s == "Emergency" then Some(Emergency)
    else None
  }

  datatype Resources = Resources(food: int, water: int, medical: int, shelter: int)

  datatype Camp = Camp(
    name: string,
    address: string,
    site: Site,
    capacity: int,
    currentOccupancy: int,
    resources: Resources,
    facilities: seq<string>,
    connectedCamps: seq<Id>,
    status: CampStatus,
    managedBy: string,
    contactNumber: string)

  const DefaultManager: string := "Disaster Management Authority"

  /** The `availableCapacity` virtual. */
  function AvailableCapacity(c: Camp): (free: int)
    ensures c.currentOccupancy + free == c.capacity
    ensures free > 0 <==> c.currentOccupancy < c.capacity
  {
    c.capacity - c.currentOccupancy
  }

  /** The `min` validators: capacity at least 1, occupancy not negative. */
  predicate WithinSchema(c: Camp) {
    c.capacity >= 1 && c.currentOccupancy >= 0
  }

  /** The query of `getAvailableCamps` and of the assignment engine: the camp
      takes people in (Active or Emergency) and is below capacity. */
  predicate IsAvailable(c: Camp) {
    (c.status == Active || c.status == Emergency) && c.currentOccupancy < c.capacity
  }

  /** The pre-save hook: a camp at or over capacity becomes Full, a Full camp
      below capacity becomes Active, and any other status is kept. */
  function ApplyStatusRule(c: Camp): (c': Camp)
    ensures c' == c.(status := c'.status)
    ensures c'.status == Full <==> c.currentOccupancy >= c.capacity
    ensures c.currentOccupancy < c.capacity && c.status == Full ==> c'.status == Active
    ensures c.currentOccupancy < c.capacity && c.status != Full ==> c'.status == c.status
  {
    if c.currentOccupancy >= c.capacity then c.(status := Full)
    else if c.status == Full && c.currentOccupancy < c.capacity then c.(status := Active)
    else c
  }

  /** The status rule reads the free places: a save marks the camp Full exactly
      when `availableCapacity` is not positive, and a camp open for intake has
      at least one free place. */
  lemma StatusRuleByCapacity(c: Camp)
    ensures ApplyStatusRule(c).status == Full <==> AvailableCapacity(c) <= 0
    ensures IsAvailable(c) ==> AvailableCapacity(c) >= 1
  {
  }

  /** Saving twice in a row changes nothing the first save did not. */
  lemma StatusRuleIdempotent(c: Camp)
    ensures ApplyStatusRule(ApplyStatusRule(c)) == ApplyStatusRule(c)
  {
  }

  /** Once the rule has run, a camp is open for intake exactly when it is below
      capacity and not Inactive. */
  lemma AvailableAfterStatusRule(c: Camp)
    ensures IsAvailable(ApplyStatusRule(c)) <==> c.currentOccupancy < c.capacity && c.status != Inactive
  {
  }
}
