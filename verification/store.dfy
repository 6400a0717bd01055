/** The two collections the controllers read and write, as one immutable state. */
module Store {
  import opened Wrappers
  import opened Ids
  import opened Errors
  import opened Geo
  import opened CampModel
  import opened RefugeeModel

  /** The camps by id, the camps' natural (insertion) order in which `find`
      returns them, and the refugees by id. */
  datatype Db = Db(camps: map<Id, Camp>, campOrder: seq<Id>, refugees: map<Id, Refugee>)

  predicate NoDuplicates<T(==)>(s: seq<T>) {
    forall i, j :: 0 <= i < j < |s| ==> s[i] != s[j]
  }

  /** The natural order lists every stored camp exactly once. */
  ghost predicate Wf(db: Db) {
    && NoDuplicates(db.campOrder)
    && (forall id :: id in db.camps <==> id in db.campOrder)
  }

  /** The state after a request, and its response. */
  datatype Reply<T> = Reply(db: Db, result: Result<T, Error>)

  /** A camp document as a query returns it: its id and its fields. */
  datatype Listed = Listed(id: Id, camp: Camp)

  function ListedAt(l: Listed): Coordinate {
    Position(l.camp.site)
  }

  /** The camp `id` is stored and appears in the natural order. */
  predicate Stored(db: Db, id: Id) {
    id in db.campOrder && id in db.camps
  }

  /** The listing of one id: its camp when it is stored and open for intake. */
  function ListedIf(camps: map<Id, Camp>, id: Id): seq<Listed> {
    if id in camps && IsAvailable(camps[id]) then [Listed(id, camps[id])] else []
  }

  /** The query `{ currentOccupancy < capacity, status in [Active, Emergency] }`
      over the camps listed in `ids`, in that order. */
  function AvailableAmong(camps: map<Id, Camp>, ids: seq<Id>): seq<Listed> {
    if ids == [] then [] else ListedIf(camps, ids[0]) + AvailableAmong(camps, ids[1..])
  }

  /** The query answers exactly the listed camps open for intake, as stored. */
  lemma {:induction false} AvailableAmongMembers(camps: map<Id, Camp>, ids: seq<Id>)
    ensures forall l :: l in AvailableAmong(camps, ids) ==>
              l.id in ids && l.id in camps && l.camp == camps[l.id] && IsAvailable(l.camp)
    ensures forall id :: id in ids && id in camps && IsAvailable(camps[id]) ==>
              Listed(id, camps[id]) in AvailableAmong(camps, ids)
  {
    if ids != [] {
      AvailableAmongMembers(camps, ids[1..]);
      assert forall id :: id in ids ==> id == ids[0] || id in ids[1..];
    }
  }

  /** The first id's listing comes first. */
  lemma AvailableAmongCons(camps: map<Id, Camp>, ids: seq<Id>)
    requires ids != []
    ensures AvailableAmong(camps, ids) == ListedIf(camps, ids[0]) + AvailableAmong(camps, ids[1..])
  {
  }

  /** The listing filters in order: listing two runs of ids one after the other
      lists each run's camps, the first run's first. */
  lemma {:induction false} AvailableAmongAppend(camps: map<Id, Camp>, a: seq<Id>, b: seq<Id>)
    ensures AvailableAmong(camps, a + b) == AvailableAmong(camps, a) + AvailableAmong(camps, b)
  {
    if a == [] {
      assert a + b == b;
    } else {
      calc {
        AvailableAmong(camps, a + b);
        { AvailableAmongCons(camps, a + b);
          assert (a + b)[0] == a[0];
          assert (a + b)[1..] == a[1..] + b; }
        ListedIf(camps, a[0]) + AvailableAmong(camps, a[1..] + b);
        { AvailableAmongAppend(camps, a[1..], b); }
        ListedIf(camps, a[0]) + (AvailableAmong(camps, a[1..]) + AvailableAmong(camps, b));
        (ListedIf(camps, a[0]) + AvailableAmong(camps, a[1..])) + AvailableAmong(camps, b);
        { AvailableAmongCons(camps, a); }
        AvailableAmong(camps, a) + AvailableAmong(camps, b);
      }
    }
  }

  /** `getAvailableCamps`: exactly the stored camps open for intake. */
  function AvailableCamps(db: Db): (r: seq<Listed>)
    ensures forall l :: l in r ==> Stored(db, l.id) && l.camp == db.camps[l.id] && IsAvailable(l.camp)
    ensures forall id :: Stored(db, id) && IsAvailable(db.camps[id]) ==> Listed(id, db.camps[id]) in r
  {
    AvailableAmongMembers(db.camps, db.campOrder);
    AvailableAmong(db.camps, db.campOrder)
  }

  ghost predicate SomeAvailable(db: Db) {
    exists id :: Stored(db, id) && IsAvailable(db.camps[id])
  }

  /** The query answers nothing exactly when no stored camp is open for intake. */
  lemma AvailableCampsEmpty(db: Db)
    ensures |AvailableCamps(db)| == 0 <==> !SomeAvailable(db)
  {
    var r := AvailableCamps(db);
    if |r| > 0 {
      assert r[0] in r;
      assert Stored(db, r[0].id) && IsAvailable(db.camps[r[0].id]);
    }
    if SomeAvailable(db) {
      var id :| Stored(db, id) && IsAvailable(db.camps[id]);
      assert Listed(id, db.camps[id]) in r;
    }
  }
}
