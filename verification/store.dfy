/** The keyed store under each datasource: one table of rows keyed by a
    store-assigned id, the generic JpaRepository calls over it, and the
    fault oracle through which any call may throw. */
module Store {
  import opened Outcomes

  type Id = nat

  /** One table: the stored rows by id, and the identity counter: the value the
      next successful insert receives. Inserts the database refuses do not
      advance it here, although a real identity column would have drawn a value. */
  datatype Table<E> = Table(rows: map<Id, E>, nextId: Id)

  /** The first value an identity column assigns. */
  const FirstId: Id := 1

  function Empty<E>(): (t: Table<E>)
    ensures Bounded(t) && t.rows == map[]
  {
    Table(map[], FirstId)
  }

  /** Every stored id was handed out before `nextId`. */
  predicate Bounded<E>(t: Table<E>) {
    forall k :: k in t.rows ==> k < t.nextId
  }

  /** The repository calls a datasource makes. */
  datatype Call = FindAllRows | FindRowById | ExistsRowById | ExistsRowByKey | SaveRow | DeleteRowById

  /** The fault oracle: a call listed here throws, with the given message. */
  type Faults = map<Call, string>

  /** Message of the store's exception when a not-null column would receive null. */
  const NotNullViolated := "not-null property references a null or transient value"

  /** The outcome of a write: its result and the table afterwards. */
  datatype Step<T, E> = Step(result: Result<T>, after: Table<E>)

  /** A transactional unit of work: on failure every change is rolled back. */
  function Atomically<T, E>(before: Table<E>, s: Step<T, E>): (r: Step<T, E>)
    ensures r.result == s.result
    ensures r.result.Err? ==> r.after == before
    ensures r.result.Ok? ==> r.after == s.after
  {
    if s.result.Err? then Step(s.result, before) else s
  }

  /** The stored ids below `n`, ascending. */
  function IdsBelow<E>(rows: map<Id, E>, n: nat): (ids: seq<Id>)
    ensures forall i :: 0 <= i < |ids| ==> ids[i] in rows && ids[i] < n
    ensures forall k :: k in rows && k < n ==> k in ids
    ensures forall i, j :: 0 <= i < j < |ids| ==> ids[i] < ids[j]
    decreases n
  {
    if n == 0 then [] else IdsBelow(rows, n - 1) + (if n - 1 in rows then [n - 1] else [])
  }

  function Ids<E>(t: Table<E>): seq<Id> {
    IdsBelow(t.rows, t.nextId)
  }

  /** The rows in the order findAll returns them: ascending id. */
  function Listing<E>(t: Table<E>): (s: seq<E>)
    ensures |s| == |Ids(t)|
    ensures forall i :: 0 <= i < |s| ==> Ids(t)[i] in t.rows && s[i] == t.rows[Ids(t)[i]]
  {
    var ids := Ids(t);
    seq(|ids|, i requires 0 <= i < |ids| => t.rows[ids[i]])
  }

  /** The set of values in `ids`. */
  function Members(ids: seq<Id>): (m: set<Id>)
    ensures forall k :: k in m <==> k in ids
  {
    if ids == [] then {} else Members(ids[..|ids| - 1]) + {ids[|ids| - 1]}
  }

  /** A strictly ascending sequence holds as many distinct values as it is long. */
  lemma {:induction false} AscendingCardinality(ids: seq<Id>)
    requires forall i, j :: 0 <= i < j < |ids| ==> ids[i] < ids[j]
    ensures |Members(ids)| == |ids|
  {
    if ids != [] {
      var init := ids[..|ids| - 1];
      AscendingCardinality(init);
      assert ids[|ids| - 1] !in Members(init);
    }
  }

  /** The listing holds every stored row, once each, and nothing else. */
  lemma ListingIsComplete<E>(t: Table<E>)
    ensures Bounded(t) ==> forall k :: k in t.rows <==> k in Ids(t)
    ensures Bounded(t) ==> |Listing(t)| == |t.rows|
    ensures Bounded(t) ==> forall x :: x in Listing(t) <==> x in t.rows.Values
  {
    if Bounded(t) {
      ListingCount(t);
      ListingHoldsRows(t);
    }
  }

  /** The listing has one entry per stored row. */
  lemma ListingCount<E>(t: Table<E>)
    requires Bounded(t)
    ensures |Listing(t)| == |t.rows|
  {
    var ids := Ids(t);
    AscendingCardinality(ids);
    assert Members(ids) == t.rows.Keys;
  }

  /** Every listed entry is a stored row and every stored row is listed. */
  lemma ListingHoldsRows<E>(t: Table<E>)
    requires Bounded(t)
    ensures forall x :: x in Listing(t) <==> x in t.rows.Values
  {
    var ids, s := Ids(t), Listing(t);
    forall x | x in t.rows.Values
      ensures x in s
    {
      var k :| k in t.rows && t.rows[k] == x;
      assert k in ids;
      var i :| 0 <= i < |ids| && ids[i] == k;
      assert s[i] == x;
    }
  }

  /** Where JpaRepository.save puts an entity with id `id`: a stored id is
      merged onto its row; a null or unknown id gets the next identity value. */
  function TargetId<E>(t: Table<E>, id: Option<Id>): (k: Id)
    ensures id.Some? && id.value in t.rows ==> k == id.value
    ensures Bounded(t) ==> (k in t.rows <==> id.Some? && id.value in t.rows)
    ensures Bounded(t) && k !in t.rows ==> k == t.nextId
  {
    if id.Some? && id.value in t.rows then id.value else t.nextId
  }

  /** Stores `row` under `k`; writing a new id uses up one identity value. */
  function Write<E>(t: Table<E>, k: Id, row: E): (t': Table<E>)
    requires k in t.rows || k == t.nextId
    ensures t'.rows == t.rows[k := row]
    ensures Bounded(t) ==> Bounded(t')
  {
    Table(t.rows[k := row], if k in t.rows then t.nextId else t.nextId + 1)
  }

  /** JpaRepository.findAll. */
  function FindAll<E>(t: Table<E>, f: Faults): (a: Attempt<seq<E>>)
    ensures a.Thrown? <==> FindAllRows in f
    ensures a.Done? ==> a.value == Listing(t)
  {
    if FindAllRows in f then Thrown(f[FindAllRows]) else Done(Listing(t))
  }

  /** JpaRepository.findById: the row, or an empty Optional. */
  function FindById<E>(t: Table<E>, id: Id, f: Faults): (a: Attempt<Option<E>>)
    ensures a.Thrown? <==> FindRowById in f
    ensures a.Done? ==> (a.value.Some? <==> id in t.rows)
    ensures a.Done? && a.value.Some? ==> a.value.value == t.rows[id]
  {
    if FindRowById in f then Thrown(f[FindRowById])
    else if id in t.rows then Done(Some(t.rows[id]))
    else Done(None)
  }

  /** JpaRepository.existsById. */
  function ExistsById<E>(t: Table<E>, id: Id, f: Faults): (a: Attempt<bool>)
    ensures a.Thrown? <==> ExistsRowById in f
    ensures a.Done? ==> (a.value <==> id in t.rows)
  {
    if ExistsRowById in f then Thrown(f[ExistsRowById]) else Done(id in t.rows)
  }

  /** JpaRepository.deleteById. */
  function DeleteById<E>(t: Table<E>, id: Id, f: Faults): (a: Attempt<Table<E>>)
    ensures a.Thrown? <==> DeleteRowById in f
    ensures a.Done? ==> a.value.rows == t.rows - {id} && a.value.nextId == t.nextId
  {
    if DeleteRowById in f then Thrown(f[DeleteRowById]) else Done(t.(rows := t.rows - {id}))
  }
}
