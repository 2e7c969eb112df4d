/** The orders service: each operation hands its call to the datasource, and
    the three writes run as transactional units, so a failed write leaves the
    table exactly as it was. A duplicate order number is refused only by the
    store's unique column, so it is reported as DATABASE_ERROR, never as
    VALIDATION_ERROR. */
module OrderService {
  import opened Outcomes
  import opened Store
  import opened OrderDomain
  import D = OrderDatasource

  /** OrderService.findAll: the datasource's list, or its DATABASE_ERROR. */
  function FindAll(t: Table<Order>, f: Faults): (r: Result<seq<Order>>)
    ensures r == D.FindAll(t, f)
    ensures r.Err? ==> r.error.kind == DatabaseError
    ensures r.Ok? && Bounded(t) ==> forall x :: x in r.value <==> x in t.rows.Values
  {
    D.FindAll(t, f)
  }

  /** OrderService.findById: the stored row, or NOT_FOUND when the id is absent. */
  function FindById(t: Table<Order>, id: Id, f: Faults): (r: Result<Order>)
    ensures r == D.FindById(t, id, f)
    ensures r.Fails(NotFound) <==> FindRowById !in f && id !in t.rows
    ensures r.Ok? ==> id in t.rows && r.value == t.rows[id]
  {
    D.FindById(t, id, f)
  }

  /** OrderService.save (transactional): the datasource's result; never VALIDATION_ERROR
      nor NOT_FOUND; nothing changes on failure. */
  function Save(t: Table<Order>, o: Order, f: Faults): (s: Step<Order, Order>)
    ensures s.result == D.Save(t, o, f).result
    ensures s.result.Err? ==> s.after == t
    ensures s.result.Ok? ==> s.after == D.Save(t, o, f).after
    ensures s.result.Err? ==> s.result.error.kind == DatabaseError
  {
    Atomically(t, D.Save(t, o, f))
  }

  /** OrderService.update (transactional): the datasource's result; NOT_FOUND for an
      absent id, never VALIDATION_ERROR; nothing changes on failure. */
  function Update(t: Table<Order>, o: Order, id: Id, f: Faults): (s: Step<Order, Order>)
    ensures s.result == D.Update(t, o, id, f).result
    ensures s.result.Err? ==> s.after == t
    ensures s.result.Ok? ==> s.after == D.Update(t, o, id, f).after
    ensures s.result.Fails(NotFound) <==> FindRowById !in f && id !in t.rows
    ensures !s.result.Fails(ValidationError)
  {
    Atomically(t, D.Update(t, o, id, f))
  }

  /** OrderService.deleteById (transactional): the datasource's effect and error;
      NOT_FOUND for an absent id; nothing changes on failure. */
  function DeleteById(t: Table<Order>, id: Id, f: Faults): (s: Step<(), Order>)
    ensures s.result == D.DeleteById(t, id, f).result
    ensures s.result.Err? ==> s.after == t
    ensures s.result.Ok? ==> s.after == D.DeleteById(t, id, f).after
    ensures s.result.Fails(NotFound) <==> ExistsRowById !in f && id !in t.rows
  {
    Atomically(t, D.DeleteById(t, id, f))
  }

  /** The datasource's writes already leave no partial state behind, so the
      transactional wrapper changes none of their outcomes. */
  lemma WritesAreAlreadyAtomic(t: Table<Order>, o: Order, id: Id, f: Faults)
    ensures Save(t, o, f) == D.Save(t, o, f)
    ensures Update(t, o, id, f) == D.Update(t, o, id, f)
    ensures DeleteById(t, id, f) == D.DeleteById(t, id, f)
  {
  }

  /** A successful update leaves the stored order's status and description as they were. */
  lemma UpdateLeavesStatus(t: Table<Order>, o: Order, id: Id, f: Faults)
    requires Valid(t) && Update(t, o, id, f).result.Ok?
    ensures Update(t, o, id, f).result.value.status == t.rows[id].status
    ensures Update(t, o, id, f).result.value.description == t.rows[id].description
    ensures Update(t, o, id, f).after.rows[id].status == t.rows[id].status
  {
  }
}
