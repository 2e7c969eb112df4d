/** The orders datasource: existence checks over the repository and the sorting
    of every failure into NOT_FOUND or DATABASE_ERROR. Unlike the categories
    datasource it makes no uniqueness check of its own: a duplicate order number
    is refused only by the store's unique column, and so surfaces as
    DATABASE_ERROR. */
module OrderDatasource {
  import opened Outcomes
  import opened Decimal
  import opened Store
  import opened OrderDomain

  const OrderNotFound := "Order no encontrado con ID: "
  const ErrorSaving := "Error al guardar order: "
  const ErrorUpdating := "Error al actualizar order: "
  const ErrorDeleting := "Error al eliminar order: "
  const ErrorFinding := "Error al obtener orders: "
  const ErrorFindingById := "Error al obtener order por ID: "

  /** The NOT_FOUND error for `id`, its message ending in the id's decimal text. */
  function NotFoundError(id: Id): Error {
    Error(NotFound, OrderNotFound + Render(id))
  }

  /** The NOT_FOUND message names the id it was raised for, and the id can be read back from it. */
  lemma NotFoundNamesId(id: Id)
    ensures NotFoundError(id).kind == NotFound
    ensures var m := NotFoundError(id).message;
            && |OrderNotFound| < |m|
            && m[..|OrderNotFound|] == OrderNotFound
            && AllDigits(m[|OrderNotFound|..])
            && Parse(m[|OrderNotFound|..]) == id
  {
    ReadBackAfterPrefix(OrderNotFound, id);
  }

  /** OrderDatasource.findAll: every stored order, or DATABASE_ERROR. */
  function FindAll(t: Table<Order>, f: Faults): (r: Result<seq<Order>>)
    ensures r.Ok? <==> FindAllRows !in f
    ensures r.Err? ==> r.error == Wrapped(ErrorFinding, f[FindAllRows])
    ensures r.Ok? && Bounded(t) ==> |r.value| == |t.rows| && forall x :: x in r.value <==> x in t.rows.Values
  {
    match Store.FindAll(t, f)
    case Thrown(m) => Err(Wrapped(ErrorFinding, m))
    case Done(rows) =>
      ListingIsComplete(t); Ok(rows)
  }

  /** OrderDatasource.findById: the row at `id`, NOT_FOUND naming the id, or DATABASE_ERROR. */
  function FindById(t: Table<Order>, id: Id, f: Faults): (r: Result<Order>)
    ensures r.Ok? <==> FindRowById !in f && id in t.rows
    ensures r.Ok? ==> r.value == t.rows[id]
    ensures r.Fails(NotFound) <==> FindRowById !in f && id !in t.rows
    ensures r.Fails(NotFound) ==> r.error == NotFoundError(id)
    ensures r.Fails(DatabaseError) <==> FindRowById in f
    ensures r.Fails(DatabaseError) ==> r.error == Wrapped(ErrorFindingById, f[FindRowById])
    ensures !r.Fails(ValidationError)
  {
    match Store.FindById(t, id, f)
    case Thrown(m) => Err(Wrapped(ErrorFindingById, m))
    case Done(None) => Err(NotFoundError(id))
    case Done(Some(o)) => Ok(o)
  }

  /** OrderDatasource.save: the repository's save, with no check of its own;
      every failure is DATABASE_ERROR and leaves the table as it was. */
  function Save(t: Table<Order>, o: Order, f: Faults): (s: Step<Order, Order>)
    ensures s.result.Err? ==> s.after == t
    ensures s.result.Err? ==> s.result.Fails(DatabaseError) && exists cause :: s.result.error == Wrapped(ErrorSaving, cause)
    ensures s.result.Err? <==> SaveRow in f || !Storable(o) || NumberClash(t, TargetId(t, o.id), o.orderNumber)
    ensures s.result.Ok? ==>
              s.result.value.id.Some? && s.after.rows == t.rows[s.result.value.id.value := s.result.value]
    ensures s.result.Ok? ==> s.result.value == o.(id := s.result.value.id)
  {
    match OrderDomain.Save(t, o, f)
    case Thrown(m) => Step(Err(Wrapped(ErrorSaving, m)), t)
    case Done((row, t')) => Step(Ok(row), t')
  }

  /** The fields update copies from the candidate onto the stored row: order date,
      order number, shipping date, delivery date, value and detail. Description and
      status are not among them. */
  function Overwrite(existing: Order, o: Order): (u: Order)
    ensures u.id == existing.id && u.description == existing.description && u.status == existing.status
    ensures u.orderDate == o.orderDate && u.orderNumber == o.orderNumber
    ensures u.shippingDate == o.shippingDate && u.deliveryDate == o.deliveryDate
    ensures u.orderValue == o.orderValue && u.orderDetail == o.orderDetail
  {
    existing.(orderDate := o.orderDate, orderNumber := o.orderNumber, shippingDate := o.shippingDate,
              deliveryDate := o.deliveryDate, orderValue := o.orderValue, orderDetail := o.orderDetail)
  }

  /** OrderDatasource.update: load the row (its errors pass through as they are),
      overwrite the updatable fields and save. There is no order-number check. */
  function Update(t: Table<Order>, o: Order, id: Id, f: Faults): (s: Step<Order, Order>)
    ensures s.result.Err? ==> s.after == t
    ensures !s.result.Fails(ValidationError)
    ensures FindById(t, id, f).Err? ==> s.result == FindById(t, id, f)
    ensures s.result.Fails(NotFound) <==> FindRowById !in f && id !in t.rows
    ensures s.result.Fails(NotFound) ==> s.result.error == NotFoundError(id)
    ensures s.result.Fails(DatabaseError) && FindRowById !in f ==>
              exists cause :: s.result.error == Wrapped(ErrorUpdating, cause)
    ensures Valid(t) ==>
              (s.result.Ok? <==>
                 && FindRowById !in f && id in t.rows && SaveRow !in f
                 && Storable(Overwrite(t.rows[id], o)) && !NumberClash(t, id, o.orderNumber))
    ensures s.result.Ok? ==>
              && id in t.rows
              && s.result.value == Overwrite(t.rows[id], o).(id := s.result.value.id)
              && s.result.value.id.Some?
              && s.after.rows == t.rows[s.result.value.id.value := s.result.value]
  {
    match FindById(t, id, f)
    case Err(e) => Step(Err(e), t)
    case Ok(existing) =>
      match OrderDomain.Save(t, Overwrite(existing, o), f)
      case Thrown(m) => Step(Err(Wrapped(ErrorUpdating, m)), t)
      case Done((row, t')) => Step(Ok(row), t')
  }

  /** OrderDatasource.deleteById: NOT_FOUND for an absent id, otherwise the row is removed. */
  function DeleteById(t: Table<Order>, id: Id, f: Faults): (s: Step<(), Order>)
    ensures s.result.Err? ==> s.after == t
    ensures !s.result.Fails(ValidationError)
    ensures s.result.Fails(NotFound) <==> ExistsRowById !in f && id !in t.rows
    ensures s.result.Fails(NotFound) ==> s.result.error == NotFoundError(id)
    ensures s.result.Ok? <==> ExistsRowById !in f && id in t.rows && DeleteRowById !in f
    ensures s.result.Ok? ==> s.after.rows == t.rows - {id} && s.after.nextId == t.nextId
  {
    match ExistsById(t, id, f)
    case Thrown(m) => Step(Err(Wrapped(ErrorDeleting, m)), t)
    case Done(false) => Step(Err(NotFoundError(id)), t)
    case Done(true) =>
      match Store.DeleteById(t, id, f)
      case Thrown(m) => Step(Err(Wrapped(ErrorDeleting, m)), t)
      case Done(t') => Step(Ok(()), t')
  }

  /** A well-formed order under a fresh number is added as one new row under the next
      identity value, and findById on that id returns it. */
  lemma SaveNewOrderAddsRow(t: Table<Order>, o: Order, f: Faults, g: Faults)
    requires Valid(t) && o.id.None? && Storable(o)
    requires SaveRow !in f && FindRowById !in g
    requires forall k :: k in t.rows ==> t.rows[k].orderNumber != o.orderNumber
    ensures var s := Save(t, o, f);
            && s.result == Ok(o.(id := Some(t.nextId)))
            && t.nextId !in t.rows
            && s.after.rows == t.rows[t.nextId := s.result.value]
            && |s.after.rows| == |t.rows| + 1
            && FindById(s.after, t.nextId, g) == s.result
  {
  }

  /** The datasource makes no order-number check of its own: saving a new order
      under an order number already stored is refused only by the store's unique
      column, so it fails with DATABASE_ERROR, never VALIDATION_ERROR (unlike a
      duplicate category name), and changes nothing. */
  lemma DuplicateNumberOnSaveIsDatabaseError(t: Table<Order>, o: Order, f: Faults)
    requires Valid(t) && o.id.None?
    requires ExistsByOrderNumber(t, o.orderNumber, f) == Done(true)
    ensures var s := Save(t, o, f);
            && s.result.Fails(DatabaseError) && !s.result.Fails(ValidationError) && s.after == t
    ensures SaveRow !in f && Storable(o) ==>
              Save(t, o, f).result == Err(Wrapped(ErrorSaving, UniqueViolated))
  {
  }

  /** Likewise for update: changing a row's order number to one another row holds
      fails with DATABASE_ERROR, never VALIDATION_ERROR, and changes nothing. */
  lemma DuplicateNumberOnUpdateIsDatabaseError(t: Table<Order>, o: Order, id: Id, other: Id, f: Faults)
    requires Valid(t) && id in t.rows && other in t.rows && other != id
    requires o.orderNumber == t.rows[other].orderNumber
    ensures var s := Update(t, o, id, f);
            && s.result.Fails(DatabaseError) && !s.result.Fails(ValidationError) && s.after == t
  {
  }

  /** A successful update overwrites exactly order date, order number, shipping date,
      delivery date, value and detail; id, description, status, every other row and
      the identity counter are untouched. */
  lemma UpdateOverwritesExactly(t: Table<Order>, o: Order, id: Id, f: Faults)
    requires Valid(t)
    requires Update(t, o, id, f).result.Ok?
    ensures var s := Update(t, o, id, f);
            var u := s.result.value;
            && id in t.rows
            && u.id == Some(id)
            && u.description == t.rows[id].description && u.status == t.rows[id].status
            && u.orderDate == o.orderDate && u.orderNumber == o.orderNumber
            && u.shippingDate == o.shippingDate && u.deliveryDate == o.deliveryDate
            && u.orderValue == o.orderValue && u.orderDetail == o.orderDetail
            && s.after == Table(t.rows[id := u], t.nextId)
            && s.after.rows.Keys == t.rows.Keys
            && (forall k :: k in t.rows && k != id ==> s.after.rows[k] == t.rows[k])
  {
  }

  /** Saving, updating and deleting keep the store's constraints, the unique order number included. */
  lemma WritesPreserveValidity(t: Table<Order>, o: Order, id: Id, f: Faults)
    requires Valid(t)
    ensures Valid(Save(t, o, f).after)
    ensures Valid(Update(t, o, id, f).after)
    ensures Valid(DeleteById(t, id, f).after)
  {
  }

  /** After a successful delete, findById on the same id fails with NOT_FOUND. */
  lemma DeleteThenFindIsNotFound(t: Table<Order>, id: Id, f: Faults, g: Faults)
    requires DeleteById(t, id, f).result.Ok? && FindRowById !in g
    ensures FindById(DeleteById(t, id, f).after, id, g) == Err(NotFoundError(id))
  {
  }
}
