/** The Order entity, the constraints its table's columns impose (not-null
    columns and a unique order number), and JpaRepository.save over it. */
module OrderDomain {
  import opened Outcomes
  import opened Store

  /** A calendar date (LocalDate), kept opaque: days since the epoch, no date arithmetic. */
  datatype Date = Date(epochDay: int)

  /** An order row. Shipping date, delivery date and detail are optional columns. */
  datatype Order = Order(
    id: Option<Id>,
    orderNumber: Option<string>,
    description: Option<string>,
    orderValue: Option<real>,
    orderDate: Option<Date>,
    shippingDate: Option<Date>,
    deliveryDate: Option<Date>,
    orderDetail: Option<string>,
    status: Option<string>)

  /** `new Order()`: every field null. */
  const Unsaved: Order := Order(None, None, None, None, None, None, None, None, None)

  /** The not-null columns: order number, description, value, order date and status. */
  predicate Storable(o: Order) {
    o.orderNumber.Some? && o.description.Some? && o.orderValue.Some? && o.orderDate.Some? && o.status.Some?
  }

  /** A row other than the one under `k` already holds order number `n`. */
  predicate NumberClash(t: Table<Order>, k: Id, n: Option<string>) {
    exists j :: j in t.rows && j != k && t.rows[j].orderNumber == n
  }

  /** The unique column: no two rows share an order number. */
  predicate NumbersUnique(t: Table<Order>) {
    forall j, k :: j in t.rows && k in t.rows && j != k ==> t.rows[j].orderNumber != t.rows[k].orderNumber
  }

  /** What the store guarantees of the orders table between operations: ids were
      handed out by the identity column, each row carries its own id, no not-null
      column holds null, and order numbers are unique. */
  predicate Valid(t: Table<Order>) {
    && Bounded(t)
    && (forall k :: k in t.rows ==> t.rows[k].id == Some(k) && Storable(t.rows[k]))
    && NumbersUnique(t)
  }

  /** Message of the store's exception when the unique order-number column would hold a duplicate. */
  const UniqueViolated := "could not execute statement; unique constraint on order_number violated"

  /** IOrderRepository.existsByOrderNumber: some stored row has order number `n`.
      Nothing in the datasource calls it. */
  function ExistsByOrderNumber(t: Table<Order>, n: Option<string>, f: Faults): (a: Attempt<bool>)
    ensures a.Thrown? <==> ExistsRowByKey in f
    ensures a.Done? ==> (a.value <==> exists k :: k in t.rows && t.rows[k].orderNumber == n)
  {
    if ExistsRowByKey in f then Thrown(f[ExistsRowByKey])
    else Done(exists k :: k in t.rows && t.rows[k].orderNumber == n)
  }

  /** JpaRepository.save on an order: a stored id is merged onto its row, any other
      gets the next identity value; a null in a not-null column, or an order number
      another row already holds, is refused by the store. */
  function Save(t: Table<Order>, o: Order, f: Faults): (a: Attempt<(Order, Table<Order>)>)
    ensures a.Thrown? <==> SaveRow in f || !Storable(o) || NumberClash(t, TargetId(t, o.id), o.orderNumber)
    ensures a.Done? ==> a.value.0.id.Some? && a.value.1.rows == t.rows[a.value.0.id.value := a.value.0]
    ensures a.Done? ==> a.value.0 == o.(id := a.value.0.id)
    ensures a.Done? && o.id.Some? && o.id.value in t.rows ==> a.value.0 == o
    ensures a.Done? && Valid(t) && (o.id.None? || o.id.value !in t.rows) ==>
              a.value.0.id == Some(t.nextId) && a.value.1.nextId == t.nextId + 1
    ensures a.Done? && Valid(t) ==> Valid(a.value.1)
  {
    if SaveRow in f then Thrown(f[SaveRow])
    else if !Storable(o) then Thrown(NotNullViolated)
    else
      var k := TargetId(t, o.id);
      if NumberClash(t, k, o.orderNumber) then Thrown(UniqueViolated)
      else
        var row := o.(id := Some(k));
        Done((row, Write(t, k, row)))
  }
}
