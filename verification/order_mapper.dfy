/** The orders mapper: field copies between the request/response shapes of the
    HTTP interface and the Order entity. The request's total price is the
    entity's order value. */
module OrderMapper {
  import opened Outcomes
  import opened Store
  import opened OrderDomain
  import OrderService
  import OrderDatasource

  /** The create/update request body. Its fields may be null until validated. */
  datatype OrderRequest = OrderRequest(orderNumber: Option<string>, description: Option<string>, totalPrice: Option<real>)

  /** The response body: shipping date, delivery date and detail are not part of it. */
  datatype OrderResponse = OrderResponse(
    id: Option<Id>,
    orderNumber: Option<string>,
    description: Option<string>,
    totalPrice: Option<real>,
    orderDate: Option<Date>,
    status: Option<string>)

  /** The constraints the controller validates before the mapper runs:
      non-blank number and description, a total price present and positive. */
  predicate ValidRequest(r: OrderRequest) {
    NotBlank(r.orderNumber) && NotBlank(r.description) && r.totalPrice.Some? && r.totalPrice.value > 0.0
  }

  /** OrderMapper.toEntity: number, description and value (from the total price)
      taken from the request; every other field left null. */
  function ToEntity(r: OrderRequest): (o: Order)
    ensures o.orderNumber == r.orderNumber && o.description == r.description && o.orderValue == r.totalPrice
    ensures o.id.None? && o.orderDate.None? && o.shippingDate.None? && o.deliveryDate.None?
    ensures o.orderDetail.None? && o.status.None?
  {
    Unsaved.(orderNumber := r.orderNumber, description := r.description, orderValue := r.totalPrice)
  }

  /** OrderMapper.toResponse: id, number, description, order date and status carried
      over, the order value reported as the total price. */
  function ToResponse(o: Order): (p: OrderResponse)
    ensures p.id == o.id && p.orderNumber == o.orderNumber && p.description == o.description
    ensures p.totalPrice == o.orderValue && p.orderDate == o.orderDate && p.status == o.status
  {
    OrderResponse(o.id, o.orderNumber, o.description, o.orderValue, o.orderDate, o.status)
  }

  /** OrderMapper.updateEntityFromRequest: overwrites number, description and value;
      every other field is untouched. */
  function UpdateEntityFromRequest(o: Order, r: OrderRequest): (o': Order)
    ensures o'.orderNumber == r.orderNumber && o'.description == r.description && o'.orderValue == r.totalPrice
    ensures o'.id == o.id && o'.orderDate == o.orderDate && o'.shippingDate == o.shippingDate
    ensures o'.deliveryDate == o.deliveryDate && o'.orderDetail == o.orderDetail && o'.status == o.status
  {
    o.(orderNumber := r.orderNumber, description := r.description, orderValue := r.totalPrice)
  }

  /** Applying the same request twice is the same as applying it once. */
  lemma UpdateIsIdempotent(o: Order, r: OrderRequest)
    ensures UpdateEntityFromRequest(UpdateEntityFromRequest(o, r), r) == UpdateEntityFromRequest(o, r)
  {
  }

  /** toEntity is updateEntityFromRequest applied to a blank entity. */
  lemma ToEntityIsUpdateOfUnsaved(r: OrderRequest)
    ensures ToEntity(r) == UpdateEntityFromRequest(Unsaved, r)
  {
  }

  /** The response reveals nothing of shipping date, delivery date or detail:
      orders that differ only there map to the same response. */
  lemma ResponseHidesFulfilment(o: Order, shipped: Option<Date>, delivered: Option<Date>, detail: Option<string>)
    ensures ToResponse(o.(shippingDate := shipped, deliveryDate := delivered, orderDetail := detail)) == ToResponse(o)
  {
  }

  /** Mapping a request to an entity and straight back gives the request's number,
      description and price, with no id, date or status. */
  lemma ResponseOfNewEntity(r: OrderRequest)
    ensures ToResponse(ToEntity(r)) == OrderResponse(None, r.orderNumber, r.description, r.totalPrice, None, None)
  {
  }

  /** A consequence of the code as written: toEntity leaves the not-null order date
      and status null, so saving a freshly mapped request, however valid, is refused
      by the store and fails with DATABASE_ERROR, leaving the table unchanged. */
  lemma MappedRequestSaveFails(t: Table<Order>, r: OrderRequest, f: Faults)
    ensures !Storable(ToEntity(r))
    ensures OrderService.Save(t, ToEntity(r), f).result.Fails(DatabaseError)
    ensures OrderService.Save(t, ToEntity(r), f).after == t
    ensures SaveRow !in f ==>
              OrderService.Save(t, ToEntity(r), f).result
              == Err(Wrapped(OrderDatasource.ErrorSaving, NotNullViolated))
  {
  }
}
