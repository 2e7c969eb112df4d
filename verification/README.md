# Categories and orders: the datasource layer as a Dafny model

This project models the resource-management core of a small CRUD service with
two resources, categories and orders. Each resource has a **datasource**. It
sits over a keyed repository and checks that ids exist and, for categories,
that names are unique. It sorts every failure into one of three error kinds:
`NOT_FOUND`, `VALIDATION_ERROR` and `DATABASE_ERROR`. Each resource also has a
**service**, which passes every call to the datasource and runs the three
writes as transactional units. **Mappers** copy fields between the HTTP
request and response shapes and the entities.

The store is a `Table<E>`: a `map<Id, E>` of rows and an identity counter,
the value the next successful insert receives. Each repository call consults a fault oracle
(`Faults = map<Call, string>`). A call listed there throws an exception with
that message, so the catch-all `DATABASE_ERROR` path can be reached. Column
constraints are checked inside the repository's `save`:
- not-null columns, for both entities;
- the unique `order_number` column, for orders.

A violated constraint is also a thrown exception. Every operation is a pure
function. A read returns a `Result`. A write returns a `Step`: the `Result`
together with the table afterwards.

Module layout follows the program:
- `Outcomes`: error kinds, results, nullable values.
- `Decimal`: how an id is written into a message.
- `Store`: the table and the generic repository calls.
- For each entity, four modules: `*Domain` (the entity, its column constraints and its repository `save`), `*Datasource`, `*Service` and `*Mapper`.

Behaviour of the code worth knowing:

- `OrderDatasource` makes no order-number check of its own, on `save` or on
  `update`, and never calls `existsByOrderNumber`. A duplicate order number is
  refused only by the store's unique column. It therefore surfaces as
  `DATABASE_ERROR`, never as `VALIDATION_ERROR`, unlike a duplicate category
  name (`OrderDatasource.DuplicateNumberOnSaveIsDatabaseError`,
  `OrderDatasource.DuplicateNumberOnUpdateIsDatabaseError`).
- Order `update` overwrites `orderDate` and leaves `description` alone.
- `OrderDatasource.save` catches every exception as `DATABASE_ERROR`, with no
  pass-through clause.
- Because of the last point, and because `OrderMapper.toEntity` leaves the
  not-null `orderDate` and `status` null, saving a freshly mapped order request
  always fails with `DATABASE_ERROR`, however valid the request is
  (`OrderMapper.MappedRequestSaveFails`). Nothing in the code supplies those two
  values.

Modelling choices:
- Repository `save` follows JPA's persist-or-merge rule. An entity whose id is
  stored is merged onto that row. An entity with a null or unknown id is
  inserted under the next identity value.
- `findAll` lists rows in ascending id order. This is one order a store may
  use.
- The fault oracle is keyed by call kind. No operation makes the same kind of
  call twice, so this loses no generality.

## Model

| member | source | states |
|---|---|---|
| Decimal.Render | src/main/java/com/app/categories/infrastructure/CategoryDatasource.java:59 | the text written for an id is non-empty, all digits, and has no leading zero |
| Decimal.ParseRender | src/main/java/com/app/categories/infrastructure/CategoryDatasource.java:59 | the id can be read back from its text (the rendering loses nothing) |
| Decimal.ReadBackAfterPrefix | src/main/java/com/app/orders/infrastructure/OrderDatasource.java:61 | a message made of a fixed prefix and an id keeps the prefix intact, and the id can be read back from the digits after it |
| Decimal.RenderInjective | src/main/java/com/app/categories/infrastructure/CategoryDatasource.java:122 | distinct ids never produce the same text |
| Store.IdsBelow | src/main/java/com/app/categories/infrastructure/CategoryDatasource.java:44 | the ids listed are exactly the stored ids below the bound, strictly ascending |
| Store.Listing | src/main/java/com/app/orders/infrastructure/OrderDatasource.java:45 | the i-th listed row is the stored row under the i-th listed id |
| Store.ListingIsComplete | src/main/java/com/app/orders/infrastructure/OrderDatasource.java:43-49 | findAll lists every stored row once and nothing else: as many entries as rows, each one a stored row |
| Store.TargetId | src/main/java/com/app/categories/domain/Category.java:23-25 | save merges onto the row of a stored id and otherwise takes the next identity value |
| Store.Write | src/main/java/com/app/orders/domain/Order.java:24-26 | writing a row keeps every stored id below the identity counter |
| Store.Atomically | src/main/java/com/app/categories/application/CategoryService.java:32 | a transactional unit returns its body's result and on failure restores the table it started from |
| Store.FindAll | src/main/java/com/app/categories/infrastructure/CategoryDatasource.java:44 | the repository's findAll throws exactly when the oracle faults it, otherwise lists the rows |
| Store.FindById | src/main/java/com/app/categories/infrastructure/CategoryDatasource.java:58 | the repository's findById returns the row exactly when the id is stored |
| Store.ExistsById | src/main/java/com/app/categories/infrastructure/CategoryDatasource.java:121 | existsById is true exactly when the id is stored |
| Store.DeleteById | src/main/java/com/app/categories/infrastructure/CategoryDatasource.java:124 | deleteById removes exactly that id and keeps the identity counter |
| CategoryDomain.ExistsByName | src/main/java/com/app/categories/domain/ICategoryRepository.java:18 | existsByName is true exactly when some stored row has that name; a null name matches no valid row |
| CategoryDomain.Save | src/main/java/com/app/categories/domain/Category.java:23-39 | the store assigns the id, refuses a null name or description, stores the row under its id and keeps the table valid |
| CategoryDatasource.NotFoundNamesId | src/main/java/com/app/categories/infrastructure/CategoryDatasource.java:58-59 | the NOT_FOUND message is the fixed prefix followed by the id, which can be read back from it |
| CategoryDatasource.NotFoundDistinguishesIds | src/main/java/com/app/categories/infrastructure/CategoryDatasource.java:122 | NOT_FOUND errors for different ids differ |
| CategoryDatasource.FindAll | src/main/java/com/app/categories/infrastructure/CategoryDatasource.java:42-48 | every stored category, once each, or DATABASE_ERROR exactly when the store faults |
| CategoryDatasource.FindById | src/main/java/com/app/categories/infrastructure/CategoryDatasource.java:56-65 | the stored row; NOT_FOUND carrying the id exactly when the id is absent; DATABASE_ERROR exactly on a store fault; never VALIDATION_ERROR |
| CategoryDatasource.Save | src/main/java/com/app/categories/infrastructure/CategoryDatasource.java:73-84 | VALIDATION_ERROR naming the name exactly when the name is stored; never NOT_FOUND; success exactly when the name is fresh and the store accepts the row; any failure leaves the table unchanged |
| CategoryDatasource.Update | src/main/java/com/app/categories/infrastructure/CategoryDatasource.java:93-112 | findById's errors pass through unchanged; NOT_FOUND exactly for an absent id; VALIDATION_ERROR exactly for a changed name that is already stored; on a valid table, success exactly when the row exists, the name is kept or free, the store accepts the row and nothing faults; success overwrites name and description only; failure changes nothing |
| CategoryDatasource.DeleteById | src/main/java/com/app/categories/infrastructure/CategoryDatasource.java:119-130 | NOT_FOUND carrying the id exactly when the id is absent; success removes exactly that row; failure changes nothing; never VALIDATION_ERROR |
| CategoryDatasource.SaveFreshNameAddsRow | src/main/java/com/app/categories/infrastructure/CategoryDatasource.java:75-78 | a fresh name is saved as one new row under the next id, and findById on that id returns it |
| CategoryDatasource.SaveTakenNameRejected | src/main/java/com/app/categories/infrastructure/CategoryDatasource.java:75-77 | a stored name fails with VALIDATION_ERROR and the row count is unchanged |
| CategoryDatasource.SavePreservesInvariant | src/main/java/com/app/categories/infrastructure/CategoryDatasource.java:75-78 | save keeps the table valid and keeps names unique |
| CategoryDatasource.UpdateKeepingNameNeverConflicts | src/main/java/com/app/categories/infrastructure/CategoryDatasource.java:97-98 | re-submitting the stored name never fails with VALIDATION_ERROR |
| CategoryDatasource.UpdateToTakenNameRejected | src/main/java/com/app/categories/infrastructure/CategoryDatasource.java:97-100 | renaming to another row's name fails with VALIDATION_ERROR and changes nothing |
| CategoryDatasource.UpdateReplacesNameAndDescription | src/main/java/com/app/categories/infrastructure/CategoryDatasource.java:102-106 | a successful update replaces exactly name and description of the row at the id; id, other rows and the counter are untouched |
| CategoryDatasource.UpdatePreservesInvariant | src/main/java/com/app/categories/infrastructure/CategoryDatasource.java:95-106 | update keeps the table valid and keeps names unique |
| CategoryDatasource.DeletePreservesInvariant | src/main/java/com/app/categories/infrastructure/CategoryDatasource.java:121-124 | delete keeps the table valid and keeps names unique |
| CategoryDatasource.DeleteThenFindIsNotFound | src/main/java/com/app/categories/infrastructure/CategoryDatasource.java:121-124 | after a successful delete, findById on that id fails with NOT_FOUND |
| CategoryService.FindAll | src/main/java/com/app/categories/application/CategoryService.java:22-24 | the datasource's result unchanged; its only error kind is DATABASE_ERROR |
| CategoryService.FindById | src/main/java/com/app/categories/application/CategoryService.java:27-29 | the datasource's result unchanged: the stored row, or NOT_FOUND exactly for an absent id |
| CategoryService.Save | src/main/java/com/app/categories/application/CategoryService.java:31-35 | the datasource's result unchanged; VALIDATION_ERROR exactly for a stored name; a failure leaves the table as before |
| CategoryService.Update | src/main/java/com/app/categories/application/CategoryService.java:37-41 | the datasource's result unchanged; NOT_FOUND for an absent id, VALIDATION_ERROR for a changed name already stored; a failure leaves the table as before |
| CategoryService.DeleteById | src/main/java/com/app/categories/application/CategoryService.java:43-47 | the datasource's effect and error; NOT_FOUND for an absent id; a failure leaves the table as before |
| CategoryService.WritesAreAlreadyAtomic | src/main/java/com/app/categories/application/CategoryService.java:31-47 | the transactional wrapper changes no outcome, because the datasource's writes leave no partial state |
| CategoryService.ElectronicsScenario | src/main/java/com/app/categories/infrastructure/CategoryDatasource.java:73-130 | create, duplicate create, same-name update, delete, then findById: id 1, VALIDATION_ERROR, success, success, NOT_FOUND |
| CategoryMapper.ToEntity | src/main/java/com/app/categories/infrastructure/mapper/CategoryMapper.java:21-26 | the request's name and description, no id; a validated request maps to a row the store accepts |
| CategoryMapper.ToResponse | src/main/java/com/app/categories/infrastructure/mapper/CategoryMapper.java:33-39 | id, name and description carried over unchanged |
| CategoryMapper.UpdateEntityFromRequest | src/main/java/com/app/categories/infrastructure/mapper/CategoryMapper.java:46-49 | name and description overwritten, id untouched |
| CategoryMapper.UpdateIsIdempotent | src/main/java/com/app/categories/infrastructure/mapper/CategoryMapper.java:46-49 | applying the same request twice equals applying it once |
| CategoryMapper.ResponseOfNewEntity | src/main/java/com/app/categories/infrastructure/mapper/CategoryMapper.java:21-39 | toResponse(toEntity(r)) has r's name and description and no id |
| CategoryMapper.ToEntityIsUpdateOfUnsaved | src/main/java/com/app/categories/infrastructure/mapper/CategoryMapper.java:22-24 | toEntity equals updateEntityFromRequest applied to a blank entity |
| CategoryMapper.MappedRequestSaveSucceeds | src/main/java/com/app/categories/adapters/CategoryController.java:62-68 | a valid request under a fresh name is saved as one new row, and its response carries the new id with the request's fields |
| OrderDomain.ExistsByOrderNumber | src/main/java/com/app/orders/domain/IOrderRepository.java:18 | existsByOrderNumber is true exactly when some stored row has that number |
| OrderDomain.Save | src/main/java/com/app/orders/domain/Order.java:24-82 | the store assigns the id; it refuses a null in a not-null column or a duplicate order number; it stores the row under its id and keeps the table valid |
| OrderDatasource.NotFoundNamesId | src/main/java/com/app/orders/infrastructure/OrderDatasource.java:60-61 | the NOT_FOUND message is the fixed prefix followed by the id, which can be read back from it |
| OrderDatasource.FindAll | src/main/java/com/app/orders/infrastructure/OrderDatasource.java:43-49 | every stored order, once each, or DATABASE_ERROR exactly when the store faults |
| OrderDatasource.FindById | src/main/java/com/app/orders/infrastructure/OrderDatasource.java:58-67 | the stored row; NOT_FOUND carrying the id exactly when the id is absent; DATABASE_ERROR exactly on a store fault |
| OrderDatasource.Save | src/main/java/com/app/orders/infrastructure/OrderDatasource.java:76-83 | every failure is DATABASE_ERROR; it fails exactly on a store fault, a null required column or a duplicate order number; a failure changes nothing |
| OrderDatasource.Overwrite | src/main/java/com/app/orders/infrastructure/OrderDatasource.java:98-103 | the six updatable fields come from the candidate; id, description and status stay |
| OrderDatasource.Update | src/main/java/com/app/orders/infrastructure/OrderDatasource.java:93-111 | never VALIDATION_ERROR; findById's errors pass through unchanged; NOT_FOUND exactly for an absent id; on a valid table, success exactly when the row exists, the overwritten row fills every not-null column, no other row holds the new number and nothing faults; success stores the overwritten row; a failure changes nothing |
| OrderDatasource.DeleteById | src/main/java/com/app/orders/infrastructure/OrderDatasource.java:119-130 | NOT_FOUND carrying the id exactly when the id is absent; success removes exactly that row; a failure changes nothing |
| OrderDatasource.SaveNewOrderAddsRow | src/main/java/com/app/orders/infrastructure/OrderDatasource.java:76-83 | a complete order under a fresh number is saved as one new row under the next id, and findById on that id returns it |
| OrderDatasource.DuplicateNumberOnSaveIsDatabaseError | src/main/java/com/app/orders/domain/Order.java:32 | saving under a stored order number fails with DATABASE_ERROR (the unique column), never VALIDATION_ERROR |
| OrderDatasource.DuplicateNumberOnUpdateIsDatabaseError | src/main/java/com/app/orders/infrastructure/OrderDatasource.java:93-111 | changing to another row's order number fails with DATABASE_ERROR, never VALIDATION_ERROR, and changes nothing |
| OrderDatasource.UpdateOverwritesExactly | src/main/java/com/app/orders/infrastructure/OrderDatasource.java:95-105 | success overwrites exactly orderDate, orderNumber, shippingDate, deliveryDate, orderValue and orderDetail; id, description, status, other rows and the counter are untouched |
| OrderDatasource.WritesPreserveValidity | src/main/java/com/app/orders/domain/Order.java:32-82 | save, update and delete keep the not-null columns filled and order numbers unique |
| OrderDatasource.DeleteThenFindIsNotFound | src/main/java/com/app/orders/infrastructure/OrderDatasource.java:121-124 | after a successful delete, findById on that id fails with NOT_FOUND |
| OrderService.FindAll | src/main/java/com/app/orders/application/OrderService.java:27-29 | the datasource's result unchanged; its only error kind is DATABASE_ERROR |
| OrderService.FindById | src/main/java/com/app/orders/application/OrderService.java:32-34 | the datasource's result unchanged: the stored row, or NOT_FOUND exactly for an absent id |
| OrderService.Save | src/main/java/com/app/orders/application/OrderService.java:36-40 | the datasource's result unchanged; every error is DATABASE_ERROR; a failure leaves the table as before |
| OrderService.Update | src/main/java/com/app/orders/application/OrderService.java:42-46 | the datasource's result unchanged; NOT_FOUND exactly for an absent id; never VALIDATION_ERROR; a failure leaves the table as before |
| OrderService.DeleteById | src/main/java/com/app/orders/application/OrderService.java:48-52 | the datasource's effect and error; NOT_FOUND for an absent id; a failure leaves the table as before |
| OrderService.WritesAreAlreadyAtomic | src/main/java/com/app/orders/application/OrderService.java:36-52 | the transactional wrapper changes no outcome, because the datasource's writes leave no partial state |
| OrderService.UpdateLeavesStatus | src/main/java/com/app/orders/infrastructure/OrderDatasource.java:98-103 | a successful update leaves the stored status and description as they were |
| OrderMapper.ToEntity | src/main/java/com/app/orders/infrastructure/mapper/OrderMapper.java:23-29 | number and description copied, value taken from the total price; id, dates, detail and status left null |
| OrderMapper.ToResponse | src/main/java/com/app/orders/infrastructure/mapper/OrderMapper.java:37-45 | id, number, description, order date and status copied; total price taken from the value |
| OrderMapper.UpdateEntityFromRequest | src/main/java/com/app/orders/infrastructure/mapper/OrderMapper.java:53-57 | number, description and value overwritten; every other field untouched |
| OrderMapper.UpdateIsIdempotent | src/main/java/com/app/orders/infrastructure/mapper/OrderMapper.java:53-57 | applying the same request twice equals applying it once |
| OrderMapper.ToEntityIsUpdateOfUnsaved | src/main/java/com/app/orders/infrastructure/mapper/OrderMapper.java:24-27 | toEntity equals updateEntityFromRequest applied to a blank entity |
| OrderMapper.ResponseHidesFulfilment | src/main/java/com/app/orders/infrastructure/mapper/OrderMapper.java:38-44 | the response exposes no shipping date, delivery date or detail |
| OrderMapper.ResponseOfNewEntity | src/main/java/com/app/orders/infrastructure/mapper/OrderMapper.java:23-45 | toResponse(toEntity(r)) has r's number, description and price, and no id, date or status |
| OrderMapper.MappedRequestSaveFails | src/main/java/com/app/orders/infrastructure/mapper/OrderMapper.java:24-28 | a freshly mapped request leaves the not-null orderDate and status null, so saving it always fails with DATABASE_ERROR and changes nothing |

## Left out

- Controllers, HTTP routing and the error-kind-to-status mapping. The class that does that mapping (`BaseController`) is not part of this model. The two `MappedRequest…` lemmas compose mapper and service the way the controllers' create endpoints do.
- The HTTP update endpoints use the same managed entity twice: once in the controller's `findById` and again in the datasource's `findById`. This persistence-context aliasing is not modelled. Candidates and stored rows are values. Through that aliasing, the controller's copy of an order's `description` can still reach the store, although `OrderDatasource.update` does not copy it. The larger consequence is on categories: `CategoryController.update` edits the managed entity and passes that same entity as the candidate, so `CategoryDatasource.update` compares the stored name with itself and never calls `existsByName`. The `name` column has no unique constraint, so a rename through the HTTP update can store a duplicate name. `NamesUnique` and the lemmas that keep it therefore hold only for candidates that are separate values, as in this model.
- Concurrency: the check-then-write race on category names is not modelled. The model is sequential.
- Transaction internals. Atomicity is "a failed write leaves the table as before". Under a surrounding transaction, the update's deferred flush can raise a constraint violation after the datasource has returned. The model reports such a violation inside the datasource as `DATABASE_ERROR`.
- Identity values used up by failed inserts. With `GenerationType.IDENTITY` the INSERT runs inside `save`. An insert the database refuses (a null column, a duplicate order number) has already drawn an identity value, and identity values are not rolled back. The model leaves the counter unchanged after every failed write, so after such a failure the database's next id can be larger than `nextId`. Ids stay increasing and unique either way.
- OrderDatasource.SaveNewOrderAddsRow: the new row's id is the counter `nextId`. The database gives the same id only if no insert has failed since the last successful one; otherwise it gives a larger id.
- CategoryDatasource.SaveFreshNameAddsRow: likewise for categories, whose inserts fail only on a null column or a store fault.
- Ids are unbounded naturals and never null. The width of Java's `Long` and a null path id are not modelled. Negative path ids are not modelled either. The controllers accept any `Long`, and for a negative id `findById`, `update` and `deleteById` answer NOT_FOUND with the id written with its minus sign in the message (for example `Category no encontrado con ID: -5`). `Decimal.Render` writes only non-negative ids.
- `orderValue` is a `real`. `Double` rounding, NaN and infinities are not modelled. Dates are opaque day numbers with no date logic.
- Exception messages raised by the store (constraint violations, the null-name `NullPointerException`) are represented by fixed strings. The messages built by the datasources themselves (prefixes, ids, names) are modelled exactly.
- The repository's `save` of an unknown non-null id inserts a new row (the older Hibernate merge behaviour). Newer Hibernate versions throw instead.
- Request DTOs are modelled only as far as the mappers read them: nullable fields, and the bean-validation constraints as the `ValidRequest` predicates.
