/** The categories mapper: field copies between the request/response shapes
    of the HTTP interface and the Category entity. */
module CategoryMapper {
  import opened Outcomes
  import opened Store
  import opened CategoryDomain
  import CategoryService

  /** The create/update request body. Its fields may be null until validated. */
  datatype CategoryRequest = CategoryRequest(name: Option<string>, description: Option<string>)

  /** The response body. */
  datatype CategoryResponse = CategoryResponse(id: Option<Id>, name: Option<string>, description: Option<string>)

  /** The constraints the controller validates before the mapper runs. */
  predicate ValidRequest(r: CategoryRequest) {
    NotBlank(r.name) && NotBlank(r.description)
  }

  /** CategoryMapper.toEntity: a new entity with the request's name and description and no id. */
  function ToEntity(r: CategoryRequest): (c: Category)
    ensures c.id.None?
    ensures c.name == r.name && c.description == r.description
    ensures ValidRequest(r) ==> Storable(c)
  {
    Unsaved.(name := r.name, description := r.description)
  }

  /** CategoryMapper.toResponse: id, name and description carried over unchanged. */
  function ToResponse(c: Category): (p: CategoryResponse)
    ensures p.id == c.id && p.name == c.name && p.description == c.description
  {
    CategoryResponse(c.id, c.name, c.description)
  }

  /** CategoryMapper.updateEntityFromRequest: overwrites name and description, keeps the id. */
  function UpdateEntityFromRequest(c: Category, r: CategoryRequest): (c': Category)
    ensures c'.id == c.id
    ensures c'.name == r.name && c'.description == r.description
    ensures ValidRequest(r) ==> Storable(c')
  {
    c.(name := r.name, description := r.description)
  }

  /** Applying the same request twice is the same as applying it once. */
  lemma UpdateIsIdempotent(c: Category, r: CategoryRequest)
    ensures UpdateEntityFromRequest(UpdateEntityFromRequest(c, r), r) == UpdateEntityFromRequest(c, r)
  {
  }

  /** Mapping a request to an entity and straight back gives the request's fields and no id. */
  lemma ResponseOfNewEntity(r: CategoryRequest)
    ensures ToResponse(ToEntity(r)) == CategoryResponse(None, r.name, r.description)
  {
  }

  /** toEntity is updateEntityFromRequest applied to a blank entity. */
  lemma ToEntityIsUpdateOfUnsaved(r: CategoryRequest)
    ensures ToEntity(r) == UpdateEntityFromRequest(Unsaved, r)
  {
  }

  /** A valid request under a name not yet stored is saved as a new row, and its
      response carries the assigned id and the request's name and description. */
  lemma MappedRequestSaveSucceeds(t: Table<Category>, r: CategoryRequest, f: Faults)
    requires Valid(t) && ValidRequest(r)
    requires ExistsRowByKey !in f && SaveRow !in f && !NameTaken(t, r.name)
    ensures var s := CategoryService.Save(t, ToEntity(r), f);
            && s.result.Ok?
            && ToResponse(s.result.value) == CategoryResponse(Some(t.nextId), r.name, r.description)
            && |s.after.rows| == |t.rows| + 1
  {
  }
}
