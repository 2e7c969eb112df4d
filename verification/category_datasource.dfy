/** The categories datasource: existence and name-uniqueness checks over the
    repository, and the sorting of every failure into NOT_FOUND,
    VALIDATION_ERROR or DATABASE_ERROR. A HandlerException raised inside an
    operation passes through unchanged; any other exception is re-wrapped as
    DATABASE_ERROR with the operation's prefix before its message. */
module CategoryDatasource {
  import opened Outcomes
  import opened Decimal
  import opened Store
  import opened CategoryDomain

  const CategoryNotFound := "Category no encontrado con ID: "
  const ErrorSaving := "Error al guardar category: "
  const ErrorUpdating := "Error al actualizar category: "
  const ErrorDeleting := "Error al eliminar category: "
  const ErrorFinding := "Error al obtener categories: "
  const ErrorFindingById := "Error al obtener category por ID: "
  const NameInUse := "Ya existe un category con el nombre: "

  /** Message of the NullPointerException raised when a stored name is null. */
  const NullNameDereferenced :=
    "Cannot invoke \"String.equals(Object)\" because the return value of \"com.app.categories.domain.Category.getName()\" is null"

  /** The NOT_FOUND error for `id`, its message ending in the id's decimal text. */
  function NotFoundError(id: Id): Error {
    Error(NotFound, CategoryNotFound + Render(id))
  }

  /** The NOT_FOUND message names the id it was raised for, and the id can be read back from it. */
  lemma NotFoundNamesId(id: Id)
    ensures NotFoundError(id).kind == NotFound
    ensures var m := NotFoundError(id).message;
            && |CategoryNotFound| < |m|
            && m[..|CategoryNotFound|] == CategoryNotFound
            && AllDigits(m[|CategoryNotFound|..])
            && Parse(m[|CategoryNotFound|..]) == id
  {
    ReadBackAfterPrefix(CategoryNotFound, id);
  }

  /** Two NOT_FOUND errors are equal only when raised for the same id. */
  lemma NotFoundDistinguishesIds(a: Id, b: Id)
    requires NotFoundError(a) == NotFoundError(b)
    ensures a == b
  {
    NotFoundNamesId(a);
    NotFoundNamesId(b);
  }

  /** CategoryDatasource.findAll: every stored category, or DATABASE_ERROR. */
  function FindAll(t: Table<Category>, f: Faults): (r: Result<seq<Category>>)
    ensures r.Ok? <==> FindAllRows !in f
    ensures r.Err? ==> r.error == Wrapped(ErrorFinding, f[FindAllRows])
    ensures r.Ok? && Bounded(t) ==> |r.value| == |t.rows| && forall x :: x in r.value <==> x in t.rows.Values
  {
    match Store.FindAll(t, f)
    case Thrown(m) => Err(Wrapped(ErrorFinding, m))
    case Done(rows) =>
      ListingIsComplete(t); Ok(rows)
  }

  /** CategoryDatasource.findById: the row at `id`, NOT_FOUND naming the id, or DATABASE_ERROR. */
  function FindById(t: Table<Category>, id: Id, f: Faults): (r: Result<Category>)
    ensures r.Ok? <==> FindRowById !in f && id in t.rows
    ensures r.Ok? ==> r.value == t.rows[id]
    ensures r.Fails(NotFound) <==> FindRowById !in f && id !in t.rows
    ensures r.Fails(NotFound) ==> r.error == NotFoundError(id)
    ensures r.Fails(DatabaseError) <==> FindRowById in f
    ensures r.Fails(DatabaseError) ==> r.error == Wrapped(ErrorFindingById, f[FindRowById])
    ensures !r.Fails(ValidationError)
  {
    match Store.FindById(t, id, f)
    case Thrown(m) => Err(Wrapped(ErrorFindingById, m))
    case Done(None) => Err(NotFoundError(id))
    case Done(Some(c)) => Ok(c)
  }

  /** CategoryDatasource.save: VALIDATION_ERROR when the name is already stored,
      otherwise the repository's save; every failure leaves the table as it was. */
  function Save(t: Table<Category>, c: Category, f: Faults): (s: Step<Category, Category>)
    ensures s.result.Err? ==> s.after == t
    ensures !s.result.Fails(NotFound)
    ensures s.result.Fails(ValidationError) <==> ExistsRowByKey !in f && NameTaken(t, c.name)
    ensures s.result.Fails(ValidationError) ==> s.result.error.message == NameInUse + Show(c.name)
    ensures s.result.Ok? <==> ExistsRowByKey !in f && !NameTaken(t, c.name) && SaveRow !in f && Storable(c)
    ensures s.result.Fails(DatabaseError) ==> exists cause :: s.result.error == Wrapped(ErrorSaving, cause)
    ensures s.result.Ok? ==>
              s.result.value.id.Some? && s.after.rows == t.rows[s.result.value.id.value := s.result.value]
    ensures s.result.Ok? ==> s.result.value.name == c.name && s.result.value.description == c.description
  {
    match ExistsByName(t, c.name, f)
    case Thrown(m) => Step(Err(Wrapped(ErrorSaving, m)), t)
    case Done(true) => Step(Err(Error(ValidationError, NameInUse + Show(c.name))), t)
    case Done(false) =>
      match CategoryDomain.Save(t, c, f)
      case Thrown(m) => Step(Err(Wrapped(ErrorSaving, m)), t)
      case Done((row, t')) => Step(Ok(row), t')
  }

  /** CategoryDatasource.update: load the row (its errors pass through as they are),
      refuse a change of name to one already stored, then overwrite name and
      description and save. */
  function Update(t: Table<Category>, c: Category, id: Id, f: Faults): (s: Step<Category, Category>)
    ensures s.result.Err? ==> s.after == t
    ensures FindById(t, id, f).Err? ==> s.result == FindById(t, id, f)
    ensures s.result.Fails(NotFound) <==> FindRowById !in f && id !in t.rows
    ensures s.result.Fails(NotFound) ==> s.result.error == NotFoundError(id)
    ensures s.result.Fails(ValidationError) <==>
              && FindRowById !in f && id in t.rows && t.rows[id].name.Some?
              && t.rows[id].name != c.name && ExistsRowByKey !in f && NameTaken(t, c.name)
    ensures s.result.Fails(ValidationError) ==> s.result.error.message == NameInUse + Show(c.name)
    ensures Valid(t) ==>
              (s.result.Ok? <==>
                 && FindRowById !in f && id in t.rows
                 && (t.rows[id].name == c.name || (ExistsRowByKey !in f && !NameTaken(t, c.name)))
                 && SaveRow !in f && Storable(c))
    ensures s.result.Ok? ==>
              && id in t.rows
              && s.result.value == t.rows[id].(id := s.result.value.id, name := c.name, description := c.description)
              && s.result.value.id.Some?
              && s.after.rows == t.rows[s.result.value.id.value := s.result.value]
  {
    match FindById(t, id, f)
    case Err(e) => Step(Err(e), t)
    case Ok(existing) =>
      if existing.name.None? then Step(Err(Wrapped(ErrorUpdating, NullNameDereferenced)), t)
      else
        var taken := if existing.name == c.name then Done(false) else ExistsByName(t, c.name, f);
        match taken
        case Thrown(m) => Step(Err(Wrapped(ErrorUpdating, m)), t)
        case Done(true) => Step(Err(Error(ValidationError, NameInUse + Show(c.name))), t)
        case Done(false) =>
          var changed := existing.(name := c.name, description := c.description);
          match CategoryDomain.Save(t, changed, f)
          case Thrown(m) => Step(Err(Wrapped(ErrorUpdating, m)), t)
          case Done((row, t')) => Step(Ok(row), t')
  }

  /** CategoryDatasource.deleteById: NOT_FOUND for an absent id, otherwise the row is removed. */
  function DeleteById(t: Table<Category>, id: Id, f: Faults): (s: Step<(), Category>)
    ensures s.result.Err? ==> s.after == t
    ensures !s.result.Fails(ValidationError)
    ensures s.result.Fails(NotFound) <==> ExistsRowById !in f && id !in t.rows
    ensures s.result.Fails(NotFound) ==> s.result.error == NotFoundError(id)
    ensures s.result.Ok? <==> ExistsRowById !in f && id in t.rows && DeleteRowById !in f
    ensures s.result.Ok? ==> s.after.rows == t.rows - {id} && s.after.nextId == t.nextId
  {
    match ExistsById(t, id, f)
    case Thrown(m) => Step(Err(Wrapped(ErrorDeleting, m)), t)
    case Done(false) => Step(Err(NotFoundError(id)), t)
    case Done(true) =>
      match Store.DeleteById(t, id, f)
      case Thrown(m) => Step(Err(Wrapped(ErrorDeleting, m)), t)
      case Done(t') => Step(Ok(()), t')
  }

  /** A category with a name not yet stored is added as one new row under the
      next identity value, and findById on that id returns it. */
  lemma SaveFreshNameAddsRow(t: Table<Category>, c: Category, f: Faults, g: Faults)
    requires Valid(t) && c.id.None? && Storable(c)
    requires ExistsRowByKey !in f && SaveRow !in f && FindRowById !in g
    requires !NameTaken(t, c.name)
    ensures var s := Save(t, c, f);
            && s.result == Ok(c.(id := Some(t.nextId)))
            && t.nextId !in t.rows
            && s.after.rows == t.rows[t.nextId := s.result.value]
            && |s.after.rows| == |t.rows| + 1
            && FindById(s.after, t.nextId, g) == s.result
  {
  }

  /** A save refused for a name already stored changes nothing, row count included. */
  lemma SaveTakenNameRejected(t: Table<Category>, c: Category, f: Faults)
    requires ExistsRowByKey !in f && NameTaken(t, c.name)
    ensures var s := Save(t, c, f);
            && s.result == Err(Error(ValidationError, NameInUse + Show(c.name)))
            && s.after == t && |s.after.rows| == |t.rows|
  {
  }

  /** Saving keeps the store's constraints and the datasource's own: no two rows share a name. */
  lemma SavePreservesInvariant(t: Table<Category>, c: Category, f: Faults)
    requires Valid(t) && NamesUnique(t)
    ensures Valid(Save(t, c, f).after) && NamesUnique(Save(t, c, f).after)
  {
  }

  /** An update that re-submits the stored name never meets VALIDATION_ERROR. */
  lemma UpdateKeepingNameNeverConflicts(t: Table<Category>, c: Category, id: Id, f: Faults)
    requires id in t.rows && c.name == t.rows[id].name
    ensures !Update(t, c, id, f).result.Fails(ValidationError)
  {
  }

  /** Renaming a category to a name another row holds fails with VALIDATION_ERROR. */
  lemma UpdateToTakenNameRejected(t: Table<Category>, c: Category, id: Id, other: Id, f: Faults)
    requires Valid(t) && id in t.rows && other in t.rows && other != id && NamesUnique(t)
    requires c.name == t.rows[other].name
    requires FindRowById !in f && ExistsRowByKey !in f
    ensures Update(t, c, id, f).result == Err(Error(ValidationError, NameInUse + Show(c.name)))
    ensures Update(t, c, id, f).after == t
  {
  }

  /** A successful update replaces exactly name and description of the row at
      `id`; its id, every other row and the identity counter are untouched. */
  lemma UpdateReplacesNameAndDescription(t: Table<Category>, c: Category, id: Id, f: Faults)
    requires Valid(t)
    requires Update(t, c, id, f).result.Ok?
    ensures var s := Update(t, c, id, f);
            && id in t.rows
            && s.result.value == Category(Some(id), c.name, c.description)
            && s.result.value == t.rows[id].(name := c.name, description := c.description)
            && s.after == Table(t.rows[id := s.result.value], t.nextId)
            && s.after.rows.Keys == t.rows.Keys
            && (forall k :: k in t.rows && k != id ==> s.after.rows[k] == t.rows[k])
  {
  }

  /** Updating keeps the store's constraints and the uniqueness of names. */
  lemma UpdatePreservesInvariant(t: Table<Category>, c: Category, id: Id, f: Faults)
    requires Valid(t) && NamesUnique(t)
    ensures Valid(Update(t, c, id, f).after) && NamesUnique(Update(t, c, id, f).after)
  {
  }

  /** Deleting keeps the store's constraints and the uniqueness of names. */
  lemma DeletePreservesInvariant(t: Table<Category>, id: Id, f: Faults)
    requires Valid(t) && NamesUnique(t)
    ensures Valid(DeleteById(t, id, f).after) && NamesUnique(DeleteById(t, id, f).after)
  {
  }

  /** After a successful delete, findById on the same id fails with NOT_FOUND. */
  lemma DeleteThenFindIsNotFound(t: Table<Category>, id: Id, f: Faults, g: Faults)
    requires DeleteById(t, id, f).result.Ok? && FindRowById !in g
    ensures FindById(DeleteById(t, id, f).after, id, g) == Err(NotFoundError(id))
  {
  }
}
