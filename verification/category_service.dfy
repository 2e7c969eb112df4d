/** The categories service: each operation hands its call to the datasource,
    and the three writes run as transactional units, so a failed write leaves
    the table exactly as it was. */
module CategoryService {
  import opened Outcomes
  import opened Store
  import opened CategoryDomain
  import D = CategoryDatasource

  /** CategoryService.findAll: the datasource's list, or its DATABASE_ERROR. */
  function FindAll(t: Table<Category>, f: Faults): (r: Result<seq<Category>>)
    ensures r == D.FindAll(t, f)
    ensures r.Err? ==> r.error.kind == DatabaseError
    ensures r.Ok? && Bounded(t) ==> forall x :: x in r.value <==> x in t.rows.Values
  {
    D.FindAll(t, f)
  }

  /** CategoryService.findById: the stored row, or NOT_FOUND when the id is absent. */
  function FindById(t: Table<Category>, id: Id, f: Faults): (r: Result<Category>)
    ensures r == D.FindById(t, id, f)
    ensures r.Fails(NotFound) <==> FindRowById !in f && id !in t.rows
    ensures r.Ok? ==> id in t.rows && r.value == t.rows[id]
  {
    D.FindById(t, id, f)
  }

  /** CategoryService.save (transactional): the datasource's result; VALIDATION_ERROR
      exactly when the name is already stored; nothing changes on failure. */
  function Save(t: Table<Category>, c: Category, f: Faults): (s: Step<Category, Category>)
    ensures s.result == D.Save(t, c, f).result
    ensures s.result.Err? ==> s.after == t
    ensures s.result.Ok? ==> s.after == D.Save(t, c, f).after
    ensures s.result.Fails(ValidationError) <==> ExistsRowByKey !in f && NameTaken(t, c.name)
  {
    Atomically(t, D.Save(t, c, f))
  }

  /** CategoryService.update (transactional): the datasource's result; NOT_FOUND for an
      absent id, VALIDATION_ERROR for a new name already stored; nothing changes on failure. */
  function Update(t: Table<Category>, c: Category, id: Id, f: Faults): (s: Step<Category, Category>)
    ensures s.result == D.Update(t, c, id, f).result
    ensures s.result.Err? ==> s.after == t
    ensures s.result.Ok? ==> s.after == D.Update(t, c, id, f).after
    ensures s.result.Fails(NotFound) <==> FindRowById !in f && id !in t.rows
    ensures Valid(t) ==>
              (s.result.Fails(ValidationError) <==>
                 && FindRowById !in f && id in t.rows && t.rows[id].name != c.name
                 && ExistsRowByKey !in f && NameTaken(t, c.name))
  {
    Atomically(t, D.Update(t, c, id, f))
  }

  /** CategoryService.deleteById (transactional): the datasource's effect and error;
      NOT_FOUND for an absent id; nothing changes on failure. */
  function DeleteById(t: Table<Category>, id: Id, f: Faults): (s: Step<(), Category>)
    ensures s.result == D.DeleteById(t, id, f).result
    ensures s.result.Err? ==> s.after == t
    ensures s.result.Ok? ==> s.after == D.DeleteById(t, id, f).after
    ensures s.result.Fails(NotFound) <==> ExistsRowById !in f && id !in t.rows
  {
    Atomically(t, D.DeleteById(t, id, f))
  }

  /** The datasource's writes already leave no partial state behind, so the
      transactional wrapper changes none of their outcomes. */
  lemma WritesAreAlreadyAtomic(t: Table<Category>, c: Category, id: Id, f: Faults)
    ensures Save(t, c, f) == D.Save(t, c, f)
    ensures Update(t, c, id, f) == D.Update(t, c, id, f)
    ensures DeleteById(t, id, f) == D.DeleteById(t, id, f)
  {
  }

  /** A run through the four writes from an empty table: "Electronics" is created
      with id 1; a second "Electronics" is refused with VALIDATION_ERROR and changes
      nothing; re-submitting the name with a new description succeeds; deleting id 1
      succeeds; findById on id 1 is then NOT_FOUND. */
  lemma ElectronicsScenario()
    ensures var t0 := Empty<Category>();
            var s1 := Save(t0, Category(None, Some("Electronics"), Some("Devices")), map[]);
            var s2 := Save(s1.after, Category(None, Some("Electronics"), Some("Other")), map[]);
            var s3 := Update(s2.after, Category(None, Some("Electronics"), Some("Updated")), 1, map[]);
            var s4 := DeleteById(s3.after, 1, map[]);
            && s1.result == Ok(Category(Some(1), Some("Electronics"), Some("Devices")))
            && s2.result.Fails(ValidationError) && s2.after == s1.after
            && s3.result == Ok(Category(Some(1), Some("Electronics"), Some("Updated")))
            && s4.result.Ok?
            && FindById(s4.after, 1, map[]) == Err(D.NotFoundError(1))
  {
  }
}
