/** The Category entity, the constraints its table's columns impose, and
    the repository calls specific to categories (existsByName, and save
    with the entity's own column checks). */
module CategoryDomain {
  import opened Outcomes
  import opened Store

  /** A category row: id (assigned by the identity column), name, description. */
  datatype Category = Category(id: Option<Id>, name: Option<string>, description: Option<string>)

  /** `new Category()`: every field null. */
  const Unsaved: Category := Category(None, None, None)

  /** The not-null columns: name and description. Name carries no unique constraint. */
  predicate Storable(c: Category) {
    c.name.Some? && c.description.Some?
  }

  /** What the store guarantees of the categories table between operations:
      ids were handed out by the identity column, each row carries its own id,
      and no not-null column holds null. */
  predicate Valid(t: Table<Category>) {
    && Bounded(t)
    && forall k :: k in t.rows ==> t.rows[k].id == Some(k) && Storable(t.rows[k])
  }

  /** Some stored row has name `n`. */
  predicate NameTaken(t: Table<Category>, n: Option<string>) {
    exists k :: k in t.rows && t.rows[k].name == n
  }

  /** The invariant the datasource maintains on its own: no two rows share a name. */
  predicate NamesUnique(t: Table<Category>) {
    forall j, k :: j in t.rows && k in t.rows && j != k ==> t.rows[j].name != t.rows[k].name
  }

  /** ICategoryRepository.existsByName: a derived query on name; a null name matches no stored row. */
  function ExistsByName(t: Table<Category>, n: Option<string>, f: Faults): (a: Attempt<bool>)
    ensures a.Thrown? <==> ExistsRowByKey in f
    ensures a.Done? ==> (a.value <==> exists k :: k in t.rows && t.rows[k].name == n)
    ensures Valid(t) && n.None? ==> a.Done? ==> !a.value
  {
    if ExistsRowByKey in f then Thrown(f[ExistsRowByKey]) else Done(NameTaken(t, n))
  }

  /** JpaRepository.save on a category: a stored id is merged onto its row, any
      other gets the next identity value; a null in a not-null column is refused. */
  function Save(t: Table<Category>, c: Category, f: Faults): (a: Attempt<(Category, Table<Category>)>)
    ensures a.Thrown? <==> SaveRow in f || !Storable(c)
    ensures a.Done? ==> a.value.0.id.Some? && a.value.1.rows == t.rows[a.value.0.id.value := a.value.0]
    ensures a.Done? ==> a.value.0.name == c.name && a.value.0.description == c.description
    ensures a.Done? && c.id.Some? && c.id.value in t.rows ==> a.value.0 == c
    ensures a.Done? && Valid(t) && (c.id.None? || c.id.value !in t.rows) ==>
              a.value.0.id == Some(t.nextId) && a.value.1.nextId == t.nextId + 1
    ensures a.Done? && Valid(t) ==> Valid(a.value.1)
  {
    if SaveRow in f then Thrown(f[SaveRow])
    else if !Storable(c) then Thrown(NotNullViolated)
    else
      var k := TargetId(t, c.id);
      var row := c.(id := Some(k));
      Done((row, Write(t, k, row)))
  }
}
