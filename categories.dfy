/** The category admin route: create (a name and a slug of at most 50 characters each, and an optional description of any length) and batch delete; the listing is `Taxonomy.List` over the category table. */
module Categories {
  import opened Basics
  import opened Json
  import opened Database
  import opened Taxonomy

  /** POST: validate, refuse a taken slug, insert one row. */
  method Post(db: Tables, body: Option<Json>) returns (response: CreateResponse)
    requires db.Valid()
    modifies db`categories, db`nextCategoryId
    ensures db.Valid()
    ensures (db.categories, db.nextCategoryId, response) == Create(CategoryKind, old(db.categories), old(db.nextCategoryId), body)
    ensures response.Created? ==> response.term.id !in old(db.categories)
  {
    if body.None? {
      return CreateInternalError;
    }
    var draft := Validate(CategoryKind, body.value);
    if draft.None? {
      return ValidationError;
    }
    var d := draft.value;
    if SlugTaken(db.categories, d.slug) {
      return SlugExists;
    }
    var row := Term(db.nextCategoryId, d.name, d.slug, d.description);
    db.categories := db.categories[row.id := row];
    db.nextCategoryId := db.nextCategoryId + 1;
    response := Created(row);
  }

  /** DELETE: refuse an empty or missing id list, refuse the whole batch if
      any listed id is still linked to a post, otherwise remove the listed
      rows. */
  method Delete(db: Tables, body: Option<Json>) returns (response: DeleteResponse)
    requires db.Valid()
    modifies db`categories
    ensures db.Valid()
    ensures (db.categories, response) == DeleteTerms(CategoryKind, old(db.categories), db.categoryLinks, body)
  {
    if body.None? || body.value == JNull {
      return DeleteInternalError;
    }
    var given := Field(body.value, CategoryKind.idsKey);
    if !NonEmptyArray(given) {
      return InvalidInput;
    }
    var list := IdList(given.value.items);
    if list.None? {
      return DeleteInternalError;
    }
    var ids := IdSet(list.value);
    if LinkedToAny(db.categoryLinks, ids) {
      return InUse(CategoryKind.inUseCode);
    }
    var count := |ids * db.categories.Keys|;
    db.categories := db.categories - ids;
    response := Deleted(count);
  }
}
