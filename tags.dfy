/** The tag admin route: create (name and slug of at most 30 characters each, no description) and batch delete; the listing is `Taxonomy.List` over the tag table. */
module Tags {
  import opened Basics
  import opened Json
  import opened Database
  import opened Taxonomy

  /** POST: validate, refuse a taken slug, insert one row. */
  method Post(db: Tables, body: Option<Json>) returns (response: CreateResponse)
    requires db.Valid()
    modifies db`tags, db`nextTagId
    ensures db.Valid()
    ensures (db.tags, db.nextTagId, response) == Create(TagKind, old(db.tags), old(db.nextTagId), body)
    ensures response.Created? ==> response.term.id !in old(db.tags)
  {
    if body.None? {
      return CreateInternalError;
    }
    var draft := Validate(TagKind, body.value);
    if draft.None? {
      return ValidationError;
    }
    var d := draft.value;
    if SlugTaken(db.tags, d.slug) {
      return SlugExists;
    }
    var row := Term(db.nextTagId, d.name, d.slug, d.description);
    db.tags := db.tags[row.id := row];
    db.nextTagId := db.nextTagId + 1;
    response := Created(row);
  }

  /** DELETE: refuse an empty or missing id list, refuse the whole batch if
      any listed id is still linked to a post, otherwise remove the listed
      rows. */
  method Delete(db: Tables, body: Option<Json>) returns (response: DeleteResponse)
    requires db.Valid()
    modifies db`tags
    ensures db.Valid()
    ensures (db.tags, response) == DeleteTerms(TagKind, old(db.tags), db.tagLinks, body)
  {
    if body.None? || body.value == JNull {
      return DeleteInternalError;
    }
    var given := Field(body.value, TagKind.idsKey);
    if !NonEmptyArray(given) {
      return InvalidInput;
    }
    var list := IdList(given.value.items);
    if list.None? {
      return DeleteInternalError;
    }
    var ids := IdSet(list.value);
    if LinkedToAny(db.tagLinks, ids) {
      return InUse(TagKind.inUseCode);
    }
    var count := |ids * db.tags.Keys|;
    db.tags := db.tags - ids;
    response := Deleted(count);
  }
}
