/** What the category and the tag admin routes share: the schema, the
    create guard on slugs, the all-or-nothing batch delete, and the
    listing with its count of published posts. The two routes differ only
    in the constants of a `Kind`. */
module Taxonomy {
  import opened Basics
  import opened Json
  import opened Ordering
  import opened Database

  /** The constants that tell the two routes apart. */
  datatype Kind = Kind(maxLength: nat, idsKey: string, hasDescription: bool, inUseCode: string)

  const CategoryKind: Kind := Kind(50, "categoryIds", true, "CATEGORY_IN_USE")

  const TagKind: Kind := Kind(30, "tagIds", false, "TAG_IN_USE")

  // ---------------------------------------------------------------------------
  // Schema
  // ---------------------------------------------------------------------------

  /** What the schema accepts: an object whose `name` and `slug` are strings
      of 1..maxLength characters and, for categories, whose `description`
      is a string when present. Other fields are ignored. */
  predicate Accepts(kind: Kind, body: Json)
  {
    && body.JObject?
    && "name" in body.fields && body.fields["name"].JString?
    && 1 <= |body.fields["name"].s| <= kind.maxLength
    && "slug" in body.fields && body.fields["slug"].JString?
    && 1 <= |body.fields["slug"].s| <= kind.maxLength
    && (kind.hasDescription && "description" in body.fields ==> body.fields["description"].JString?)
  }

  datatype Draft = Draft(name: string, slug: string, description: Option<string>)

  /** `schema.safeParse(body)`. */
  function Validate(kind: Kind, body: Json): (r: Option<Draft>)
    ensures r.Some? <==> Accepts(kind, body)
    ensures r.Some? ==>
      && r.value.name == body.fields["name"].s && r.value.slug == body.fields["slug"].s
      && (r.value.description.Some? <==> kind.hasDescription && "description" in body.fields)
      && (r.value.description.Some? ==> r.value.description.value == body.fields["description"].s)
  {
    var name := Field(body, "name");
    var slug := Field(body, "slug");
    var description := if kind.hasDescription then Field(body, "description") else None;
    if body.JObject?
      && name.Some? && name.value.JString? && 1 <= |name.value.s| <= kind.maxLength
      && slug.Some? && slug.value.JString? && 1 <= |slug.value.s| <= kind.maxLength
    then
      if description.None? then Some(Draft(name.value.s, slug.value.s, None))
      else if description.value.JString? then Some(Draft(name.value.s, slug.value.s, Some(description.value.s)))
      else None
    else None
  }

  // ---------------------------------------------------------------------------
  // Create
  // ---------------------------------------------------------------------------

  datatype CreateResponse = Created(term: Term) | ValidationError | SlugExists | CreateInternalError

  /** `findUnique({ where: { slug } })` over the rows: the row with that
      slug, if there is one. */
  function FindBySlug(rows: seq<Term>, slug: string): (r: Option<Term>)
    ensures r.Some? ==> r.value in rows && r.value.slug == slug
    ensures r.None? <==> forall t :: t in rows ==> t.slug != slug
  {
    if rows == [] then None
    else if rows[0].slug == slug then Some(rows[0])
    else
      var r := FindBySlug(rows[1..], slug);
      assert forall t :: t in rows <==> t == rows[0] || t in rows[1..];
      r
  }

  /** The slug check of the create route: `findUnique` finds a row. */
  predicate SlugTaken(table: map<int, Term>, slug: string)
    ensures SlugTaken(table, slug) <==> exists id :: id in table && table[id].slug == slug
  {
    FindBySlug(Rows(table), slug).Some?
  }

  /** The effect of one POST: the new table, the next id and the response. */
  function Create(kind: Kind, table: map<int, Term>, nextId: int, body: Option<Json>): (r: (map<int, Term>, int, CreateResponse))
    ensures !r.2.Created? ==> r.0 == table && r.1 == nextId
    ensures r.2 == CreateInternalError <==> body.None?
    ensures r.2 == ValidationError <==> body.Some? && !Accepts(kind, body.value)
    ensures r.2 == SlugExists <==>
      body.Some? && Accepts(kind, body.value) && SlugTaken(table, body.value.fields["slug"].s)
    ensures r.2.Created? ==>
      && body.Some? && Accepts(kind, body.value) && !SlugTaken(table, body.value.fields["slug"].s)
      && var d := Validate(kind, body.value).value;
         && r.2.term == Term(nextId, d.name, d.slug, d.description)
         && r.0 == table[nextId := r.2.term] && r.1 == nextId + 1
  {
    if body.None? then (table, nextId, CreateInternalError)
    else
      match Validate(kind, body.value)
      case None => (table, nextId, ValidationError)
      case Some(d) =>
        if SlugTaken(table, d.slug) then (table, nextId, SlugExists)
        else
          var t := Term(nextId, d.name, d.slug, d.description);
          (table[nextId := t], nextId + 1, Created(t))
  }

  /** Slugs stay unique: creating only ever adds a row whose slug no other
      row has. */
  lemma CreateKeepsSlugsUnique(kind: Kind, table: map<int, Term>, nextId: int, body: Option<Json>)
    requires forall a, b :: a in table && b in table && table[a].slug == table[b].slug ==> a == b
    requires nextId !in table
    ensures var t := Create(kind, table, nextId, body).0;
      forall a, b :: a in t && b in t && t[a].slug == t[b].slug ==> a == b
  {
  }

  // ---------------------------------------------------------------------------
  // Batch delete
  // ---------------------------------------------------------------------------

  datatype DeleteResponse = Deleted(count: nat) | InvalidInput | InUse(code: string) | DeleteInternalError

  /** Some post is linked to one of `ids` (published or not). */
  predicate LinkedToAny(links: set<(int, int)>, ids: set<int>)
  {
    exists l :: l in links && l.1 in ids
  }

  /** The effect of one DELETE on the table, given its join table. */
  function DeleteTerms(kind: Kind, table: map<int, Term>, links: set<(int, int)>, body: Option<Json>): (r: (map<int, Term>, DeleteResponse))
    ensures !r.1.Deleted? ==> r.0 == table
    ensures r.1 == InvalidInput <==>
      body.Some? && body.value != JNull && !NonEmptyArray(Field(body.value, kind.idsKey))
    ensures r.1.InUse? ==> r.1.code == kind.inUseCode
    ensures r.1.InUse? <==>
      && body.Some? && body.value != JNull && NonEmptyArray(Field(body.value, kind.idsKey))
      && IdList(Field(body.value, kind.idsKey).value.items).Some?
      && LinkedToAny(links, IdSet(IdList(Field(body.value, kind.idsKey).value.items).value))
    ensures r.1 == DeleteInternalError <==>
      body.None? || body.value == JNull
      || (NonEmptyArray(Field(body.value, kind.idsKey)) && IdList(Field(body.value, kind.idsKey).value.items).None?)
    // a well-formed batch naming no linked row is always deleted
    ensures r.1.Deleted? <==>
      && body.Some? && body.value != JNull && NonEmptyArray(Field(body.value, kind.idsKey))
      && IdList(Field(body.value, kind.idsKey).value.items).Some?
      && !LinkedToAny(links, IdSet(IdList(Field(body.value, kind.idsKey).value.items).value))
    ensures r.1.Deleted? ==>
      && body.Some? && NonEmptyArray(Field(body.value, kind.idsKey))
      && IdList(Field(body.value, kind.idsKey).value.items).Some?
      && var ids := IdSet(IdList(Field(body.value, kind.idsKey).value.items).value);
         && !LinkedToAny(links, ids)
         && r.0 == table - ids
         && r.1.count == |ids * table.Keys|
  {
    if body.None? || body.value == JNull then (table, DeleteInternalError)
    else
      var given := Field(body.value, kind.idsKey);
      if !NonEmptyArray(given) then (table, InvalidInput)
      else
        match IdList(given.value.items)
        case None => (table, DeleteInternalError)
        case Some(list) =>
          var ids := IdSet(list);
          if LinkedToAny(links, ids) then (table, InUse(kind.inUseCode))
          else (table - ids, Deleted(|ids * table.Keys|))
  }

  /** A successful delete never leaves a link pointing at a removed row,
      and the links that pointed into the table still do. */
  lemma DeleteKeepsLinksValid(kind: Kind, table: map<int, Term>, links: set<(int, int)>, body: Option<Json>)
    requires forall l :: l in links ==> l.1 in table
    ensures var r := DeleteTerms(kind, table, links, body);
      forall l :: l in links ==> l.1 in r.0
  {
  }

  // ---------------------------------------------------------------------------
  // Listing
  // ---------------------------------------------------------------------------

  /** A row with its count of published posts. */
  datatype Summary = Summary(term: Term, postCount: nat)

  /** `posts: { where: { post: { status: 'PUBLISHED' } } }` then
      `.length`: the links from published posts to `id`. */
  function PublishedLinks(links: set<(int, int)>, published: set<int>, id: int): (r: set<(int, int)>)
    ensures forall l :: l in r <==> l in links && l.1 == id && l.0 in published
  {
    set l | l in links && l.1 == id && l.0 in published
  }

  /** The published posts linked to `id`. */
  function PublishedPosts(links: set<(int, int)>, published: set<int>, id: int): (r: set<int>)
    ensures forall p :: p in r <==> (p, id) in links && p in published
  {
    set l | l in links && l.1 == id && l.0 in published :: l.0
  }

  /** Each link names one post, so the count is the number of distinct
      published posts the row is attached to. */
  lemma {:induction false} CountIsDistinctPosts(links: set<(int, int)>, published: set<int>, id: int)
    ensures |PublishedLinks(links, published, id)| == |PublishedPosts(links, published, id)|
    decreases links
  {
    var ls := PublishedLinks(links, published, id);
    if ls != {} {
      var l :| l in ls;
      var rest := links - {l};
      CountIsDistinctPosts(rest, published, id);
      assert PublishedLinks(rest, published, id) == ls - {l};
      assert PublishedPosts(rest, published, id) == PublishedPosts(links, published, id) - {l.0};
    } else {
      forall p ensures p !in PublishedPosts(links, published, id) {
        assert (p, id) !in ls;
      }
      assert PublishedPosts(links, published, id) == {};
    }
  }

  /** Code-point lexicographic order on names. */
  predicate LexLeq(a: string, b: string)
  {
    a == [] || (b != [] && (a[0] < b[0] || (a[0] == b[0] && LexLeq(a[1..], b[1..]))))
  }

  lemma {:induction false} LexTotal(a: string, b: string)
    ensures LexLeq(a, b) || LexLeq(b, a)
  {
    if a != [] && b != [] && a[0] == b[0] {
      LexTotal(a[1..], b[1..]);
    }
  }

  lemma {:induction false} LexTransitive(a: string, b: string, c: string)
    requires LexLeq(a, b) && LexLeq(b, c)
    ensures LexLeq(a, c)
  {
    if a != [] && a[0] == b[0] && b[0] == c[0] {
      LexTransitive(a[1..], b[1..], c[1..]);
    }
  }

  /** `orderBy: { name: 'asc' }`. */
  predicate ByName(a: Summary, b: Summary)
  {
    LexLeq(a.term.name, b.term.name)
  }

  lemma ByNameTotal()
    ensures Total(ByName) && Transitive(ByName)
  {
    forall a: Summary, b: Summary ensures ByName(a, b) || ByName(b, a) {
      LexTotal(a.term.name, b.term.name);
    }
    forall a: Summary, b: Summary, c: Summary | ByName(a, b) && ByName(b, c) ensures ByName(a, c) {
      LexTransitive(a.term.name, b.term.name, c.term.name);
    }
  }

  function Summaries(rows: seq<Term>, links: set<(int, int)>, published: set<int>): (r: seq<Summary>)
    ensures |r| == |rows|
    ensures forall i :: 0 <= i < |rows| ==> r[i] == Summary(rows[i], |PublishedLinks(links, published, rows[i].id)|)
  {
    seq(|rows|, i requires 0 <= i < |rows| => Summary(rows[i], |PublishedLinks(links, published, rows[i].id)|))
  }

  /** GET: every row once, with its published-post count, ordered by name. */
  function List(table: map<int, Term>, links: set<(int, int)>, published: set<int>): (r: seq<Summary>)
    ensures |r| == |table|
  {
    Sort(Summaries(Rows(table), links, published), ByName)
  }

  /** The listing is ordered by name. */
  lemma ListingSortedByName(table: map<int, Term>, links: set<(int, int)>, published: set<int>)
    ensures var r := List(table, links, published);
      forall i :: 0 < i < |r| ==> LexLeq(r[i - 1].term.name, r[i].term.name)
  {
    ByNameTotal();
    SortSorted(Summaries(Rows(table), links, published), ByName);
  }

  /** Before sorting: one summary per row, counting its published links. */
  lemma SummariesOfRows(table: map<int, Term>, links: set<(int, int)>, published: set<int>)
    ensures forall s :: s in Summaries(Rows(table), links, published) <==>
      (exists id :: id in table && s == Summary(table[id], |PublishedLinks(links, published, table[id].id)|))
  {
    var rows := Rows(table);
    var sums := Summaries(rows, links, published);
    forall s | s in sums
      ensures exists id :: id in table && s == Summary(table[id], |PublishedLinks(links, published, table[id].id)|)
    {
      var i :| 0 <= i < |sums| && sums[i] == s;
      assert rows[i] in rows;
      var id :| id in table && table[id] == rows[i];
    }
    forall id | id in table
      ensures Summary(table[id], |PublishedLinks(links, published, table[id].id)|) in sums
    {
      assert table[id] in rows;
      var i :| 0 <= i < |rows| && rows[i] == table[id];
      assert sums[i] in sums;
    }
  }

  /** The listing holds a summary of each row, with its count of distinct
      published posts, and nothing else. */
  lemma ListingCountsPublishedPosts(table: map<int, Term>, links: set<(int, int)>, published: set<int>)
    ensures var r := List(table, links, published);
      forall s :: s in r <==>
        (exists id :: id in table && s == Summary(table[id], |PublishedPosts(links, published, table[id].id)|))
  {
    SummariesOfRows(table, links, published);
    SortMembers(Summaries(Rows(table), links, published), ByName);
    forall id | id in table
      ensures |PublishedLinks(links, published, table[id].id)| == |PublishedPosts(links, published, table[id].id)|
    {
      CountIsDistinctPosts(links, published, table[id].id);
    }
  }
}
