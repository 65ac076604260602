/** The rows the routes read and write, and the store holding them. Each
    table maps a row's id to the row; a join table is a set of
    (post id, term id) pairs. */
module Database {
  import opened Basics

  /** The comment moderation states. */
  datatype Status = Pending | Approved | Rejected

  /** The enum's spelling in queries and responses. */
  function StatusName(s: Status): string
  {
    match s
    case Pending => "PENDING"
    case Approved => "APPROVED"
    case Rejected => "REJECTED"
  }

  /** A query string naming a status; anything else is refused by the
      database client. */
  function ParseStatus(name: string): (r: Option<Status>)
    ensures r.Some? ==> StatusName(r.value) == name
    ensures forall s :: StatusName(s) == name ==> r == Some(s)
  {
    if name == "PENDING" then Some(Pending)
    else if name == "APPROVED" then Some(Approved)
    else if name == "REJECTED" then Some(Rejected)
    else None
  }

  /** A stored comment; `createdAt` is in milliseconds. */
  datatype Comment = Comment(
    id: int,
    postId: int,
    author: string,
    email: Option<string>,
    content: string,
    status: Status,
    ipHash: string,
    createdAt: int)

  /** A category or a tag (tags never carry a description). */
  datatype Term = Term(id: int, name: string, slug: string, description: Option<string>)

  /** Every row is stored under its own id, and the next id to hand out is
      above all of them. */
  ghost predicate KeyedBelow<V>(table: map<int, V>, idOf: V -> int, next: int)
  {
    forall id :: id in table ==> idOf(table[id]) == id && id < next
  }

  function CommentId(c: Comment): int { c.id }

  function TermId(t: Term): int { t.id }

  /** The database: published post ids, comments, and the two taxonomies
      with their join tables. */
  class Tables {
    var published: set<int>
    var comments: map<int, Comment>
    var nextCommentId: int
    var categories: map<int, Term>
    var nextCategoryId: int
    var categoryLinks: set<(int, int)>
    var tags: map<int, Term>
    var nextTagId: int
    var tagLinks: set<(int, int)>

    ghost predicate Valid()
      reads this
    {
      && KeyedBelow(comments, CommentId, nextCommentId)
      && KeyedBelow(categories, TermId, nextCategoryId)
      && KeyedBelow(tags, TermId, nextTagId)
    }

    /** A store with the given published posts and empty tables. */
    constructor (posts: set<int>)
      ensures Valid() && published == posts
      ensures comments == map[] && categories == map[] && tags == map[]
      ensures categoryLinks == {} && tagLinks == {}
    {
      published := posts;
      comments := map[];
      nextCommentId := 1;
      categories := map[];
      nextCategoryId := 1;
      categoryLinks := {};
      tags := map[];
      nextTagId := 1;
      tagLinks := {};
    }
  }
}
