/** The public comment route: submitting a comment (throttle, schema, post
    check, denylist, insert) and listing a post's approved comments. */
module Comments {
  import opened Basics
  import opened Text
  import opened Json
  import opened Ordering
  import opened Database
  import RL = RateLimit
  import ContentFilter

  // ---------------------------------------------------------------------------
  // The route's own denylist (it differs from the content filter's list)
  // ---------------------------------------------------------------------------

  const LocalSensitiveWords: seq<string> := ["垃圾", "广告", "spam", "色情"]

  /** The route's `containsSensitiveWords(content)`. */
  function LocalContainsSensitiveWords(content: string): (r: bool)
    ensures r <==> exists w :: w in LocalSensitiveWords && Contains(Lower(content), Lower(w))
  {
    ContentFilter.SomeIncluded(LocalSensitiveWords, Lower(content))
  }

  // ---------------------------------------------------------------------------
  // Schema
  // ---------------------------------------------------------------------------

  /** A string field whose length lies in `lo..hi`. */
  predicate StringIn(fields: map<string, Json>, key: string, lo: nat, hi: nat)
  {
    key in fields && fields[key].JString? && lo <= |fields[key].s| <= hi
  }

  /** What `commentSchema` accepts: a positive integral `postId`, an author
      of 1..50 and a content of 1..1000 characters, and an email that is
      absent, empty, or well-formed by `isEmail`. */
  predicate Accepts(body: Json, isEmail: string -> bool)
  {
    && body.JObject?
    && "postId" in body.fields && body.fields["postId"].JNumber?
    && IsInteger(body.fields["postId"].n) && body.fields["postId"].n > 0.0
    && StringIn(body.fields, "author", 1, 50)
    && StringIn(body.fields, "content", 1, 1000)
    && ("email" in body.fields ==>
          body.fields["email"].JString? && (body.fields["email"].s == "" || isEmail(body.fields["email"].s)))
  }

  /** The validated fields, the email already normalised by `email || null`. */
  datatype Draft = Draft(postId: int, author: string, email: Option<string>, content: string)

  /** `commentSchema.safeParse(body)`. */
  function ValidateComment(body: Json, isEmail: string -> bool): (r: Option<Draft>)
    ensures r.Some? <==> Accepts(body, isEmail)
    ensures r.Some? ==>
      && r.value.postId > 0 && r.value.postId as real == body.fields["postId"].n
      && r.value.author == body.fields["author"].s
      && r.value.content == body.fields["content"].s
      && 1 <= |r.value.author| <= 50 && 1 <= |r.value.content| <= 1000
      && (r.value.email.None? <==> "email" !in body.fields || body.fields["email"].s == "")
      && (r.value.email.Some? ==> r.value.email.value == body.fields["email"].s && isEmail(r.value.email.value))
  {
    match body
    case JObject(fields) =>
      var postId := Field(body, "postId");
      var author := Field(body, "author");
      var content := Field(body, "content");
      var email := Field(body, "email");
      if postId.Some? && postId.value.JNumber? && IsInteger(postId.value.n) && postId.value.n > 0.0
        && author.Some? && author.value.JString? && 1 <= |author.value.s| <= 50
        && content.Some? && content.value.JString? && 1 <= |content.value.s| <= 1000
      then
        if email.None? then
          Some(Draft(postId.value.n.Floor, author.value.s, None, content.value.s))
        else if email.value.JString? && email.value.s == "" then
          Some(Draft(postId.value.n.Floor, author.value.s, None, content.value.s))
        else if email.value.JString? && isEmail(email.value.s) then
          Some(Draft(postId.value.n.Floor, author.value.s, Some(email.value.s), content.value.s))
        else None
      else None
    case _ => None
  }

  // ---------------------------------------------------------------------------
  // Submission
  // ---------------------------------------------------------------------------

  /** Fifteen minutes, at most five comments per client. */
  const CommentPolicy: RL.Options := RL.Options(15 * 60 * 1000, 5)

  /** The limiter key of a client. */
  function ClientKey(ip: string): string
  {
    "comment:" + ip
  }

  /** The fields a successful submission echoes back; the email and the
      client address stay private. */
  datatype PublicComment = PublicComment(id: int, author: string, content: string, createdAt: int, status: Status)

  function Public(c: Comment): PublicComment
  {
    PublicComment(c.id, c.author, c.content, c.createdAt, c.status)
  }

  datatype SubmitResponse =
    | Submitted(comment: PublicComment)
    | RateLimitExceeded(minutes: int)
    | ValidationError
    | PostNotFound
    | ContentRejected
    | InternalError

  /** The effect of one POST: the new limiter store, the response, and the
      row inserted, if any. */
  datatype Submission = Submission(limits: RL.Store, response: SubmitResponse, created: Option<Comment>)

  /** The checks that follow the throttle, in the source's order: a body,
      the schema, the post, the denylist. The first one that fails decides
      the response; when all pass, the row to insert. */
  datatype Admission = Admission(response: SubmitResponse, created: Option<Comment>)

  function Admit(published: set<int>, nextId: int, ip: string, body: Option<Json>,
                 isEmail: string -> bool, now: int): (r: Admission)
    ensures !r.response.RateLimitExceeded?
    ensures r.response == InternalError <==> body.None?
    ensures r.response == ValidationError <==> body.Some? && !Accepts(body.value, isEmail)
    ensures r.response == PostNotFound <==>
      body.Some? && Accepts(body.value, isEmail) && body.value.fields["postId"].n.Floor !in published
    ensures r.response == ContentRejected <==>
      && body.Some? && Accepts(body.value, isEmail)
      && body.value.fields["postId"].n.Floor in published
      && (LocalContainsSensitiveWords(body.value.fields["content"].s)
          || LocalContainsSensitiveWords(body.value.fields["author"].s))
    // a row is written exactly when every check passes
    ensures r.created.Some? <==>
      && body.Some? && Accepts(body.value, isEmail)
      && body.value.fields["postId"].n.Floor in published
      && !LocalContainsSensitiveWords(body.value.fields["content"].s)
      && !LocalContainsSensitiveWords(body.value.fields["author"].s)
    ensures r.created.Some? <==> r.response.Submitted?
    ensures r.created.Some? ==>
      var c := r.created.value;
      && c.id == nextId && c.status == Pending && c.ipHash == ip && c.createdAt == now
      && ValidateComment(body.value, isEmail) == Some(Draft(c.postId, c.author, c.email, c.content))
      && r.response == Submitted(Public(c))
  {
    if body.None? then
      Admission(InternalError, None)
    else
      var d := ValidateComment(body.value, isEmail);
      if d.None? then
        Admission(ValidationError, None)
      else if d.value.postId !in published then
        Admission(PostNotFound, None)
      else if LocalContainsSensitiveWords(d.value.content) || LocalContainsSensitiveWords(d.value.author) then
        Admission(ContentRejected, None)
      else
        var c := Comment(nextId, d.value.postId, d.value.author, d.value.email, d.value.content, Pending, ip, now);
        Admission(Submitted(Public(c)), Some(c))
  }

  /** The POST pipeline at time `now`, for client address `ip`, with the
      comment table's next id `nextId`: the throttle counts the request
      first, and only an admitted request reaches the other checks. */
  function Submit(limits: RL.Store, published: set<int>, nextId: int, ip: string,
                  body: Option<Json>, isEmail: string -> bool, now: int): (r: Submission)
    // every request is counted, whatever happens afterwards
    ensures r.limits == RL.Hit(limits, ClientKey(ip), CommentPolicy, now).0
    ensures var v := RL.Hit(limits, ClientKey(ip), CommentPolicy, now).1;
      && (r.response.RateLimitExceeded? <==> !v.allowed)
      && (!v.allowed ==> r.response.minutes == CeilDiv(v.resetTime - now, 60000) && r.created.None?)
      && (v.allowed ==> r.response == Admit(published, nextId, ip, body, isEmail, now).response
                        && r.created == Admit(published, nextId, ip, body, isEmail, now).created)
  {
    var h := RL.Hit(limits, ClientKey(ip), CommentPolicy, now);
    if !h.1.allowed then
      Submission(h.0, RateLimitExceeded(CeilDiv(h.1.resetTime - now, 60000)), None)
    else
      var a := Admit(published, nextId, ip, body, isEmail, now);
      Submission(h.0, a.response, a.created)
  }

  /** A client that already has five comments counted in a window that is
      still open is refused, and nothing is written. */
  lemma SixthCommentRefused(limits: RL.Store, published: set<int>, nextId: int, ip: string,
                            body: Option<Json>, isEmail: string -> bool, now: int)
    requires ClientKey(ip) in limits && limits[ClientKey(ip)].count >= 5
    requires now <= limits[ClientKey(ip)].resetTime
    ensures var r := Submit(limits, published, nextId, ip, body, isEmail, now);
      r.response == RateLimitExceeded(CeilDiv(limits[ClientKey(ip)].resetTime - now, 60000)) && r.created.None?
    ensures CeilDiv(limits[ClientKey(ip)].resetTime - now, 60000) >= 0
  {
  }

  /** The POST handler: the limiter and the comment table are updated in
      place, as `Submit` describes. */
  method Post(limiter: RL.Limiter, db: Tables, forwarded: Option<string>, realIP: Option<string>,
              body: Option<Json>, isEmail: string -> bool, now: int) returns (response: SubmitResponse)
    requires db.Valid()
    modifies limiter, db`comments, db`nextCommentId
    ensures db.Valid()
    ensures var s := Submit(old(limiter.store), db.published, old(db.nextCommentId),
                            RL.GetClientIP(forwarded, realIP), body, isEmail, now);
      && limiter.store == s.limits && response == s.response
      && (s.created.None? ==> db.comments == old(db.comments) && db.nextCommentId == old(db.nextCommentId))
      && (s.created.Some? ==>
            && s.created.value.id !in old(db.comments)
            && db.comments == old(db.comments)[s.created.value.id := s.created.value]
            && db.nextCommentId == old(db.nextCommentId) + 1)
  {
    var clientIP := RL.GetClientIP(forwarded, realIP);
    var verdict := limiter.RateLimit(ClientKey(clientIP), CommentPolicy, now);
    if !verdict.allowed {
      return RateLimitExceeded(CeilDiv(verdict.resetTime - now, 60000));
    }
    response := Insert(db, clientIP, body, isEmail, now);
  }

  /** The checks after the throttle, and the insert when they all pass. */
  method Insert(db: Tables, ip: string, body: Option<Json>, isEmail: string -> bool, now: int)
    returns (response: SubmitResponse)
    requires db.Valid()
    modifies db`comments, db`nextCommentId
    ensures db.Valid()
    ensures var a := Admit(db.published, old(db.nextCommentId), ip, body, isEmail, now);
      && response == a.response
      && (a.created.None? ==> db.comments == old(db.comments) && db.nextCommentId == old(db.nextCommentId))
      && (a.created.Some? ==>
            && a.created.value.id !in old(db.comments)
            && db.comments == old(db.comments)[a.created.value.id := a.created.value]
            && db.nextCommentId == old(db.nextCommentId) + 1)
  {
    if body.None? {
      return InternalError;
    }
    var draft := ValidateComment(body.value, isEmail);
    if draft.None? {
      return ValidationError;
    }
    var d := draft.value;
    if d.postId !in db.published {
      return PostNotFound;
    }
    if LocalContainsSensitiveWords(d.content) || LocalContainsSensitiveWords(d.author) {
      return ContentRejected;
    }
    var comment := Comment(db.nextCommentId, d.postId, d.author, d.email, d.content, Pending, ip, now);
    db.comments := db.comments[comment.id := comment];
    db.nextCommentId := db.nextCommentId + 1;
    response := Submitted(Public(comment));
  }

  // ---------------------------------------------------------------------------
  // Public listing
  // ---------------------------------------------------------------------------

  /** The projection the listing selects. */
  datatype ListEntry = ListEntry(id: int, author: string, content: string, createdAt: int)

  function Entry(c: Comment): ListEntry
  {
    ListEntry(c.id, c.author, c.content, c.createdAt)
  }

  function Entries(cs: seq<Comment>): (r: seq<ListEntry>)
    ensures |r| == |cs| && forall i :: 0 <= i < |cs| ==> r[i] == Entry(cs[i])
  {
    seq(|cs|, i requires 0 <= i < |cs| => Entry(cs[i]))
  }

  datatype ListResponse = Listed(entries: seq<ListEntry>) | MissingPostId | ListInternalError

  /** `orderBy: { createdAt: 'desc' }`: `a` may come before `b`. */
  predicate NewerFirst(a: Comment, b: Comment)
  {
    a.createdAt >= b.createdAt
  }

  lemma NewerFirstTotal()
    ensures Total(NewerFirst) && Transitive(NewerFirst)
  {
  }

  /** A post's approved comments, in the database's row order. */
  function ApprovedOf(table: map<int, Comment>, postId: int): (r: seq<Comment>)
    ensures forall c :: c in r <==> (exists id :: id in table && table[id] == c) && c.status == Approved && c.postId == postId
  {
    Filter(Rows(table), (c: Comment) => c.status == Approved && c.postId == postId)
  }

  /** The entries of a post's listing: its approved comments, newest
      first, projected to the selected fields. */
  function Listing(table: map<int, Comment>, postId: int): (r: seq<ListEntry>)
    ensures |r| == |ApprovedOf(table, postId)|
  {
    Entries(Sort(ApprovedOf(table, postId), NewerFirst))
  }

  /** GET with the query parameter `postId` (`None` when absent). */
  function ListComments(table: map<int, Comment>, postIdParam: Option<string>): (r: ListResponse)
    ensures r == MissingPostId <==> postIdParam.None? || postIdParam.value == ""
    ensures r == ListInternalError <==> postIdParam.Some? && postIdParam.value != "" && ParseInt(postIdParam.value).None?
    ensures r.Listed? ==> |r.entries| == |ApprovedOf(table, ParseInt(postIdParam.value).value)|
  {
    if postIdParam.None? || postIdParam.value == "" then MissingPostId
    else
      match ParseInt(postIdParam.value)
      case None => ListInternalError
      case Some(p) => Listed(Listing(table, p))
  }

  /** The listing holds exactly the approved comments of the post, newest
      first, and nothing but the selected fields. */
  lemma ListingIsApprovedNewestFirst(table: map<int, Comment>, param: string, p: int)
    requires param != "" && ParseInt(param) == Some(p)
    ensures ListComments(table, Some(param)) == Listed(Listing(table, p))
    ensures forall e :: e in Listing(table, p) <==>
      exists id :: id in table && table[id].status == Approved && table[id].postId == p && e == Entry(table[id])
    ensures forall i :: 0 < i < |Listing(table, p)| ==> Listing(table, p)[i - 1].createdAt >= Listing(table, p)[i].createdAt
  {
    ListingMembers(table, p);
    ListingNewestFirst(table, p);
  }

  lemma ListingMembers(table: map<int, Comment>, p: int)
    ensures forall e :: e in Listing(table, p) <==>
      exists id :: id in table && table[id].status == Approved && table[id].postId == p && e == Entry(table[id])
  {
    forall e | e in Listing(table, p)
      ensures exists id :: id in table && table[id].status == Approved && table[id].postId == p && e == Entry(table[id])
    {
      ListedIsApproved(table, p, e);
    }
    forall id | id in table && table[id].status == Approved && table[id].postId == p
      ensures Entry(table[id]) in Listing(table, p)
    {
      ApprovedIsListed(table, p, id);
    }
  }

  lemma ListedIsApproved(table: map<int, Comment>, p: int, e: ListEntry)
    requires e in Listing(table, p)
    ensures exists id :: id in table && table[id].status == Approved && table[id].postId == p && e == Entry(table[id])
  {
    var approved := ApprovedOf(table, p);
    var cs := Sort(approved, NewerFirst);
    var i :| 0 <= i < |cs| && Entry(cs[i]) == e;
    var c := cs[i];
    SortedElementIn(approved, NewerFirst, i);
    var id :| id in table && table[id] == c;
    assert table[id].status == Approved && table[id].postId == p && e == Entry(table[id]);
  }

  lemma ApprovedIsListed(table: map<int, Comment>, p: int, id: int)
    requires id in table && table[id].status == Approved && table[id].postId == p
    ensures Entry(table[id]) in Listing(table, p)
  {
    var approved := ApprovedOf(table, p);
    var cs := Sort(approved, NewerFirst);
    assert table[id] in approved;
    SortedHasElement(approved, NewerFirst, table[id]);
    var i :| 0 <= i < |cs| && cs[i] == table[id];
    assert Listing(table, p)[i] == Entry(table[id]);
  }

  lemma ListingNewestFirst(table: map<int, Comment>, p: int)
    ensures forall i :: 0 < i < |Listing(table, p)| ==> Listing(table, p)[i - 1].createdAt >= Listing(table, p)[i].createdAt
  {
    var approved := ApprovedOf(table, p);
    var cs := Sort(approved, NewerFirst);
    NewerFirstTotal();
    SortSorted(approved, NewerFirst);
    forall i | 0 < i < |cs| ensures Entry(cs[i - 1]).createdAt >= Entry(cs[i]).createdAt {
      assert NewerFirst(cs[i - 1], cs[i]);
    }
  }

  /** A comment waits for moderation: inserting a pending comment under a
      fresh id leaves every post's approved comments as they were. */
  lemma SubmissionNotListed(table: map<int, Comment>, c: Comment, p: int)
    requires c.id !in table && c.status == Pending
    ensures forall x :: x in ApprovedOf(table[c.id := c], p) <==> x in ApprovedOf(table, p)
  {
    forall x | x in ApprovedOf(table[c.id := c], p) ensures x in ApprovedOf(table, p) {
      var id :| id in table[c.id := c] && table[c.id := c][id] == x;
      assert id != c.id;
      assert table[id] == x;
    }
    forall x | x in ApprovedOf(table, p) ensures x in ApprovedOf(table[c.id := c], p) {
      var id :| id in table && table[id] == x;
      assert table[c.id := c][id] == x;
    }
  }
}
