/** The moderation route: a paginated, optionally status-filtered listing
    of all comments, and batch approve / reject / delete by id. */
module AdminComments {
  import opened Basics
  import opened Text
  import opened Json
  import opened Ordering
  import opened Database
  import Comments

  // ---------------------------------------------------------------------------
  // Batch moderation
  // ---------------------------------------------------------------------------

  datatype Action = Approve | Reject | Delete

  /** `switch (action)`: only the three exact strings select a case. */
  function ParseAction(v: Option<Json>): (r: Option<Action>)
    ensures r == Some(Approve) <==> v == Some(JString("approve"))
    ensures r == Some(Reject) <==> v == Some(JString("reject"))
    ensures r == Some(Delete) <==> v == Some(JString("delete"))
  {
    if v == Some(JString("approve")) then Some(Approve)
    else if v == Some(JString("reject")) then Some(Reject)
    else if v == Some(JString("delete")) then Some(Delete)
    else None
  }

  datatype PatchResponse = Affected(count: nat) | InvalidInput | InvalidAction | PatchInternalError

  /** `updateMany` setting `status` on the rows whose id is listed. */
  function SetStatus(table: map<int, Comment>, ids: set<int>, s: Status): (r: map<int, Comment>)
    ensures r.Keys == table.Keys
    ensures forall id :: id in table && id in ids ==> r[id] == table[id].(status := s)
    ensures forall id :: id in table && id !in ids ==> r[id] == table[id]
  {
    map id | id in table :: if id in ids then table[id].(status := s) else table[id]
  }

  /** The rows a batch names that exist. */
  function Matched(table: map<int, Comment>, ids: set<int>): (r: set<int>)
    ensures forall id :: id in r <==> id in table && id in ids
  {
    ids * table.Keys
  }

  /** The effect of one PATCH: the new comment table and the response. */
  function Moderate(table: map<int, Comment>, body: Option<Json>): (r: (map<int, Comment>, PatchResponse))
    // only a successful batch changes the table
    ensures !r.1.Affected? ==> r.0 == table
    ensures r.1 == InvalidInput <==>
      body.Some? && body.value != JNull && !NonEmptyArray(Field(body.value, "commentIds"))
    ensures r.1 == InvalidAction <==>
      body.Some? && body.value != JNull && NonEmptyArray(Field(body.value, "commentIds"))
      && ParseAction(Field(body.value, "action")).None?
    ensures r.1 == PatchInternalError <==>
      body.None? || body.value == JNull
      || (&& NonEmptyArray(Field(body.value, "commentIds"))
          && ParseAction(Field(body.value, "action")).Some?
          && IdList(Field(body.value, "commentIds").value.items).None?)
    // a well-formed batch is always applied
    ensures r.1.Affected? <==>
      && body.Some? && body.value != JNull && NonEmptyArray(Field(body.value, "commentIds"))
      && ParseAction(Field(body.value, "action")).Some?
      && IdList(Field(body.value, "commentIds").value.items).Some?
    ensures r.1.Affected? ==>
      && body.Some? && NonEmptyArray(Field(body.value, "commentIds"))
      && IdList(Field(body.value, "commentIds").value.items).Some?
      && var ids := IdSet(IdList(Field(body.value, "commentIds").value.items).value);
         && r.1.count == |Matched(table, ids)|
         && match ParseAction(Field(body.value, "action"))
            case Some(Approve) => r.0 == SetStatus(table, ids, Approved)
            case Some(Reject) => r.0 == SetStatus(table, ids, Rejected)
            case Some(Delete) => r.0 == table - ids
            case None => false
  {
    if body.None? || body.value == JNull then (table, PatchInternalError)
    else
      var commentIds := Field(body.value, "commentIds");
      if !NonEmptyArray(commentIds) then (table, InvalidInput)
      else
        match ParseAction(Field(body.value, "action"))
        case None => (table, InvalidAction)
        case Some(action) =>
          match IdList(commentIds.value.items)
          case None => (table, PatchInternalError)
          case Some(list) =>
            var ids := IdSet(list);
            var count := |Matched(table, ids)|;
            match action
            case Approve => (SetStatus(table, ids, Approved), Affected(count))
            case Reject => (SetStatus(table, ids, Rejected), Affected(count))
            case Delete => (table - ids, Affected(count))
  }

  /** After a deletion none of the listed comments is left, every other one
      is, and exactly `affected` rows are gone. */
  lemma DeleteRemovesExactly(table: map<int, Comment>, body: Option<Json>)
    requires Moderate(table, body).1.Affected?
    requires ParseAction(Field(body.value, "action")) == Some(Delete)
    ensures var r := Moderate(table, body);
      var ids := IdSet(IdList(Field(body.value, "commentIds").value.items).value);
      && r.0.Keys == table.Keys - ids
      && (forall id :: id in r.0 ==> r.0[id] == table[id])
      && |r.0.Keys| + r.1.count == |table.Keys|
  {
    var ids := IdSet(IdList(Field(body.value, "commentIds").value.items).value);
    var r := Moderate(table, body);
    assert r.0 == table - ids && r.1.count == |Matched(table, ids)|;
    RemoveCounts(table, ids);
  }

  /** Removing a set of ids leaves the other rows untouched and drops
      exactly the rows that matched. */
  lemma RemoveCounts(table: map<int, Comment>, ids: set<int>)
    ensures (table - ids).Keys == table.Keys - ids
    ensures forall id :: id in table - ids ==> (table - ids)[id] == table[id]
    ensures |(table - ids).Keys| + |Matched(table, ids)| == |table.Keys|
  {
    var keys := table.Keys;
    var gone := Matched(table, ids);
    assert (table - ids).Keys == keys - gone;
    assert (keys - gone) + gone == keys;
    assert (keys - gone) * gone == {};
  }

  /** Repeating a status batch changes nothing more. */
  lemma SetStatusIdempotent(table: map<int, Comment>, ids: set<int>, s: Status)
    ensures SetStatus(SetStatus(table, ids, s), ids, s) == SetStatus(table, ids, s)
  {
  }

  /** An approved comment shows up in the public listing of its post;
      a rejected one disappears from it. */
  lemma ApprovalPublishes(table: map<int, Comment>, ids: set<int>, id: int)
    requires id in table && id in ids
    ensures SetStatus(table, ids, Approved)[id] in Comments.ApprovedOf(SetStatus(table, ids, Approved), table[id].postId)
    ensures forall p :: SetStatus(table, ids, Rejected)[id] !in Comments.ApprovedOf(SetStatus(table, ids, Rejected), p)
  {
  }

  /** A well-formed approve batch succeeds and publishes every existing
      comment it lists. */
  lemma ApproveBatchPublishes(table: map<int, Comment>, body: Option<Json>)
    requires body.Some? && body.value != JNull && NonEmptyArray(Field(body.value, "commentIds"))
    requires Field(body.value, "action") == Some(JString("approve"))
    requires IdList(Field(body.value, "commentIds").value.items).Some?
    ensures var r := Moderate(table, body);
      var ids := IdSet(IdList(Field(body.value, "commentIds").value.items).value);
      && r.1 == Affected(|Matched(table, ids)|)
      && forall id :: id in table && id in ids ==>
           r.0[id].status == Approved && r.0[id] in Comments.ApprovedOf(r.0, table[id].postId)
  {
    var ids := IdSet(IdList(Field(body.value, "commentIds").value.items).value);
    forall id | id in table && id in ids
      ensures SetStatus(table, ids, Approved)[id] in Comments.ApprovedOf(SetStatus(table, ids, Approved), table[id].postId)
    {
      ApprovalPublishes(table, ids, id);
    }
  }

  /** The PATCH handler: the comment table is rewritten in place by the
      branch the action selects. */
  method Patch(db: Tables, body: Option<Json>) returns (response: PatchResponse)
    requires db.Valid()
    modifies db`comments
    ensures db.Valid()
    ensures (db.comments, response) == Moderate(old(db.comments), body)
  {
    if body.None? || body.value == JNull {
      return PatchInternalError;
    }
    var commentIds := Field(body.value, "commentIds");
    if !NonEmptyArray(commentIds) {
      return InvalidInput;
    }
    var action := ParseAction(Field(body.value, "action"));
    if action.None? {
      return InvalidAction;
    }
    var list := IdList(commentIds.value.items);
    if list.None? {
      return PatchInternalError;
    }
    var ids := IdSet(list.value);
    var count := |Matched(db.comments, ids)|;
    match action.value {
      case Approve =>
        db.comments := SetStatus(db.comments, ids, Approved);
      case Reject =>
        db.comments := SetStatus(db.comments, ids, Rejected);
      case Delete =>
        db.comments := db.comments - ids;
    }
    response := Affected(count);
  }

  // ---------------------------------------------------------------------------
  // Paginated listing
  // ---------------------------------------------------------------------------

  /** `status ? { status } : {}`: `Some(None)` lists everything,
      `Some(Some(s))` one status, and `None` is a name the database refuses. */
  function StatusFilter(status: Option<string>): (r: Option<Option<Status>>)
    ensures status.None? || status.value == "" <==> r == Some(None)
    ensures r.Some? && r.value.Some? ==> status == Some(StatusName(r.value.value))
  {
    if status.None? || status.value == "" then Some(None)
    else
      match ParseStatus(status.value)
      case None => None
      case Some(s) => Some(Some(s))
  }

  /** `searchParams.get(name) || fallback`. */
  function OrDefault(v: Option<string>, fallback: string): string
  {
    if v.None? || v.value == "" then fallback else v.value
  }

  datatype Pagination = Pagination(page: int, limit: int, total: nat, pages: Option<int>)

  datatype PageResponse = Page(comments: seq<Comment>, pagination: Pagination) | PageInternalError

  /** The comments a filter selects, in the database's row order. */
  function Candidates(table: map<int, Comment>, filter: Option<Status>): (r: seq<Comment>)
    ensures forall c :: c in r <==> (exists id :: id in table && table[id] == c) && (filter.None? || c.status == filter.value)
  {
    Filter(Rows(table), (c: Comment) => filter.None? || c.status == filter.value)
  }

  /** The comments a filter selects, newest first. */
  function Selected(table: map<int, Comment>, filter: Option<Status>): (r: seq<Comment>)
    ensures forall c :: c in r <==> (exists id :: id in table && table[id] == c) && (filter.None? || c.status == filter.value)
  {
    SortMembers(Candidates(table, filter), Comments.NewerFirst);
    Sort(Candidates(table, filter), Comments.NewerFirst)
  }

  /** `s[from..from + count]`, cut off at the end of `s`. */
  function Window<T>(s: seq<T>, from: nat, count: nat): (r: seq<T>)
    ensures |r| <= count
    ensures from <= |s| ==> |r| == if from + count <= |s| then count else |s| - from
    ensures forall i :: 0 <= i < |r| ==> from + i < |s| && r[i] == s[from + i]
  {
    if from >= |s| then []
    else if from + count >= |s| then s[from..]
    else s[from..from + count]
  }

  /** The parsed query: page number, page size and status filter. */
  datatype Query = Query(page: int, limit: int, filter: Option<Status>)

  /** `parseInt` of the page parameters (defaults `'1'` and `'20'`) and the
      status filter; `None` when one of them is rejected downstream (a `NaN`
      or an unknown status). */
  function ParseQuery(status: Option<string>, page: Option<string>, limit: Option<string>): (q: Option<Query>)
    ensures q.Some? <==>
      ParseInt(OrDefault(page, "1")).Some? && ParseInt(OrDefault(limit, "20")).Some? && StatusFilter(status).Some?
    ensures q.Some? ==>
      && Some(q.value.page) == ParseInt(OrDefault(page, "1"))
      && Some(q.value.limit) == ParseInt(OrDefault(limit, "20"))
      && Some(q.value.filter) == StatusFilter(status)
  {
    var pageNo := ParseInt(OrDefault(page, "1"));
    var limitNo := ParseInt(OrDefault(limit, "20"));
    var filter := StatusFilter(status);
    if pageNo.None? || limitNo.None? || filter.None? then None
    else Some(Query(pageNo.value, limitNo.value, filter.value))
  }

  /** `skip = (page - 1) * limit`. */
  function Skip(q: Query): (r: int)
    // negative, and so refused, exactly when the page lies before the first
    // one for a positive limit or after it for a negative one
    ensures q.limit == 0 ==> r == 0
    ensures q.limit > 0 ==> (r < 0 <==> q.page < 1)
    ensures q.limit < 0 ==> (r < 0 <==> q.page > 1)
  {
    var r := (q.page - 1) * q.limit;
    if q.limit > 0 then
      MulSign(q.page - 1, q.limit);
      r
    else if q.limit < 0 then
      MulSign(1 - q.page, -q.limit);
      assert r == (1 - q.page) * -q.limit;
      r
    else r
  }

  /** A page from the first one on starts after `page - 1` full pages. */
  lemma SkipIsFullPages(q: Query)
    requires q.limit > 0 && q.page >= 1
    ensures Skip(q) % q.limit == 0 && Skip(q) / q.limit == q.page - 1
  {
    DivMulExact(q.page - 1, q.limit);
  }

  /** One page of the selection for a parsed query. */
  function PageOf(table: map<int, Comment>, q: Query): (r: PageResponse)
    ensures r == PageInternalError <==> q.limit < 0 || Skip(q) < 0
    ensures r.Page? ==>
      && r.pagination.page == q.page && r.pagination.limit == q.limit
      && r.pagination.total == |Selected(table, q.filter)|
      && r.comments == Window(Selected(table, q.filter), Skip(q), q.limit)
      && (q.limit == 0 <==> r.pagination.pages.None?)
      && (q.limit > 0 ==> r.pagination.pages == Some(CeilDiv(r.pagination.total, q.limit)))
  {
    if q.limit < 0 || Skip(q) < 0 then PageInternalError
    else
      var matched := Selected(table, q.filter);
      var pages := if q.limit == 0 then None else Some(CeilDiv(|matched|, q.limit));
      Page(Window(matched, Skip(q), q.limit), Pagination(q.page, q.limit, |matched|, pages))
  }

  /** GET with the query parameters `status`, `page` and `limit`. */
  function ListForAdmin(table: map<int, Comment>, status: Option<string>, page: Option<string>, limit: Option<string>): (r: PageResponse)
    ensures ParseQuery(status, page, limit).None? ==> r == PageInternalError
    ensures ParseQuery(status, page, limit).Some? ==> r == PageOf(table, ParseQuery(status, page, limit).value)
  {
    match ParseQuery(status, page, limit)
    case None => PageInternalError
    case Some(q) => PageOf(table, q)
  }

  /** The page holds at most `limit` comments, newest first. */
  lemma PageNewestFirst(table: map<int, Comment>, q: Query)
    requires PageOf(table, q).Page?
    ensures var cs := PageOf(table, q).comments;
      && |cs| <= q.limit
      && forall i :: 0 < i < |cs| ==> cs[i - 1].createdAt >= cs[i].createdAt
  {
    var rows := Candidates(table, q.filter);
    Comments.NewerFirstTotal();
    SortSorted(rows, Comments.NewerFirst);
    var matched := Selected(table, q.filter);
    var skip := Skip(q);
    var cs := Window(matched, skip, q.limit);
    assert PageOf(table, q).comments == cs;
    forall i | 0 < i < |cs| ensures cs[i - 1].createdAt >= cs[i].createdAt {
      assert cs[i - 1] == matched[skip + i - 1] && cs[i] == matched[skip + i];
      assert Comments.NewerFirst(matched[skip + i - 1], matched[skip + i]);
    }
  }

  /** `pages` is the least number of pages of `limit` comments that holds
      the whole selection. */
  lemma PagesCoverTotal(table: map<int, Comment>, q: Query)
    requires PageOf(table, q).Page? && q.limit > 0
    ensures var p := PageOf(table, q).pagination;
      p.pages.Some? && p.pages.value >= 0
      && q.limit * p.pages.value >= p.total && q.limit * (p.pages.value - 1) < p.total
  {
    var p := PageOf(table, q).pagination;
    var n := CeilDiv(p.total, q.limit);
    assert p.pages == Some(n);
    if n < 0 {
      MulLeq(n, -1, q.limit);
    }
  }

  /** Multiplying by a positive number keeps the order. */
  lemma MulLeq(a: int, b: int, l: int)
    requires l > 0 && a <= b
    ensures a * l <= b * l
  {
  }

  lemma MulNonNegative(a: int, l: int)
    requires l > 0
    ensures a * l >= 0 ==> a >= 0
  {
    if a < 0 { MulLeq(a, -1, l); }
  }

  /** Page `p` of `pages` is non-empty exactly when `1 <= p <= pages`
      (for a positive limit and a non-empty selection). */
  lemma PageNonEmptyIffInRange(total: nat, p: int, l: int)
    requires l > 0 && (p - 1) * l >= 0
    ensures (p - 1) * l < total <==> 1 <= p <= CeilDiv(total, l)
  {
    var n := CeilDiv(total, l);
    MulNonNegative(p - 1, l);
    if p - 1 <= n - 1 {
      MulLeq(p - 1, n - 1, l);
    } else {
      MulLeq(n, p - 1, l);
    }
  }
}
