# Comment, moderation, taxonomy, search and archive logic of a personal blog

This project models the server-side rules of a Next.js blog and proves
properties about them:

- the fixed-window **rate limiter**. It is a process-wide dictionary from an
  identifier to a request count and a window end, and it has a sweep that
  removes expired windows;
- the **content filter**. It has a fixed denylist of fifteen words, a
  case-insensitive masking of listed words, the spam heuristics (length,
  denylist, a run of eleven equal characters, more than two
  `http(s)://` prefixes, the author's name) and the arithmetic captcha
  with its retry rule;
- the **public comment route**. Submission runs the throttle first (five
  comments per fifteen minutes per client address), then the schema, the
  published-post check, the route's own four-word denylist and the insert
  of a pending row. A post's listing shows its approved comments, newest first, as
  four selected fields;
- **admin moderation**. Batch approve, reject and delete by id, and a
  paginated, optionally status-filtered listing with `pages = ceil(total /
  limit)`;
- **category and tag administration**. Create checks that the slug is
  free. Batch delete is refused as a whole when any listed term is
  still linked to a post. The listing is ordered by name and gives each
  term its number of published posts. The two routes differ only in
  constants (`Taxonomy.CategoryKind`, `Taxonomy.TagKind`);
- the **search filter**. A blank query gives nothing. Otherwise a post
  matches when its title, summary, category names or tag names contain
  the lower-cased, trimmed query;
- **archive grouping**. Dated posts are bucketed by year and month. Years
  and months are listed in descending numeric order, with per-year counts
  and a total.

Modules follow the source files:

| module | file |
|---|---|
| `RateLimit` | `rate_limit.dfy` |
| `ContentFilter` | `content_filter.dfy` |
| `Comments` | `comments.dfy` |
| `AdminComments` | `admin_comments.dfy` |
| `Taxonomy`, `Categories`, `Tags` | `taxonomy.dfy`, `categories.dfy`, `tags.dfy` |
| `Search` | `search.dfy` |
| `Archive` | `archive.dfy` |

Supporting modules:

| module | what it holds |
|---|---|
| `Text` | the JavaScript string operations the code relies on |
| `Json` | request bodies |
| `Database` | the rows, and a `Tables` class holding the tables |
| `Ordering` | insertion sort, used as the database's `orderBy`, and ascending-key row order |
| `Basics` | shared helpers |

The model takes the source's own form:

- The limiter is a class whose `RateLimit` and `CleanupExpiredRecords`
  methods update its `store` map in place. Each is proved against the
  functions `Hit` and `Unexpired`.
- The route handlers that write are methods on the `Tables` class:
  `Comments.Post`, `AdminComments.Patch`, `Categories.Post`/`Delete` and
  `Tags.Post`/`Delete`. Each is proved equal to a pure function of the old
  tables (`Submit`, `Moderate`, `Create`, `DeleteTerms`), and the
  properties are lemmas about those functions.
- `filterSensitiveWords` and the archive's `forEach`, sort and `map` loops
  are methods with loop invariants. The rest are functions.

Each database table is a map from a row's id to the row, and ids are
handed out from a counter. `Tables.Valid` says every row sits under its own
id, below the counter. A query's row order is ascending id
(`Ordering.Rows`), and `orderBy` is a stable sort of that order.

## Model

| member | source | states |
|---|---|---|
| RateLimit.Hit | lib/rate-limit.ts:12-40 | only the caller's key changes; a live window continues with the count raised by one, an absent or expired one (strictly past its end) restarts with count 1 ending `now + windowMs`; allowed exactly when the new count is at most the maximum; remaining is `max(0, max - count)`; the reset time is the window's end |
| RateLimit.Run | lib/rate-limit.ts:12-40 | successive calls for one key give one verdict per call |
| RateLimit.RunWithinWindow | lib/rate-limit.ts:17-33 | inside an open window the k-th further call sees count `count + k + 1`, is allowed exactly while that is within the maximum, refused calls are still counted, and all report the same reset time |
| RateLimit.FirstWindow | lib/rate-limit.ts:22-33 | from a fresh window, exactly the first `maxRequests` calls before it ends are allowed |
| RateLimit.Unexpired | lib/rate-limit.ts:43-50 | the swept store keeps exactly the records whose window is still open, unchanged |
| RateLimit.CleanupIsTransparent | lib/rate-limit.ts:43-50 | after a sweep at an earlier time, a call reports the same verdict and leaves the same record as without the sweep |
| RateLimit.Limiter.constructor | lib/rate-limit.ts:5 | the store starts empty |
| RateLimit.Limiter.RateLimit | lib/rate-limit.ts:12-40 | the in-place updates (delete an expired record, create, increment) leave the store and return the verdict that `Hit` describes |
| RateLimit.Limiter.CleanupExpiredRecords | lib/rate-limit.ts:43-50 | the key-by-key deletion loop leaves exactly `Unexpired(old store, now)` |
| RateLimit.GetClientIP | lib/rate-limit.ts:53-65 | a non-empty forwarded header gives its first comma field, trimmed, a comma-free piece of the header; otherwise a non-empty real-IP header; otherwise `"unknown"` |
| RateLimit.TrimSlice | lib/rate-limit.ts:58 | the trimmed first field is a contiguous piece of the header and holds no comma |
| ContentFilter.SomeIncluded | lib/content-filter.ts:10 | true exactly when some word, lower-cased, occurs in the text |
| ContentFilter.ContainsSensitiveWords | lib/content-filter.ts:8-11 | true exactly when some listed word, lower-cased, is a substring of the lower-cased content |
| ContentFilter.InMatchSuffix | lib/content-filter.ts:16-17 | a match found after a cut is a match of the whole string, shifted by the cut |
| ContentFilter.Mask | lib/content-filter.ts:16-17 | the global case-insensitive replace keeps the length, changes characters only into stars, and changes a character only when it lies inside a match of the word |
| ContentFilter.MaskedMatch | lib/content-filter.ts:16-17 | masking creates no new match of any star-free word |
| ContentFilter.MaskLeavesNoMatch | lib/content-filter.ts:16-17 | after masking a word, no case-insensitive match of it is left anywhere |
| ContentFilter.MatchesAtIffOccurs | lib/content-filter.ts:16 | a case-insensitive match at `i` is an occurrence at `i` of the lower-cased word in the lower-cased text |
| ContentFilter.MaskAll | lib/content-filter.ts:15-18 | masking the words in turn keeps the length and only introduces stars |
| ContentFilter.StarredMatch | lib/content-filter.ts:15-18 | a match of a star-free word in a string that differs from another only by stars is a match in the other |
| ContentFilter.MaskAllKeepsUnmatched | lib/content-filter.ts:15-18 | masking star-free words in turn changes only characters inside a match, in the original text, of one of the words |
| ContentFilter.MaskKeepsClean | lib/content-filter.ts:15-18 | masking one more word keeps every earlier word absent and removes the new one |
| ContentFilter.CleanMeansAbsent | lib/content-filter.ts:13-20 | a text with no case-insensitive match of any word contains none of them after lower-casing |
| ContentFilter.SensitiveWordsMaskable | lib/content-filter.ts:2-6 | every listed word is non-empty and has no character that folds to `*` |
| ContentFilter.FilterSensitiveWords | lib/content-filter.ts:13-20 | the result has the content's length, differs from it only by stars, `containsSensitiveWords` is false of it, and every starred character lies inside an occurrence, in the content, of a listed word (in any letter case) |
| ContentFilter.Flooded | lib/content-filter.ts:31 | true exactly when some character other than a line terminator is followed by ten more copies of itself |
| ContentFilter.LinkCount | lib/content-filter.ts:34 | the regex's left-to-right, non-overlapping match count equals the number of positions where `http://` or `https://` starts |
| ContentFilter.NoLinkInsideLink | lib/content-filter.ts:34 | no other link prefix starts inside a link prefix, so skipping a whole match loses no start |
| ContentFilter.LinkStartsWithH | lib/content-filter.ts:34 | every link prefix starts with `h` |
| ContentFilter.SkipNoLinks | lib/content-filter.ts:34 | dropping characters other than `h` drops no link start |
| ContentFilter.IsSpamComment | lib/content-filter.ts:23-41 | spam exactly when the length is outside 2..1000, or the content holds a listed word, or a character repeats eleven times, or more than two link prefixes appear, or the author holds a listed word |
| ContentFilter.NotSpamMeansClean | lib/content-filter.ts:23-41 | an accepted comment has 2..1000 characters, no listed word in content or author, and at most two links |
| ContentFilter.SpamIgnoresEmail | lib/content-filter.ts:23 | the email argument never changes the verdict |
| ContentFilter.Draw | lib/content-filter.ts:51-53 | both operands lie in 1..10 |
| ContentFilter.FirstKept | lib/content-filter.ts:55-58 | the attempts before it are exactly retried subtractions and the one it names is kept |
| ContentFilter.GenerateCaptcha | lib/content-filter.ts:44-64 | the captcha rendered from the first attempt that is not a negative subtraction, or none if the attempts run out |
| ContentFilter.Rejected | lib/content-filter.ts:55-58 | with operands from 1 on, a challenge is retried exactly when its result would be negative |
| ContentFilter.Render | lib/content-filter.ts:60-63 | a kept challenge's result is non-negative and its answer string parses back to it |
| Comments.LocalContainsSensitiveWords | app/api/comments/route.ts:14-18 | true exactly when one of the route's four words, lower-cased, is in the lower-cased text |
| Comments.ValidateComment | app/api/comments/route.ts:6-11 | accepts exactly a positive integral `postId`, an author of 1..50 and a content of 1..1000 characters, and an email that is absent, empty or well-formed; the draft carries those fields, an empty email becoming none |
| Comments.Admit | app/api/comments/route.ts:39-105 | after the throttle: no body gives INTERNAL_ERROR, a schema failure VALIDATION_ERROR, an unpublished post POST_NOT_FOUND, a denylisted content or author CONTENT_REJECTED; a row is created exactly when every check passes, pending, with the next id, the client address and `now` |
| Comments.Submit | app/api/comments/route.ts:20-117 | every request is counted by the limiter first; a refused one gets RATE_LIMIT_EXCEEDED with `ceil((reset - now) / 60000)` minutes and creates nothing; an allowed one gets what `Admit` decides |
| Comments.SixthCommentRefused | app/api/comments/route.ts:23-37 | a client with five counted comments in an open window is refused and nothing is written |
| Comments.Post | app/api/comments/route.ts:20-117 | the limiter store and the comment table are updated in place as `Submit` says; a created row gets an id no existing row has and the id counter moves on by one |
| Comments.Insert | app/api/comments/route.ts:39-105 | the checks after the throttle, with the row inserted under a fresh id, and the counter moved on by one, exactly when `Admit` creates one |
| Comments.Entries | app/api/comments/route.ts:138-143 | the listing projects each comment to id, author, content and creation time, in order |
| Comments.NewerFirstTotal | app/api/comments/route.ts:137 | newest-first is a total preorder |
| Comments.ApprovedOf | app/api/comments/route.ts:132-136 | exactly the approved rows of the post |
| Comments.Listing | app/api/comments/route.ts:132-144 | the `findMany` gives as many entries as the post has approved comments (which and in what order: `ListingMembers`, `ListingNewestFirst`) |
| Comments.ListComments | app/api/comments/route.ts:120-158 | a missing or empty `postId` gives MISSING_POST_ID, an unparsable one INTERNAL_ERROR, otherwise one entry per approved comment of the post |
| Comments.ListingIsApprovedNewestFirst | app/api/comments/route.ts:132-149 | the listing holds exactly the projections of the post's approved rows, newest first |
| Comments.ListingMembers | app/api/comments/route.ts:132-143 | an entry is listed exactly when it projects an approved row of the post |
| Comments.ListedIsApproved | app/api/comments/route.ts:132-136 | every listed entry comes from an approved row of the post |
| Comments.ApprovedIsListed | app/api/comments/route.ts:132-136 | every approved row of the post is listed |
| Comments.ListingNewestFirst | app/api/comments/route.ts:137 | creation times never increase along the listing |
| Comments.SubmissionNotListed | app/api/comments/route.ts:89 | inserting a pending comment leaves every post's approved comments unchanged |
| AdminComments.ParseAction | app/api/admin/comments/route.ts:65-88 | only the exact strings `approve`, `reject` and `delete` select an action |
| AdminComments.SetStatus | app/api/admin/comments/route.ts:66-77 | the listed existing rows get the new status, every other row is unchanged, no row is added or removed |
| AdminComments.Matched | app/api/admin/comments/route.ts:92 | the listed ids that exist |
| AdminComments.Moderate | app/api/admin/comments/route.ts:52-102 | a missing or `null` body, or a well-formed batch whose ids are not all integral, fails internally; a missing, non-array or empty id list gives INVALID_INPUT; another action string INVALID_ACTION; every other batch succeeds, changes the table as its action says and reports the number of listed rows that exist; nothing else changes the table |
| AdminComments.DeleteRemovesExactly | app/api/admin/comments/route.ts:78-82 | a delete removes exactly the listed rows, keeps every other row as it was, and the affected count plus the remaining rows is the old size |
| AdminComments.RemoveCounts | app/api/admin/comments/route.ts:78-82 | removing a set of ids keeps the other rows and drops as many rows as matched |
| AdminComments.SetStatusIdempotent | app/api/admin/comments/route.ts:66-77 | repeating a status batch changes nothing more |
| AdminComments.ApprovalPublishes | app/api/admin/comments/route.ts:66-77 | an approved comment appears in its post's public listing; a rejected one appears in none |
| AdminComments.ApproveBatchPublishes | app/api/admin/comments/route.ts:63-71 | a well-formed approve batch succeeds with the matched count and publishes every existing comment it lists |
| AdminComments.Patch | app/api/admin/comments/route.ts:52-102 | the comment table is rewritten in place and the response returned as `Moderate` says, so a well-formed batch is always applied, keeping the table well-keyed |
| AdminComments.StatusFilter | app/api/admin/comments/route.ts:13 | a missing or empty status lists everything; a known status name filters by it; any other name is refused |
| AdminComments.Candidates | app/api/admin/comments/route.ts:13-27 | exactly the rows the status filter selects |
| AdminComments.Selected | app/api/admin/comments/route.ts:16-23 | the same rows, ordered newest first |
| AdminComments.Window | app/api/admin/comments/route.ts:24-25 | `skip`/`take`: at most `take` elements, the run starting at `skip`, cut off at the end |
| AdminComments.ParseQuery | app/api/admin/comments/route.ts:8-11 | page and limit are `parseInt` of the parameters or of the defaults `1` and `20`; the query is refused exactly when one of them or the status is unreadable |
| AdminComments.Skip | app/api/admin/comments/route.ts:11 | `(page - 1) * limit` is zero for a zero limit, and negative exactly for a page before the first with a positive limit or after the first with a negative one |
| AdminComments.SkipIsFullPages | app/api/admin/comments/route.ts:11 | from the first page on, the skipped rows are exactly `page - 1` full pages |
| AdminComments.PageOf | app/api/admin/comments/route.ts:11-41 | a negative limit or skip fails; otherwise the page is the window at `(page - 1) * limit` of the selection, total is its size, and pages is `ceil(total / limit)` (none for a zero limit) |
| AdminComments.ListForAdmin | app/api/admin/comments/route.ts:5-49 | an unreadable query fails; otherwise the page of the parsed query |
| AdminComments.PageNewestFirst | app/api/admin/comments/route.ts:23-25 | a page holds at most `limit` comments, newest first |
| AdminComments.PagesCoverTotal | app/api/admin/comments/route.ts:38 | `pages` is the least number of `limit`-sized pages that holds the whole selection |
| AdminComments.PageNonEmptyIffInRange | app/api/admin/comments/route.ts:11-38 | page `p` starts inside the selection exactly when `1 <= p <= pages` |
| Taxonomy.Validate | app/api/admin/categories/route.ts:5-9 | accepts exactly an object with `name` and `slug` strings of 1..maximum characters and, for categories, a string `description` if present; the draft carries those fields |
| Taxonomy.FindBySlug | app/api/admin/categories/route.ts:61 | the row found has the slug and is one of the rows; none is found exactly when no row has the slug |
| Taxonomy.SlugTaken | app/api/admin/categories/route.ts:61-67 | `findUnique` finds a row exactly when some row of the table has the slug |
| Taxonomy.Create | app/api/admin/categories/route.ts:42-85 | no body fails internally, a schema failure gives VALIDATION_ERROR, a taken slug SLUG_EXISTS; otherwise one row is inserted under the next id; only success changes the table |
| Taxonomy.CreateKeepsSlugsUnique | app/api/admin/categories/route.ts:60-71 | slugs stay unique across creates |
| Taxonomy.DeleteTerms | app/api/admin/categories/route.ts:88-132 | a missing or `null` body, or a non-integral id, fails internally; a bad id list gives INVALID_INPUT; a batch with any linked id is refused as a whole with the kind's in-use code; every other batch is deleted: the listed rows are removed and the count is the number of listed rows that existed; nothing else changes the table |
| Taxonomy.DeleteKeepsLinksValid | app/api/admin/categories/route.ts:100-118 | a successful delete never leaves a link pointing at a removed row |
| Taxonomy.PublishedLinks | app/api/admin/categories/route.ts:15-21 | the links of a term whose post is published |
| Taxonomy.PublishedPosts | app/api/admin/categories/route.ts:15-21 | the published posts linked to a term |
| Taxonomy.CountIsDistinctPosts | app/api/admin/categories/route.ts:29 | the post count equals the number of distinct published posts linked to the term |
| Taxonomy.LexTotal | app/api/admin/categories/route.ts:22 | name order is total |
| Taxonomy.LexTransitive | app/api/admin/categories/route.ts:22 | name order is transitive |
| Taxonomy.ByNameTotal | app/api/admin/categories/route.ts:22 | ordering summaries by name is a total preorder |
| Taxonomy.Summaries | app/api/admin/categories/route.ts:27-30 | each row paired with its published-link count, in order |
| Taxonomy.List | app/api/admin/categories/route.ts:12-39 | one summary per row |
| Taxonomy.ListingSortedByName | app/api/admin/categories/route.ts:22 | the listing is ordered by name |
| Taxonomy.SummariesOfRows | app/api/admin/categories/route.ts:14-30 | before sorting there is exactly one summary per row, counting its published links |
| Taxonomy.ListingCountsPublishedPosts | app/api/admin/categories/route.ts:14-30 | the listing holds exactly one summary per row, with its count of distinct published posts |
| Categories.Post | app/api/admin/categories/route.ts:42-85 | the category table and its id counter change in place as `Create` says, with names and slugs of at most 50 characters and an optional description of any length; a new row's id is fresh |
| Categories.Delete | app/api/admin/categories/route.ts:88-132 | the category table changes in place as `DeleteTerms` says: CATEGORY_IN_USE for linked categories, and every other well-formed batch deleted |
| Tags.Post | app/api/admin/tags/route.ts:41-84 | the tag table and its id counter change in place as `Create` says, with names and slugs of at most 30 characters and no description; a new row's id is fresh |
| Tags.Delete | app/api/admin/tags/route.ts:87-131 | the tag table changes in place as `DeleteTerms` says: TAG_IN_USE for linked tags, and every other well-formed batch deleted |
| Search.SomeNameIncludes | app/search/page.tsx:53 | true exactly when some name, lower-cased, contains the term |
| Search.Matches | app/search/page.tsx:45-59 | true exactly when the lower-cased title, the summary if any, a category name or a tag name contains the term |
| Search.FilterPosts | app/search/page.tsx:45-59 | the matching posts in their original order, each as often as in the input, and no other |
| Search.SearchResults | app/search/page.tsx:41-60 | a blank query gives nothing; otherwise exactly the posts matching the lower-cased, trimmed query, in order, with multiplicities |
| Search.BlankQueryIffEmptyTerm | app/search/page.tsx:42-44 | the blank test on the raw query agrees with the trimmed lower-cased term being empty |
| Search.LowerKeepsSpaces | app/search/page.tsx:42-44 | lower-casing neither creates nor removes a space |
| Search.TitleAloneDecides | app/search/page.tsx:47 | a post with no summary, categories or tags is found exactly when its title contains the term |
| Archive.YearListMembers | app/archive/page.tsx:35-43 | a year is listed exactly when some post is dated in it |
| Archive.MonthListMembers | app/archive/page.tsx:35-46 | a month of a year is listed exactly when some post is dated in it |
| Archive.KeysRoundTrip | app/archive/page.tsx:38-40 | `parseInt` reads back the year key and the two-character month key, so sorting the keys numerically sorts the numbers |
| Archive.GroupPosts | app/archive/page.tsx:34-50 | the `forEach` leaves exactly one year key per year some post is dated in, one month key per month used, and each bucket holding that month's posts in input order; undated posts are skipped |
| Archive.Add | app/archive/page.tsx:35-50 | an undated post changes nothing; a dated one adds at most its own year and month keys, is appended to its own bucket, and leaves every other bucket as it was |
| Archive.AddKeepsGrouped | app/archive/page.tsx:35-50 | one iteration keeps the buckets in step with the posts visited |
| Archive.AddKeepsYear | app/archive/page.tsx:42-49 | a year's month buckets stay in step when a post is appended |
| Archive.NoYearNoMonths | app/archive/page.tsx:42-44 | a year nobody is dated in has no month keys |
| Archive.NoYearNoMonth | app/archive/page.tsx:42-44 | a year nobody is dated in has no given month key |
| Archive.InMonthEmpty | app/archive/page.tsx:45-47 | a month key never created has an empty bucket |
| Archive.YearsStep | app/archive/page.tsx:42-44 | one more post adds at most its own year key |
| Archive.MonthsStep | app/archive/page.tsx:45-47 | one more post adds at most its own month key |
| Archive.InMonthStep | app/archive/page.tsx:49 | one more post is appended to its own bucket only |
| Archive.SortDescending | app/archive/page.tsx:52 | the keys, each exactly once, in strictly descending order |
| Archive.HasMax | app/archive/page.tsx:52 | a non-empty key set has a largest key |
| Archive.AppendYear | app/archive/page.tsx:66 | appending a well-formed year section keeps the page well-formed |
| Archive.BuildYear | app/archive/page.tsx:66-68 | a year's section lists exactly its month keys in descending order, each with its bucket, and its count is the sum of the bucket sizes |
| Archive.AppendMonth | app/archive/page.tsx:67-68 | appending a month row keeps the rows well-formed and adds its size to the sum |
| Archive.MonthInRange | app/archive/page.tsx:40 | every month key is in 1..12 |
| Archive.MonthsInRange | app/archive/page.tsx:40 | every listed month is in 1..12 |
| Archive.BuildArchive | app/archive/page.tsx:33-68 | the total is the number of posts; the year sections are exactly the years some post is dated in, in descending order, each well-formed |
| Archive.AddYear | app/archive/page.tsx:66-68 | one step of building the sections appends the section of the given year |
| Archive.TallyAppend | app/archive/page.tsx:68 | counting one more element adds its multiplicity among the keys |
| Archive.DistinctOnce | app/archive/page.tsx:52 | distinct keys hold each value at most once |
| Archive.TallyCovers | app/archive/page.tsx:68 | counting every element under distinct keys that cover them counts each once |
| Archive.TallyEmpty | app/archive/page.tsx:68 | nothing to count gives zero |
| Archive.MonthBucketSize | app/archive/page.tsx:45-49 | a bucket's size is the number of posts dated in its month |
| Archive.YearSize | app/archive/page.tsx:68 | the posts of a year are as many as the occurrences of the year and as the months listed for it |
| Archive.DatedSize | app/archive/page.tsx:36 | the dated posts are as many as the years listed |
| Archive.SizeSumIsTally | app/archive/page.tsx:68 | the sum of the month sizes counts the year's months under the listed month keys |
| Archive.TallyLast | app/archive/page.tsx:68 | counting under one more key adds that key's occurrences |
| Archive.MonthsAddUp | app/archive/page.tsx:67-68 | a year's month sizes add up to the number of posts dated in that year |
| Archive.YearCountIsPostsOfYear | app/archive/page.tsx:68 | a year's count is the number of posts dated in that year |
| Archive.YearCountsAddUp | app/archive/page.tsx:35-68 | the year counts add up to the number of dated posts |
| Archive.YearSumIsTally | app/archive/page.tsx:68 | the sum of the year counts counts the years under the listed year keys |
| Archive.InYearMembers | app/archive/page.tsx:35-50 | a post belongs to a year exactly when it is dated in it |
| Archive.DatedMembers | app/archive/page.tsx:36 | exactly the posts with a publication date are grouped |
| Archive.InMonthMembers | app/archive/page.tsx:35-50 | a dated post is in exactly its own month's bucket, and an undated one in none |
| Text.Lower | lib/content-filter.ts:9 | lower-casing keeps the length and maps each character |
| Text.Includes | lib/content-filter.ts:10 | `includes` is true exactly when the word occurs somewhere |
| Text.OccursAtShift | lib/content-filter.ts:10 | an occurrence in the tail is an occurrence one further in the whole |
| Text.OccursAtUnshift | lib/content-filter.ts:10 | an occurrence past the head is one earlier in the tail |
| Text.TrimStart | app/search/page.tsx:42 | the suffix left after leading spaces, starting with a non-space |
| Text.TrimEnd | app/search/page.tsx:42 | the prefix left before trailing spaces, ending with a non-space |
| Text.Trim | app/search/page.tsx:42 | no longer than the input, with no space at either end |
| Text.TrimEmptyIffAllSpace | app/search/page.tsx:42 | a string trims to nothing exactly when it is all spaces |
| Text.TrimStartEmptyIff | app/search/page.tsx:42 | trimming the start empties exactly an all-space string |
| Text.TrimEndEmptyIff | app/search/page.tsx:42 | trimming the end empties exactly an all-space string |
| Text.FirstField | lib/rate-limit.ts:58 | the prefix before the first separator, or the whole string |
| Text.DigitChar | app/archive/page.tsx:39 | a digit character with the given value |
| Text.NatToString | app/archive/page.tsx:39 | a non-empty digit string without a leading zero |
| Text.IntToString | app/archive/page.tsx:39 | a non-empty rendering |
| Text.PadStart | app/archive/page.tsx:40 | `width` characters at least, the input at the end, fill characters before it |
| Text.DigitPrefix | app/archive/page.tsx:52 | the longest prefix of digits |
| Text.HexPrefix | app/archive/page.tsx:52 | the longest prefix made of hexadecimal digits |
| Text.ParseUnsigned | app/archive/page.tsx:52 | no number exactly when the first character after a `0x`/`0X` prefix is no hexadecimal digit, or, without the prefix, the first character is no decimal digit; a number read is never negative |
| Text.ParseInt | app/api/comments/route.ts:134 | `parseInt` gives `NaN` exactly when no number follows the leading space and at most one sign |
| Text.ParseIntSign | app/api/comments/route.ts:134 | the number after the sign gives the magnitude, and the result is negative exactly when a minus precedes a non-zero number |
| Text.DecimalValueOfNatToString | app/archive/page.tsx:39 | the rendered digits denote the number |
| Text.DigitPrefixOfDigits | app/archive/page.tsx:52 | a digit string is its own digit prefix |
| Text.DecimalValueLeadingZeros | app/archive/page.tsx:67 | leading zeros do not change the value |
| Text.TrimStartNoSpace | app/archive/page.tsx:52 | a string starting with a non-space trims to itself |
| Text.ParseUnsignedOfDigits | app/archive/page.tsx:52 | a digit string that is not a hexadecimal prefix parses to its value |
| Text.ParseIntOfIntToString | app/archive/page.tsx:52 | `parseInt(n.toString()) == n` for every integer |
| Text.ParseIntOfMinusDigits | app/archive/page.tsx:52 | a minus sign before digits parses to the negated value |
| Text.ParseIntOfMinus | app/archive/page.tsx:52 | a string whose minus sign is followed by text that parses to `v` parses to `-v` |
| Text.ParseIntOfDigits | app/archive/page.tsx:52 | a digit string parses to its value, leading zeros included |
| Text.ParseIntOfPadded | app/archive/page.tsx:67 | a zero-padded rendering of a number parses back to it |
| Json.Field | app/api/admin/comments/route.ts:55 | an object's own field, absent for anything else |
| Json.IdList | app/api/admin/comments/route.ts:68 | the ids of a list of integral numbers, and a refusal for any other list |
| Json.IdSet | app/api/admin/comments/route.ts:68 | the ids the list names |
| Database.ParseStatus | app/api/admin/comments/route.ts:13 | exactly the three enum names are statuses |
| Database.Tables.constructor | app/api/comments/route.ts:83-93 | empty, well-keyed tables over the given published posts |
| Ordering.Insert | app/api/comments/route.ts:137 | inserting into a sorted sequence keeps its elements and adds one |
| Ordering.InsertSorted | app/api/comments/route.ts:137 | inserting into a sorted sequence keeps it sorted |
| Ordering.Sort | app/api/comments/route.ts:137 | a permutation of its input |
| Ordering.SortMembers | app/api/comments/route.ts:137 | sorting neither adds nor drops an element |
| Ordering.SortedElementIn | app/api/comments/route.ts:137 | every sorted position holds an input element |
| Ordering.SortedHasElement | app/api/comments/route.ts:137 | every input element has a sorted position |
| Ordering.SortSorted | app/api/comments/route.ts:137 | the result is sorted under a total preorder |
| Ordering.SortedPairwise | app/api/comments/route.ts:137 | under a transitive order, sorted neighbours give a sorted whole |
| Ordering.HasMin | app/api/admin/comments/route.ts:16-23 | a non-empty id set has a least id |
| Ordering.Min | app/api/admin/comments/route.ts:16-23 | the least id of a non-empty set |
| Ordering.Ascending | app/api/admin/comments/route.ts:16-23 | the ids, each once, strictly ascending |
| Ordering.Rows | app/api/admin/comments/route.ts:16-23 | the rows in ascending-key order: entry `i` is the row under the `i`-th key, so each key's row appears exactly once |
| Ordering.Filter | app/api/admin/comments/route.ts:13-16 | a subsequence of the input (order kept) holding exactly the elements that pass, each as often as in the input |
| Basics.CeilDiv | app/api/admin/comments/route.ts:38 | `Math.ceil(x / d)`: the least `r` with `x <= d * r` for a positive divisor |

## Left out

- Time, the client address and randomness are inputs. `Date.now()` and `new Date()` are one `now` parameter per request; the route reads the clock twice for the retry message, and the model uses the same reading for both. The header values are options. `Math.random()` draws are a sequence of `Roll`s, so `GenerateCaptcha` returns none if they run out.
- `ContentFilter.GenerateCaptcha`: the source retries without bound; the model consumes one roll per attempt, and an infinite run of retried subtractions is not modelled.
- Lower-casing and the regex `i` flag are modelled on ASCII letters only; JavaScript folds the whole of Unicode. The listed words are Chinese apart from `QQ` and `spam`, which ASCII folding covers.
- String lengths count code points; JavaScript counts UTF-16 units. The two differ only outside the Basic Multilingual Plane.
- The email grammar of the schema (`z.string().email()`) is a parameter `isEmail`.
- Comments.ValidateComment: zod's error details in the VALIDATION_ERROR response are not modelled, only the verdict.
- Response bodies are reduced to their codes and data; the human-readable messages (Chinese text, the `成功…了 N 条评论` summaries) and HTTP status numbers are left out.
- Database access is a map per table. Concurrency between requests, transactions, and the Prisma client's internals are not modelled. The client's refusal of a non-integral id in an `in` list, of an unknown status name and of a `NaN` id is modelled as the handler's INTERNAL_ERROR. The unknown-status refusal assumes the comment `status` column is an enumeration of PENDING, APPROVED and REJECTED; the database schema is not part of this model, and on a plain string column an unknown name would instead select no rows.
- IDs are unbounded integers; the source's 32-bit `Int` columns and their overflow are not modelled.
- Text.ParseInt: yields the exact unbounded integer; JavaScript's `parseInt` yields a double, so a number past 2^53 is rounded there and not here.
- AdminComments.PageOf: `page` and `limit` are unbounded; a `skip` or `take` outside Prisma's 64-bit range makes the client throw, which the handler reports as INTERNAL_ERROR, whereas the model returns the page (and echoes the exact page number, where the source echoes the rounded double).
- Row order for equal sort keys: the model sorts stably from ascending id order; the database may break ties differently. Name order is code-point order, not the database's collation.
- AdminComments.PageOf: a negative `limit` is modelled as an INTERNAL_ERROR; the Prisma client reads a negative `take` as taking rows from the end, which the model does not capture.
- AdminComments.PageOf: the joined `post` (id, title, slug) of each comment in the admin listing is not modelled, and a `limit` of zero gives `pages` as none where JavaScript computes `Infinity` or `NaN` (both serialise to `null`).
- Taxonomy.List: the `posts` join rows included in each listed row are represented only by their count.
- Archive.GroupPosts: the dictionary keys are modelled as the year and month numbers, not as their strings. `Archive.KeysRoundTrip` proves that the strings read back as those numbers, which is all the sort and the lookups rely on. The calendar conversion of a `Date` (`getFullYear`, `getMonth` in the server's time zone) is an input: each post carries its year and month.
- The page rendering (JSX, `toLocaleDateString`, links) of the search and archive pages, and the fetch that loads the search page's posts, are left out.
- `cleanupExpiredRecords` is never scheduled by the source; the model has the operation but no timer.
