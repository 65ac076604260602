/** The search page's client-side filter over the published posts. */
module Search {
  import opened Basics
  import opened Text
  import opened Ordering

  /** The fields of a post the filter looks at. */
  datatype Post = Post(
    id: int,
    title: string,
    summary: Option<string>,
    categoryNames: seq<string>,
    tagNames: seq<string>)

  /** `names.some(n => n.toLowerCase().includes(term))`. */
  function SomeNameIncludes(names: seq<string>, term: string): (r: bool)
    ensures r <==> exists i :: 0 <= i < |names| && Contains(Lower(names[i]), term)
  {
    if names == [] then false
    else if Includes(Lower(names[0]), term) then true
    else
      var r := SomeNameIncludes(names[1..], term);
      assert forall i :: 1 <= i < |names| ==> names[i] == names[1..][i - 1];
      r
  }

  /** The filter callback: title, then summary, then category names, then
      tag names, each lower-cased and searched for `term`. */
  function Matches(post: Post, term: string): (r: bool)
    ensures r <==>
      || Contains(Lower(post.title), term)
      || (post.summary.Some? && Contains(Lower(post.summary.value), term))
      || (exists i :: 0 <= i < |post.categoryNames| && Contains(Lower(post.categoryNames[i]), term))
      || (exists i :: 0 <= i < |post.tagNames| && Contains(Lower(post.tagNames[i]), term))
  {
    if Includes(Lower(post.title), term) then true
    else if post.summary.Some? && Includes(Lower(post.summary.value), term) then true
    else if SomeNameIncludes(post.categoryNames, term) then true
    else if SomeNameIncludes(post.tagNames, term) then true
    else false
  }

  /** `posts.filter(post => Matches(post, term))`. */
  function FilterPosts(posts: seq<Post>, term: string): (r: seq<Post>)
    ensures Subsequence(r, posts)
    ensures forall p :: p in r <==> p in posts && Matches(p, term)
    ensures forall p :: multiset(r)[p] == if Matches(p, term) then multiset(posts)[p] else 0
  {
    if posts == [] then []
    else
      var rest := FilterPosts(posts[1..], term);
      assert posts == [posts[0]] + posts[1..];
      if Matches(posts[0], term) then
        assert ([posts[0]] + rest)[1..] == rest;
        [posts[0]] + rest
      else
        rest
  }

  /** `searchResults`: nothing for a blank query, otherwise the posts that
      match the lower-cased, trimmed query, in their original order. */
  function SearchResults(posts: seq<Post>, query: string): (r: seq<Post>)
    ensures Trim(query) == [] ==> r == []
    ensures Subsequence(r, posts)
    ensures Trim(query) != [] ==> forall p :: p in r <==> p in posts && Matches(p, Trim(Lower(query)))
    ensures Trim(query) != [] ==>
      forall p :: multiset(r)[p] == if Matches(p, Trim(Lower(query))) then multiset(posts)[p] else 0
  {
    if Trim(query) == [] then [] else FilterPosts(posts, Trim(Lower(query)))
  }

  /** Lower-casing neither creates nor removes spaces, so the blank test
      on the raw query agrees with the term being empty. */
  lemma BlankQueryIffEmptyTerm(query: string)
    ensures Trim(query) == [] <==> Trim(Lower(query)) == []
  {
    TrimEmptyIffAllSpace(query);
    TrimEmptyIffAllSpace(Lower(query));
    forall i | 0 <= i < |query| ensures IsSpace(Lower(query)[i]) <==> IsSpace(query[i]) {
      LowerKeepsSpaces(query[i]);
    }
  }

  lemma LowerKeepsSpaces(c: char)
    ensures IsSpace(LowerChar(c)) <==> IsSpace(c)
  {
    if 'A' <= c <= 'Z' {
      assert !IsSpace(c);
      assert 'a' <= LowerChar(c) <= 'z';
      assert !IsSpace(LowerChar(c));
    }
  }

  /** A bare post (no summary, no categories, no tags) is found exactly
      when its title contains the term. */
  lemma TitleAloneDecides(post: Post, term: string)
    requires post.summary.None? && post.categoryNames == [] && post.tagNames == []
    ensures Matches(post, term) <==> Contains(Lower(post.title), term)
  {
  }
}
