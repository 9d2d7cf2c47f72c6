/** The read path of the blog: post detail, the four post listings and search. */
module Queries {
  import opened Results
  import opened Content
  import opened Text
  import opened Sequences
  import opened Ordering
  import opened Pagination

  /** No two rows share a slug. */
  predicate SlugsUnique<T>(rows: seq<T>, slugOf: T -> string)
  {
    forall i, j :: 0 <= i < j < |rows| ==> slugOf(rows[i]) != slugOf(rows[j])
  }

  /** Row `i` is the only row carrying `slug`. */
  ghost predicate SoleMatch<T>(rows: seq<T>, slugOf: T -> string, slug: string, i: int)
  {
    && 0 <= i < |rows| && slugOf(rows[i]) == slug
    && forall j :: 0 <= j < |rows| && j != i ==> slugOf(rows[j]) != slug
  }

  /** Looking up a slug that exactly one row carries finds just that row. */
  lemma SoleMatchFound<T(!new)>(rows: seq<T>, slugOf: T -> string, slug: string, keep: T -> bool)
    requires forall x :: keep(x) <==> slugOf(x) == slug
    ensures forall i :: SoleMatch(rows, slugOf, slug, i) ==> Filter(rows, keep) == [rows[i]]
  {
    forall i | SoleMatch(rows, slugOf, slug, i) ensures Filter(rows, keep) == [rows[i]] {
      FilterSingle(rows, keep, i);
    }
  }

  /** With distinct slugs at most one row carries any given slug. */
  lemma UniqueSlugsMatchOnce<T(!new)>(rows: seq<T>, slugOf: T -> string, slug: string, keep: T -> bool)
    requires forall x :: keep(x) <==> slugOf(x) == slug
    ensures SlugsUnique(rows, slugOf) ==> |Filter(rows, keep)| <= 1
  {
    if SlugsUnique(rows, slugOf) {
      if i :| 0 <= i < |rows| && slugOf(rows[i]) == slug {
        forall j | 0 <= j < |rows| && j != i ensures slugOf(rows[j]) != slug {
          if j < i {
            assert slugOf(rows[j]) != slugOf(rows[i]);
          } else {
            assert slugOf(rows[i]) != slugOf(rows[j]);
          }
        }
        assert SoleMatch(rows, slugOf, slug, i);
        SoleMatchFound(rows, slugOf, slug, keep);
      } else {
        FilterNone(rows, keep);
      }
    }
  }

  /** `get_object_or_404(Model, slug=slug)`: the one row carrying `slug`;
      NotFound when there is none, MultipleObjectsReturned when there are several. */
  function GetBySlug<T(==,!new)>(rows: seq<T>, slugOf: T -> string, slug: string): (r: Result<T>)
    ensures r == Err(NotFound) <==> forall x :: x in rows ==> slugOf(x) != slug
    ensures r.Ok? ==> r.value in rows && slugOf(r.value) == slug
    ensures r.Ok? ==> forall x :: x in rows && slugOf(x) == slug ==> x == r.value
    ensures forall i :: SoleMatch(rows, slugOf, slug, i) ==> r == Ok(rows[i])
    ensures SlugsUnique(rows, slugOf) ==> r != Err(MultipleObjectsReturned)
  {
    var keep := x => slugOf(x) == slug;
    var found := Filter(rows, keep);
    UniqueSlugsMatchOnce(rows, slugOf, slug, keep);
    SoleMatchFound(rows, slugOf, slug, keep);
    if |found| == 0 then
      Err(NotFound)
    else if |found| == 1 then
      assert forall x :: x in found ==> x == found[0];
      Ok(found[0])
    else
      assert found[0] in rows;
      Err(MultipleObjectsReturned)
  }

  /** `PostDetailView.get_object`: the post with primary key `pk`, shown only when
      it is published or the requester is signed in; NotFound otherwise. */
  function PostDetail(posts: map<PostId, Post>, pk: PostId, authenticated: bool): (r: Result<Post>)
    ensures r.Ok? <==> pk in posts && Visible(posts[pk], authenticated)
    ensures r.Ok? ==> r.value == posts[pk]
    ensures r.Err? ==> r.error == NotFound
  {
    if pk !in posts then
      Err(NotFound)
    else
      var post := posts[pk];
      if post.isPublished || authenticated then Ok(post) else Err(NotFound)
  }

  /** A draft is hidden from anonymous readers and shown to signed-in users,
      whatever its other fields hold. */
  lemma DetailGuard(posts: map<PostId, Post>, pk: PostId)
    requires pk in posts && !posts[pk].isPublished
    ensures PostDetail(posts, pk, false) == Err(NotFound)
    ensures PostDetail(posts, pk, true) == Ok(posts[pk])
  {
  }

  /** `PostListView`: all posts newest first, then the requested page. */
  function PostList(all: seq<Post>, arg: PageArg): (r: Result<seq<Post>>)
    ensures r.Ok? ==> NewestFirst(r.value) && |r.value| <= PostsPerPage
    ensures r.Ok? ==> forall p :: p in r.value ==> p in all
    ensures r.Err? ==> r.error == NotFound
    ensures arg.Absent? ==> r == Ok(SortByRecent(all)[..Min(PostsPerPage, |all|)])
    ensures arg.Last? ==> r.Ok? && r == Page(SortByRecent(all), PageCount(|all|))
    ensures arg.Malformed? ==> r == Err(NotFound)
    ensures arg.Number? ==> (r.Ok? <==> 1 <= arg.n <= PageCount(|all|))
    ensures arg.Number? && r.Ok? ==>
      r.value == SortByRecent(all)[(arg.n - 1) * PostsPerPage .. Min(arg.n * PostsPerPage, |all|)]
  {
    var sorted := SortByRecent(all);
    var r := Paginate(sorted, arg);
    if r.Ok? then
      var k := PageNumber(arg, |sorted|).value;
      assert r.value == sorted[(k - 1) * PostsPerPage .. Min(k * PostsPerPage, |sorted|)];
      NewestFirstSlice(sorted, (k - 1) * PostsPerPage, Min(k * PostsPerPage, |sorted|));
      assert forall p :: p in r.value ==> p in all by {
        forall p | p in r.value ensures p in all {
          assert p in multiset(sorted);
        }
      }
      r
    else
      r
  }

  /** The pages the list view serves for page numbers 1 to `m`, one after another. */
  ghost function ListPages(all: seq<Post>, m: nat): seq<Post>
    requires m <= PageCount(|all|)
  {
    if m == 0 then [] else ListPages(all, m - 1) + PostList(all, Number(m)).value
  }

  lemma {:induction false} ListPagesAreJoined(all: seq<Post>, m: nat)
    requires m <= PageCount(|all|)
    ensures ListPages(all, m) == Joined(SortByRecent(all), m)
  {
    if m > 0 {
      var sorted := SortByRecent(all);
      ListPagesAreJoined(all, m - 1);
      ListPageIsSortedPage(all, m);
      assert ListPages(all, m) == ListPages(all, m - 1) + PostList(all, Number(m)).value;
      assert Joined(sorted, m) == Joined(sorted, m - 1) + Page(sorted, m).value;
    }
  }

  lemma ListPageIsSortedPage(all: seq<Post>, k: int)
    requires 1 <= k <= PageCount(|all|)
    ensures PostList(all, Number(k)) == Page(SortByRecent(all), k)
  {
  }

  /** The list view loses and invents nothing: its pages, read in order, are
      all posts rearranged newest first. */
  lemma ListOrderIsPermutation(all: seq<Post>)
    ensures var shown := ListPages(all, PageCount(|all|));
      && multiset(shown) == multiset(all)
      && NewestFirst(shown)
  {
    ListPagesAreJoined(all, PageCount(|all|));
    AllPagesJoinToItems(SortByRecent(all));
  }

  /** `CategoryPostListView.get_queryset`: resolves the category slug, then keeps
      the posts of that category in their base order. Drafts are not removed. */
  function CategoryQuery(all: seq<Post>, categories: seq<Category>, slug: string): (r: Result<(Category, seq<Post>)>)
    ensures r == Err(NotFound) <==> forall c :: c in categories ==> c.slug != slug
    ensures SlugsUnique(categories, (c: Category) => c.slug) ==> r.Ok? || r == Err(NotFound)
    ensures r.Ok? ==> r.value.0 in categories && r.value.0.slug == slug
    ensures r.Ok? ==> IsSubsequence(r.value.1, all)
    ensures r.Ok? ==> forall p :: multiset(r.value.1)[p] == if p.category == r.value.0.id then multiset(all)[p] else 0
  {
    match GetBySlug(categories, (c: Category) => c.slug, slug)
    case Err(e) => Err(e)
    case Ok(category) => Ok((category, Filter(all, (p: Post) => p.category == category.id)))
  }

  /** `TagPostListView.get_queryset`: resolves the tag slug, then keeps the posts
      carrying that tag in their base order. Drafts are not removed. */
  function TagQuery(all: seq<Post>, tags: seq<Tag>, slug: string): (r: Result<(Tag, seq<Post>)>)
    ensures r == Err(NotFound) <==> forall t :: t in tags ==> t.slug != slug
    ensures SlugsUnique(tags, (t: Tag) => t.slug) ==> r.Ok? || r == Err(NotFound)
    ensures r.Ok? ==> r.value.0 in tags && r.value.0.slug == slug
    ensures r.Ok? ==> IsSubsequence(r.value.1, all)
    ensures r.Ok? ==> forall p :: multiset(r.value.1)[p] == if r.value.0.id in p.tags then multiset(all)[p] else 0
  {
    match GetBySlug(tags, (t: Tag) => t.slug, slug)
    case Err(e) => Err(e)
    case Ok(tag) => Ok((tag, Filter(all, (p: Post) => tag.id in p.tags)))
  }

  /** The category listing as rendered: the slug is resolved before the page
      number is looked at, and the page is cut from the category's posts. */
  function CategoryView(all: seq<Post>, categories: seq<Category>, slug: string, arg: PageArg)
    : (r: Result<(Category, seq<Post>)>)
    ensures (forall c :: c in categories ==> c.slug != slug) ==> r == Err(NotFound)
    ensures r.Ok? ==> r.value.0.slug == slug && |r.value.1| <= PostsPerPage
    ensures r.Ok? ==> forall p :: p in r.value.1 ==> p in all && p.category == r.value.0.id
    ensures var q := CategoryQuery(all, categories, slug);
      q.Err? ==> r == Err(q.error)
    ensures var q := CategoryQuery(all, categories, slug);
      q.Ok? && arg.Malformed? ==> r == Err(NotFound)
    ensures CategoryQuery(all, categories, slug).Ok? && r.Err? ==> r.error == NotFound
    ensures var q := CategoryQuery(all, categories, slug);
      q.Ok? && !arg.Malformed? ==>
        var posts := q.value.1;
        var k := PageNumber(arg, |posts|).value;
        && (r.Ok? <==> 1 <= k <= PageCount(|posts|))
        && (r.Ok? ==> r.value == (q.value.0, posts[(k - 1) * PostsPerPage .. Min(k * PostsPerPage, |posts|)]))
    ensures (SlugsUnique(categories, (c: Category) => c.slug) && (exists c :: c in categories && c.slug == slug)
      && arg.Absent?) ==> r.Ok?
  {
    match CategoryQuery(all, categories, slug)
    case Err(e) => Err(e)
    case Ok((category, posts)) =>
      match Paginate(posts, arg)
      case Err(e) => Err(e)
      case Ok(page) => Ok((category, page))
  }

  /** The tag listing as rendered: the slug is resolved before the page number
      is looked at, and the page is cut from the tag's posts. */
  function TagView(all: seq<Post>, tags: seq<Tag>, slug: string, arg: PageArg)
    : (r: Result<(Tag, seq<Post>)>)
    ensures (forall t :: t in tags ==> t.slug != slug) ==> r == Err(NotFound)
    ensures r.Ok? ==> r.value.0.slug == slug && |r.value.1| <= PostsPerPage
    ensures r.Ok? ==> forall p :: p in r.value.1 ==> p in all && r.value.0.id in p.tags
    ensures var q := TagQuery(all, tags, slug);
      q.Err? ==> r == Err(q.error)
    ensures var q := TagQuery(all, tags, slug);
      q.Ok? && arg.Malformed? ==> r == Err(NotFound)
    ensures TagQuery(all, tags, slug).Ok? && r.Err? ==> r.error == NotFound
    ensures var q := TagQuery(all, tags, slug);
      q.Ok? && !arg.Malformed? ==>
        var posts := q.value.1;
        var k := PageNumber(arg, |posts|).value;
        && (r.Ok? <==> 1 <= k <= PageCount(|posts|))
        && (r.Ok? ==> r.value == (q.value.0, posts[(k - 1) * PostsPerPage .. Min(k * PostsPerPage, |posts|)]))
    ensures (SlugsUnique(tags, (t: Tag) => t.slug) && (exists t :: t in tags && t.slug == slug)
      && arg.Absent?) ==> r.Ok?
  {
    match TagQuery(all, tags, slug)
    case Err(e) => Err(e)
    case Ok((tag, posts)) =>
      match Paginate(posts, arg)
      case Err(e) => Err(e)
      case Ok(page) => Ok((tag, page))
  }

  /** The search view's context: the query it used, the matching posts and their count. */
  datatype SearchResult = SearchResult(query: string, posts: seq<Post>, postCount: nat)

  /** The title or the body mentions `q`, ignoring case. */
  ghost predicate Mentions(p: Post, q: string)
  {
    IsSubstringIgnoringCase(q, p.title) || IsSubstringIgnoringCase(q, p.content)
  }

  /** `Q(title__icontains=q) | Q(content__icontains=q)` for one post. */
  function MatchesQuery(p: Post, q: string): (b: bool)
    ensures b <==> Mentions(p, q)
  {
    ContainsIgnoringCase(p.title, q) || ContainsIgnoringCase(p.content, q)
  }

  /** Whether search keeps `p`: a non-empty query must be mentioned, and the
      requester must be allowed to see the post. */
  ghost predicate SearchKeeps(p: Post, q: string, authenticated: bool)
  {
    (q == "" || Mentions(p, q)) && Visible(p, authenticated)
  }

  /** `SearchPostListView.get_queryset`: an absent or empty query applies no text
      filter; a non-empty one keeps the posts mentioning it; anonymous requesters
      then see only published posts. The count is that of the final list. */
  function Search(all: seq<Post>, query: Option<string>, authenticated: bool): (r: SearchResult)
    ensures r.query == (if query.Some? then query.value else "")
    ensures IsSubsequence(r.posts, all)
    ensures forall p :: multiset(r.posts)[p] == if SearchKeeps(p, r.query, authenticated) then multiset(all)[p] else 0
    ensures forall p :: p in r.posts <==> p in all && SearchKeeps(p, r.query, authenticated)
    ensures !authenticated ==> forall p :: p in r.posts ==> p.isPublished
    ensures r.query == "" && authenticated ==> r.posts == all
    ensures r.postCount == |r.posts|
  {
    var q := if query.Some? && query.value != "" then query.value else "";
    var matched := if q != "" then Filter(all, (p: Post) => MatchesQuery(p, q)) else all;
    SubsequenceReflexive(all);
    var shown := if !authenticated then Filter(matched, (p: Post) => p.isPublished) else matched;
    SubsequenceReflexive(matched);
    SubsequenceTransitive(shown, matched, all);
    SearchResult(q, shown, |shown|)
  }

  /** The search listing as rendered: the filtered posts with their count,
      then the requested page of them. */
  function SearchView(all: seq<Post>, query: Option<string>, authenticated: bool, arg: PageArg)
    : (r: Result<(SearchResult, seq<Post>)>)
    ensures r.Ok? ==> |r.value.1| <= PostsPerPage && r.value.0.postCount == |r.value.0.posts|
    ensures r.Ok? ==> forall p :: p in r.value.1 ==> p in all && Visible(p, authenticated)
    ensures r.Err? ==> r.error == NotFound
    ensures r.Ok? ==> r.value.0 == Search(all, query, authenticated)
    ensures arg.Absent? || arg.Last? ==> r.Ok?
    ensures arg.Malformed? ==> r == Err(NotFound)
    ensures !arg.Malformed? ==>
      var posts := Search(all, query, authenticated).posts;
      var k := PageNumber(arg, |posts|).value;
      && (r.Ok? <==> 1 <= k <= PageCount(|posts|))
      && (r.Ok? ==> r.value.1 == posts[(k - 1) * PostsPerPage .. Min(k * PostsPerPage, |posts|)])
  {
    var result := Search(all, query, authenticated);
    match Paginate(result.posts, arg)
    case Err(e) => Err(e)
    case Ok(page) => Ok((result, page))
  }

  /** Detail and search apply the same visibility rule: with no query, search
      lists a stored post exactly when its detail page can be shown. */
  lemma SearchAgreesWithDetail(all: seq<Post>, posts: map<PostId, Post>, pk: PostId, authenticated: bool)
    requires Enumerates(all, posts)
    requires pk in posts
    ensures posts[pk] in Search(all, None, authenticated).posts <==> PostDetail(posts, pk, authenticated).Ok?
  {
  }
}
