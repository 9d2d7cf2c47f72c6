/** Fixed-size pagination of a list view: `paginate_by = posts_per_page`
    handed to the framework's paginator. */
module Pagination {
  import opened Results

  /** `posts_per_page`: every list view shows five posts per page. */
  const PostsPerPage: nat := 5

  /** The page the request asks for: nothing, the word `last`, a whole number,
      or any other text. */
  datatype PageArg = Absent | Last | Number(n: int) | Malformed

  function Min(a: int, b: int): int
  {
    if a <= b then a else b
  }

  /** Number of pages for `n` items. An empty list still has one (empty) page. */
  function PageCount(n: nat): (c: nat)
    ensures c >= 1
    ensures n <= c * PostsPerPage
    ensures c == 1 || (c - 1) * PostsPerPage < n
  {
    if n == 0 then 1 else (n + PostsPerPage - 1) / PostsPerPage
  }

  /** Page `k` (counted from 1) of `items`, or NotFound when `k` is out of range. */
  function Page<T>(items: seq<T>, k: int): (r: Result<seq<T>>)
    ensures r.Ok? <==> 1 <= k <= PageCount(|items|)
    ensures r.Err? ==> r.error == NotFound
    ensures r.Ok? ==> |r.value| <= PostsPerPage
    ensures r.Ok? ==> r.value == items[(k - 1) * PostsPerPage .. Min(k * PostsPerPage, |items|)]
    ensures r.Ok? && k < PageCount(|items|) ==> |r.value| == PostsPerPage
    ensures r.Ok? && |items| > 0 ==> |r.value| > 0
  {
    if 1 <= k <= PageCount(|items|) then
      Ok(items[(k - 1) * PostsPerPage .. Min(k * PostsPerPage, |items|)])
    else
      Err(NotFound)
  }

  /** The page number a request resolves to: page 1 when none is given,
      the last page for `last`, NotFound for text that is not a number. */
  function PageNumber(arg: PageArg, count: nat): (r: Result<int>)
    ensures r.Err? <==> arg.Malformed?
    ensures arg.Absent? ==> r == Ok(1)
    ensures arg.Last? ==> r == Ok(PageCount(count))
    ensures arg.Number? ==> r == Ok(arg.n)
    ensures arg.Malformed? ==> r == Err(NotFound)
  {
    match arg
    case Absent => Ok(1)
    case Last => Ok(PageCount(count))
    case Number(n) => Ok(n)
    case Malformed => Err(NotFound)
  }

  /** The page of `items` a list view renders for the request's page argument. */
  function Paginate<T>(items: seq<T>, arg: PageArg): (r: Result<seq<T>>)
    ensures r.Ok? ==> |r.value| <= PostsPerPage
    ensures r.Ok? ==> forall x :: x in r.value ==> x in items
    ensures arg.Absent? ==> r.Ok? && r == Page(items, 1)
    ensures arg.Last? ==> r.Ok? && r == Page(items, PageCount(|items|))
    ensures arg.Number? ==> r == Page(items, arg.n)
    ensures arg.Malformed? ==> r == Err(NotFound)
  {
    match PageNumber(arg, |items|)
    case Ok(k) => Page(items, k)
    case Err(e) => Err(e)
  }

  /** Pages 1 to `m` written one after another. */
  ghost function Joined<T>(items: seq<T>, m: nat): seq<T>
    requires m <= PageCount(|items|)
  {
    if m == 0 then [] else Joined(items, m - 1) + Page(items, m).value
  }

  lemma {:induction false} JoinedIsPrefix<T>(items: seq<T>, m: nat)
    requires m <= PageCount(|items|)
    ensures Joined(items, m) == items[..Min(m * PostsPerPage, |items|)]
  {
    if m > 0 {
      JoinedIsPrefix(items, m - 1);
      var lo := (m - 1) * PostsPerPage;
      var hi := Min(m * PostsPerPage, |items|);
      assert lo <= |items| by {
        if |items| > 0 { assert (PageCount(|items|) - 1) * PostsPerPage < |items|; }
      }
      assert items[..lo] + items[lo..hi] == items[..hi];
    }
  }

  /** No post is lost or repeated by pagination: all pages in order give back the list. */
  lemma AllPagesJoinToItems<T>(items: seq<T>)
    ensures Joined(items, PageCount(|items|)) == items
  {
    JoinedIsPrefix(items, PageCount(|items|));
    assert items[..|items|] == items;
  }

  /** The item at index `i` is shown on page `i / 5 + 1`, at position `i % 5`. */
  lemma ItemOnItsPage<T>(items: seq<T>, i: nat)
    requires i < |items|
    ensures Page(items, i / PostsPerPage + 1).Ok?
    ensures Page(items, i / PostsPerPage + 1).value[i % PostsPerPage] == items[i]
  {
  }

  /** Twelve posts make three pages of five, five and two; page 4 is NotFound. */
  lemma TwelvePostsMakeThreePages<T>(items: seq<T>)
    requires |items| == 12
    ensures PageCount(|items|) == 3
    ensures |Page(items, 1).value| == 5 && |Page(items, 2).value| == 5 && |Page(items, 3).value| == 2
    ensures Page(items, 4) == Err(NotFound)
  {
  }
}
