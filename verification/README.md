# Blog request logic in Dafny

A model of the request-level behaviour of a small Django blog: who may read a
post, how the post listings are filtered, ordered and paginated, how search
narrows the posts, how comments and replies are created and deleted, and the
`replace` template tag that rewrites one query-string parameter for pagination
links. The object-relational store becomes immutable values: the post table is
a sequence in its default order for the listings, and the store is a set of
maps from primary key to Post, Comment and Reply for the write path.

Modules, one per concern:

- `Results` (results.dfy): `Option`, and `Result` with the errors `NotFound` and
  `MultipleObjectsReturned`.
- `Content` (content.dfy): the records, the `Store`, the shared visibility rule
  `Visible(post, authenticated)`, referential integrity `WellFormed`, and
  `Enumerates` linking the post sequence to the post map.
- `Text` (text.dfy): `icontains` as an ASCII case-insensitive substring test,
  proved against a declarative definition of occurrence.
- `Sequences` (sequences.dfy): order-preserving `Filter` and the subsequence relation.
- `Ordering` (ordering.dfy): `order_by("-updated_at")` as a stable insertion sort.
- `Pagination` (pagination.dfy): five posts per page and the page-number rules
  of the framework's paginator.
- `Queries` (queries.dfy): the detail, list, category, tag and search views.
- `Submission` (submission.dfy): creating and deleting comments and replies.
- `QueryString` (query_string.dfy): the `replace` tag, with the query-string
  parser as the partner that reads its output back.

The model follows the code as written:

- Only the plain list view orders by `updated_at` descending. The category,
  tag and search views keep the table's default order.
- Only the detail view and search apply the visibility rule. The list,
  category and tag views return drafts as well; `CategoryQuery` and `TagQuery`
  state their results exactly, with no published filter.
- The comment and reply views do not check `name` and `text` themselves. The
  form does, from rules in `blog/models.py`, which is not part of this model.
  The form's outcome is an input: cleaned values, or a rejection.

## Model

| member | source | states |
|---|---|---|
| Text.Contains | blog/views.py:94-98 | the scan answers true exactly when the needle occurs at some offset of the text |
| Text.ContainsIgnoringCase | blog/views.py:95-97 | `icontains` holds exactly when the query occurs in the text with letters compared without ASCII case |
| Sequences.Filter | blog/views.py:54 | a queryset filter keeps exactly the rows satisfying the condition, each as often as before, as a subsequence of its input |
| Sequences.SubsequenceTransitive | blog/views.py:91-102 | filtering a filtered queryset still only narrows the original |
| Ordering.SortByRecent | blog/views.py:25-28 | the list ordering is a permutation of its input in which no post precedes a more recently updated one |
| Pagination.PageCount | blog/views.py:17 | the number of pages is exactly one for an empty list, and otherwise the least that holds all items at five per page |
| Pagination.Page | blog/views.py:23 | page k exists iff 1 <= k <= page count, holds at most five items, is the slice from (k-1)*5, is full unless last, and is NotFound otherwise |
| Pagination.PageNumber | blog/views.py:23 | no page argument means page 1, `last` means the final page, a number means that page, and only a non-numeric argument is NotFound |
| Pagination.Paginate | blog/views.py:23 | no page argument shows page 1 and `last` the final page, both always successfully; a number shows that page; other text is NotFound; a page holds at most five items of the list |
| Pagination.AllPagesJoinToItems | blog/views.py:17-23 | all pages in order concatenate back to the full list |
| Pagination.ItemOnItsPage | blog/views.py:17-23 | item i appears on page i/5+1 at position i mod 5 |
| Pagination.TwelvePostsMakeThreePages | blog/views.py:17 | twelve posts give pages of five, five and two, and page four is NotFound |
| Sequences.FilterSingle | blog/views.py:52 | a filter that keeps exactly one position yields exactly that element |
| Queries.SoleMatchFound | blog/views.py:51-52 | a slug carried by exactly one row filters to just that row |
| Queries.UniqueSlugsMatchOnce | blog/views.py:51-52 | with distinct slugs at most one row carries any slug |
| Queries.GetBySlug | blog/views.py:51-52 | a slug lookup is NotFound iff no row carries the slug; whenever exactly one row carries it the result is that row; a success is the only row with the slug; with distinct slugs it is never ambiguous |
| Queries.PostDetail | blog/views.py:34-40 | the detail view returns the stored post iff it exists and is published or the requester is signed in, and NotFound otherwise |
| Queries.DetailGuard | blog/views.py:37-40 | a draft is NotFound for anonymous readers and shown to signed-in users |
| Queries.PostList | blog/views.py:19-28 | page k of the list view is the slice from (k-1)*5 of all posts sorted newest first, served exactly when 1 <= k <= page count; no page argument gives the first five, `last` gives the final page of the newest-first list, other text is NotFound |
| Queries.ListPageIsSortedPage | blog/views.py:23-28 | page k of the list view is page k of all posts ordered newest first |
| Queries.ListPagesAreJoined | blog/views.py:23-28 | the list view's pages 1 to m, read in order, are the first m pages of the newest-first ordering |
| Queries.ListOrderIsPermutation | blog/views.py:25-28 | the list view's pages 1 to the page count, read in order, are all posts rearranged newest first |
| Queries.CategoryQuery | blog/views.py:49-54 | an unknown category slug is NotFound; otherwise exactly the posts of that category, drafts included, in base order |
| Queries.TagQuery | blog/views.py:68-73 | an unknown tag slug is NotFound; otherwise exactly the posts carrying that tag, drafts included, in base order |
| Queries.CategoryView | blog/views.py:43-60 | an unknown slug is NotFound before paging; otherwise the page is the slice at the resolved page number of the category's posts, served exactly when that number is in range, and NotFound otherwise; with unique slugs a known slug and no page argument always succeed |
| Queries.TagView | blog/views.py:62-79 | an unknown slug is NotFound before paging; otherwise the page is the slice at the resolved page number of the tagged posts, served exactly when that number is in range, and NotFound otherwise; with unique slugs a known slug and no page argument always succeed |
| Queries.MatchesQuery | blog/views.py:95-98 | a post matches iff its title or its content contains the query ignoring case |
| Queries.Search | blog/views.py:87-106 | no text filter for an absent or empty query; otherwise exactly the posts mentioning it; anonymous requesters see only published posts; the result narrows the input and the count is its length |
| Queries.SearchView | blog/views.py:81-113 | the context is the full search result with its count; the page is the slice at the resolved page number of its posts, served exactly when that number is in range; no page argument or `last` always succeeds |
| Queries.SearchAgreesWithDetail | blog/views.py:34-102 | search without a query lists a stored post exactly when its detail page is shown to the same requester |
| Submission.CreateComment | blog/views.py:119-134 | a missing post is NotFound and a rejected form writes nothing; otherwise exactly one comment linked to the post is added, nothing else changes, and the redirect goes to `post_pk` |
| Submission.CreateReply | blog/views.py:142-156 | a missing comment is NotFound and a rejected form writes nothing; otherwise exactly one reply linked to the comment is added and the redirect goes to that comment's post |
| Submission.DeleteComment | blog/views.py:159-164 | anonymous callers are sent to login with the store unchanged; otherwise only that comment is removed and the redirect goes to its post |
| Submission.DeleteReply | blog/views.py:167-174 | anonymous callers are sent to login with the store unchanged; otherwise only that reply is removed and the redirect goes to its comment's post |
| Submission.CommentCountGrowsByOne | blog/views.py:119-127 | a successful comment raises its post's comment count by one and no other post's |
| Submission.DeleteUndoesCreateComment | blog/views.py:119-164 | deleting the comment just created restores the store and redirects to the same post |
| Submission.DeleteUndoesCreateReply | blog/views.py:142-174 | deleting the reply just created restores the store and redirects to the same post |
| QueryString.Lookup | blog/templatetags/blog.py:8 | a key is absent from the dictionary exactly when lookup finds nothing |
| QueryString.SetParam | blog/templatetags/blog.py:12 | the key then maps to exactly the one value; every other key keeps its values and position; an existing key keeps its place and a new one goes last |
| QueryString.SetParamWellFormed | blog/templatetags/blog.py:12 | setting a key keeps keys distinct and value lists non-empty |
| QueryString.LookupAt | blog/templatetags/blog.py:12 | with distinct keys, the entry at any position is the one lookup returns |
| QueryString.ParseEncode | blog/templatetags/blog.py:16 | reading back a serialised query dictionary gives the same dictionary |
| QueryString.Replace | blog/templatetags/blog.py:7-16 | the returned query string reads back as the request's parameters with the key set to the single value and all other keys unchanged |
| QueryString.SetParamIdempotent | blog/templatetags/blog.py:12 | setting the same key and value twice equals setting it once |
| QueryString.ReplaceIdempotent | blog/templatetags/blog.py:7-16 | applying `replace` to the parameters its own output reads back to, with the same key and value, gives the same query string |
| QueryString.ReplacePageExample | blog/templatetags/blog.py:7-16 | `page=2&query=x` with the page set to 3 gives `page=3&query=x` |

The request's own parameter list is never modified by `replace`: the model's
values are immutable, which is what the source's `copy()` achieves.

## Left out

- The object-relational store, template rendering, URL routing and `reverse`/`redirect`: a redirect is modelled as the target post's id.
- Authentication and the login flow: "signed in" is a boolean input, and a refused deletion is the response `RedirectToLogin`.
- The GET confirmation page of the delete views: only the deleting request is modelled.
- The validation rules of the comment and reply forms, which live in `blog/models.py`, not part of this model: the form's outcome is an input. The widget placeholders of `blog/forms.py` are presentation only.
- Comment and reply timestamps, and the `post`/`comment` objects put into the form page's context (only the NotFound they can raise is modelled).
- Submission.CreateComment: requires a fresh comment id, standing for the id the database assigns on save.
- Submission.CreateReply: requires a fresh reply id, for the same reason.
- Submission.DeleteReply: requires the store's referential integrity, because following a reply to a missing comment raises an unhandled error in the source, which is not modelled.
- Submission.CreateReply: reads the owning post of the parent comment as a stored id, relying on the store's referential integrity (`WellFormed`); on a store where that post is missing the source raises an unhandled error, which is not modelled.
- Submission.DeleteComment: reads the owning post of the comment as a stored id, relying on referential integrity in the same way.
- Submission.DeleteComment: does not cascade to the comment's replies, which is the database's business; it keeps referential integrity only when no reply points at the deleted comment.
- Text.ContainsIgnoringCase: folds ASCII letters only; the database collation's Unicode case folding is not modelled.
- Ordering.SortByRecent: the database does not promise an order among posts with equal `updated_at`; the model keeps their input order.
- Pagination.PageNumber: the page argument arrives already classified as absent, `last`, a number or other text; the decimal parsing of that text is not modelled.
- Percent-encoding of the query string (application/x-www-form-urlencoded serialisation): keys and values are kept as plain strings, so `Encode` and `Parse` work on lists of pairs.
- The debug `print` calls in the `replace` tag.
