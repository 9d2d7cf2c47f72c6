/** `order_by("-updated_at")`: posts rearranged newest first. */
module Ordering {
  import opened Content

  /** No post is followed by a more recently updated one. */
  predicate NewestFirst(s: seq<Post>)
  {
    forall i, j :: 0 <= i < j < |s| ==> s[i].updatedAt >= s[j].updatedAt
  }

  /** A post no older than everything after it can head a newest-first list. */
  lemma PrependNewest(h: Post, s: seq<Post>)
    requires NewestFirst(s)
    requires forall x :: x in s ==> x.updatedAt <= h.updatedAt
    ensures NewestFirst([h] + s)
  {
  }

  /** Any stretch of a newest-first list is newest first. */
  lemma NewestFirstSlice(s: seq<Post>, lo: int, hi: int)
    requires NewestFirst(s) && 0 <= lo <= hi <= |s|
    ensures NewestFirst(s[lo..hi])
  {
  }

  /** Puts `p` in front of the first post that is not newer than it. */
  function Insert(p: Post, s: seq<Post>): (r: seq<Post>)
    requires NewestFirst(s)
    ensures NewestFirst(r)
    ensures multiset(r) == multiset(s) + multiset{p}
    decreases |s|
  {
    if s == [] || s[0].updatedAt <= p.updatedAt then
      PrependNewest(p, s);
      [p] + s
    else
      var rest := Insert(p, s[1..]);
      assert s == [s[0]] + s[1..];
      assert forall x :: x in rest ==> x.updatedAt <= s[0].updatedAt by {
        forall x | x in rest ensures x.updatedAt <= s[0].updatedAt {
          assert x in multiset(rest);
          assert x == p || x in multiset(s[1..]);
        }
      }
      PrependNewest(s[0], rest);
      [s[0]] + rest
  }

  /** Insertion sort on `updatedAt`, newest first; posts updated at the same
      instant keep their relative input order. */
  function SortByRecent(s: seq<Post>): (r: seq<Post>)
    ensures NewestFirst(r)
    ensures multiset(r) == multiset(s)
    ensures |r| == |s|
    decreases |s|
  {
    if s == [] then
      []
    else
      assert s == [s[0]] + s[1..];
      Insert(s[0], SortByRecent(s[1..]))
  }
}
