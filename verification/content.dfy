/** The blog's content model: posts, their categories and tags, and the
    two-level comment/reply thread attached to a post. */
module Content {

  type PostId = nat
  type CategoryId = nat
  type TagId = nat
  type CommentId = nat
  type ReplyId = nat

  /** A blog article. It belongs to exactly one category and carries a set of tags. */
  datatype Post = Post(
    id: PostId,
    title: string,
    content: string,
    isPublished: bool,
    updatedAt: int,
    category: CategoryId,
    tags: set<TagId>)

  datatype Category = Category(id: CategoryId, slug: string, name: string)

  datatype Tag = Tag(id: TagId, slug: string, name: string)

  /** First-level reader feedback, owned by the post it points to. */
  datatype Comment = Comment(name: string, text: string, post: PostId)

  /** Second-level feedback, owned by the comment it points to. */
  datatype Reply = Reply(name: string, text: string, comment: CommentId)

  /** The one visibility rule of the blog: anonymous readers see published
      posts only, signed-in users see every post. */
  predicate Visible(p: Post, authenticated: bool)
  {
    p.isPublished || authenticated
  }

  /** The persistent tables, each keyed by primary key. */
  datatype Store = Store(
    posts: map<PostId, Post>,
    comments: map<CommentId, Comment>,
    replies: map<ReplyId, Reply>)

  /** Referential integrity the database keeps: each post is stored under its
      own id, every comment points at an existing post and every reply at an
      existing comment. */
  predicate WellFormed(s: Store)
  {
    && (forall k :: k in s.posts ==> s.posts[k].id == k)
    && (forall k :: k in s.comments ==> s.comments[k].post in s.posts)
    && (forall k :: k in s.replies ==> s.replies[k].comment in s.comments)
  }

  /** `all` lists the post table in its default order: every stored post
      exactly once and nothing else. */
  predicate Enumerates(all: seq<Post>, posts: map<PostId, Post>)
  {
    && (forall i, j :: 0 <= i < j < |all| ==> all[i].id != all[j].id)
    && (forall i :: 0 <= i < |all| ==> all[i].id in posts && posts[all[i].id] == all[i])
    && (forall k :: k in posts ==> posts[k] in all)
  }
}
