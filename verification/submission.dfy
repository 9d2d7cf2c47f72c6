/** The write path: creating comments and replies, and the signed-in-only
    deletion of either, as transitions of the store. */
module Submission {
  import opened Content

  /** What the comment form delivered: cleaned `name` and `text`, or a
      rejection with field errors. */
  datatype Form = Cleaned(name: string, text: string) | Rejected

  /** The response to a write request. */
  datatype Response =
    | RedirectToPost(pk: PostId)   // to the detail page of that post
    | FormWithErrors               // the form shown again, nothing written
    | NotFoundPage
    | RedirectToLogin

  /** The store after the request together with the response sent. */
  datatype Handled = Handled(store: Store, response: Response)

  /** Ids of the comments attached to post `pk`. */
  function CommentsOn(s: Store, pk: PostId): set<CommentId>
  {
    set k | k in s.comments && s.comments[k].post == pk
  }

  /** `CommentCreateView`: the parent post is resolved on every path (the form
      page needs it too), so a missing post is NotFound whatever the form holds.
      A rejected form writes nothing; a cleaned one stores one comment under the
      fresh id the database hands out and redirects to the post. */
  function CreateComment(s: Store, postPk: PostId, form: Form, newId: CommentId): (h: Handled)
    requires newId !in s.comments
    ensures postPk !in s.posts ==> h == Handled(s, NotFoundPage)
    ensures postPk in s.posts && form.Rejected? ==> h == Handled(s, FormWithErrors)
    ensures h.response.RedirectToPost? <==> postPk in s.posts && form.Cleaned?
    ensures h.response.RedirectToPost? ==>
      && h.response.pk == postPk
      && h.store.posts == s.posts && h.store.replies == s.replies
      && h.store.comments.Keys == s.comments.Keys + {newId}
      && (forall k :: k in s.comments ==> h.store.comments[k] == s.comments[k])
      && h.store.comments[newId] == Comment(form.name, form.text, postPk)
    ensures !h.response.RedirectToPost? ==> h.store == s
    ensures WellFormed(s) ==> WellFormed(h.store)
  {
    if postPk !in s.posts then
      Handled(s, NotFoundPage)
    else
      match form
      case Rejected => Handled(s, FormWithErrors)
      case Cleaned(name, text) =>
        var comment := Comment(name, text, postPk);
        Handled(s.(comments := s.comments[newId := comment]), RedirectToPost(postPk))
  }

  /** `ReplyCreateView`: as for comments, with the parent comment resolved
      first; the redirect goes to the post that comment belongs to. */
  function CreateReply(s: Store, commentPk: CommentId, form: Form, newId: ReplyId): (h: Handled)
    requires newId !in s.replies
    ensures commentPk !in s.comments ==> h == Handled(s, NotFoundPage)
    ensures commentPk in s.comments && form.Rejected? ==> h == Handled(s, FormWithErrors)
    ensures h.response.RedirectToPost? <==> commentPk in s.comments && form.Cleaned?
    ensures h.response.RedirectToPost? ==>
      && h.response.pk == s.comments[commentPk].post
      && h.store.posts == s.posts && h.store.comments == s.comments
      && h.store.replies.Keys == s.replies.Keys + {newId}
      && (forall k :: k in s.replies ==> h.store.replies[k] == s.replies[k])
      && h.store.replies[newId] == Reply(form.name, form.text, commentPk)
    ensures !h.response.RedirectToPost? ==> h.store == s
    ensures WellFormed(s) ==> WellFormed(h.store)
  {
    if commentPk !in s.comments then
      Handled(s, NotFoundPage)
    else
      match form
      case Rejected => Handled(s, FormWithErrors)
      case Cleaned(name, text) =>
        var comment := s.comments[commentPk];
        var reply := Reply(name, text, commentPk);
        Handled(s.(replies := s.replies[newId := reply]), RedirectToPost(comment.post))
  }

  /** `CommentDeleteView`: signed-in users only. The post to return to is read
      from the comment before it is removed; only that comment goes. */
  function DeleteComment(s: Store, authenticated: bool, pk: CommentId): (h: Handled)
    ensures !authenticated ==> h == Handled(s, RedirectToLogin)
    ensures authenticated && pk !in s.comments ==> h == Handled(s, NotFoundPage)
    ensures h.response.RedirectToPost? <==> authenticated && pk in s.comments
    ensures h.response.RedirectToPost? ==>
      && h.response.pk == s.comments[pk].post
      && h.store.posts == s.posts && h.store.replies == s.replies
      && h.store.comments.Keys == s.comments.Keys - {pk}
      && (forall k :: k in h.store.comments ==> h.store.comments[k] == s.comments[k])
    ensures !h.response.RedirectToPost? ==> h.store == s
    ensures WellFormed(s) && (forall r :: r in s.replies ==> s.replies[r].comment != pk) ==> WellFormed(h.store)
  {
    if !authenticated then
      Handled(s, RedirectToLogin)
    else if pk !in s.comments then
      Handled(s, NotFoundPage)
    else
      var target := s.comments[pk].post;
      Handled(s.(comments := s.comments - {pk}), RedirectToPost(target))
  }

  /** `ReplyDeleteView`: signed-in users only. The redirect follows the reply to
      its comment and on to that comment's post, before the reply is removed. */
  function DeleteReply(s: Store, authenticated: bool, pk: ReplyId): (h: Handled)
    requires WellFormed(s)
    ensures !authenticated ==> h == Handled(s, RedirectToLogin)
    ensures authenticated && pk !in s.replies ==> h == Handled(s, NotFoundPage)
    ensures h.response.RedirectToPost? <==> authenticated && pk in s.replies
    ensures h.response.RedirectToPost? ==>
      && h.response.pk == s.comments[s.replies[pk].comment].post
      && h.store.posts == s.posts && h.store.comments == s.comments
      && h.store.replies.Keys == s.replies.Keys - {pk}
      && (forall k :: k in h.store.replies ==> h.store.replies[k] == s.replies[k])
    ensures !h.response.RedirectToPost? ==> h.store == s
    ensures WellFormed(h.store)
  {
    if !authenticated then
      Handled(s, RedirectToLogin)
    else if pk !in s.replies then
      Handled(s, NotFoundPage)
    else
      var target := s.comments[s.replies[pk].comment].post;
      Handled(s.(replies := s.replies - {pk}), RedirectToPost(target))
  }

  /** A successful comment adds exactly one to its post's comment count and
      leaves every other post's count alone. */
  lemma CommentCountGrowsByOne(s: Store, postPk: PostId, form: Form, newId: CommentId, other: PostId)
    requires newId !in s.comments
    requires postPk in s.posts && form.Cleaned?
    requires other != postPk
    ensures |CommentsOn(CreateComment(s, postPk, form, newId).store, postPk)| == |CommentsOn(s, postPk)| + 1
    ensures CommentsOn(CreateComment(s, postPk, form, newId).store, other) == CommentsOn(s, other)
  {
    var t := CreateComment(s, postPk, form, newId).store;
    assert CommentsOn(t, postPk) == CommentsOn(s, postPk) + {newId};
  }

  /** A signed-in user who deletes the comment just created gets back the
      store as it was, and is sent to the same post. */
  lemma DeleteUndoesCreateComment(s: Store, postPk: PostId, form: Form, newId: CommentId)
    requires newId !in s.comments
    requires postPk in s.posts && form.Cleaned?
    ensures var created := CreateComment(s, postPk, form, newId);
      var deleted := DeleteComment(created.store, true, newId);
      deleted.store == s && deleted.response == created.response
  {
  }

  /** The same round trip for replies. */
  lemma DeleteUndoesCreateReply(s: Store, commentPk: CommentId, form: Form, newId: ReplyId)
    requires WellFormed(s)
    requires newId !in s.replies
    requires commentPk in s.comments && form.Cleaned?
    ensures var created := CreateReply(s, commentPk, form, newId);
      var deleted := DeleteReply(created.store, true, newId);
      deleted.store == s && deleted.response == created.response
  {
  }
}
