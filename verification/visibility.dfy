/** Who may see a post, and the `show` action that enforces it. */
module Visibility {
  import opened Wrappers
  import opened Posts

  /** The listing filter: published posts, plus the requester's own drafts when
      the requester is logged in. */
  predicate CanView(p: Post, requester: Option<UserId>) {
    p.isPublished || (requester.Some? && requester.value == p.authorId)
  }

  /** `show`: the post with its author summary, unless it is a draft and the
      requester is anonymous or someone else. */
  function Show(db: Db, users: Users, id: PostId, requester: Option<UserId>): (r: Outcome<Entry>)
    ensures r.Ok? || r.Forbidden? || r.NotFound?
    ensures r.NotFound? <==> id !in db.posts
    ensures r.Forbidden? <==> id in db.posts && !CanView(db.posts[id], requester)
    ensures r.Ok? ==> r.value.id == id && r.value.post == db.posts[id]
                      && r.value.user == AuthorOf(users, db.posts[id])
  {
    if id !in db.posts then NotFound
    else
      var blog := db.posts[id];
      if !blog.isPublished && (requester.None? || requester.value != blog.authorId) then Forbidden
      else Ok(Entry(id, blog, AuthorOf(users, blog)))
  }

  /** The author can always read their own post, draft or not. */
  lemma AuthorCanAlwaysRead(db: Db, users: Users, id: PostId)
    requires id in db.posts
    ensures Show(db, users, id, Some(db.posts[id].authorId)).Ok?
  {
  }

  /** Nobody but the author reads a draft; in particular an anonymous requester never does. */
  lemma DraftIsPrivate(db: Db, users: Users, id: PostId, requester: Option<UserId>)
    requires id in db.posts && !db.posts[id].isPublished
    ensures Show(db, users, id, requester).Ok? <==> requester == Some(db.posts[id].authorId)
  {
  }
}
