/** Data model of the blog backend: posts, the blogs table, request bodies and
    the outcomes a controller action can produce. */
module Posts {
  import opened Wrappers

  type UserId = nat
  type PostId = nat
  /** A point on the server clock. The model never reads a clock: every action
      that stamps a time receives it as a `now` parameter. */
  type Time = nat

  /** One row of the blogs table (`updated_at` is not modelled). */
  datatype Post = Post(
    title: string,
    content: string,
    isPublished: bool,
    publishedAt: Option<Time>,
    authorId: UserId,
    createdAt: Time)

  /** The blogs table: rows by primary key, and the table's auto-increment
      counter, which never hands out a key twice. */
  datatype Db = Db(posts: map<PostId, Post>, nextId: PostId)

  /** The users table, reduced to what `with('user:id,name')` loads. */
  type Users = map<UserId, string>

  /** The `{id, name}` author summary eager-loaded with a post. */
  datatype Author = Author(id: UserId, name: string)

  /** A post as `index` and `show` return it: the row and its author summary
      (null when the author's row is missing). */
  datatype Entry = Entry(id: PostId, post: Post, user: Option<Author>)

  /** A post as `store` and `update` return it: the row without its author. */
  datatype Row = Row(id: PostId, post: Post)

  /** The request fields that carry validation rules; `None` is an absent key. */
  datatype Payload = Payload(title: Option<string>, content: Option<string>, isPublished: Option<bool>)

  /** The fields a validation error can name. */
  datatype Field = Title | Content

  /** What an action answers: 200/201/204 (`Ok`), 403, 404, 422 with the failing
      fields, or 500 when the action throws. */
  datatype Outcome<+T> = Ok(value: T) | Forbidden | NotFound | Invalid(fields: set<Field>) | ServerError

  /** The table after an action, and the action's answer. */
  datatype Step<+T> = Step(db: Db, outcome: Outcome<T>)

  /** Every key in the table was handed out by the auto-increment counter. */
  predicate WellFormed(db: Db) {
    forall id :: id in db.posts ==> id < db.nextId
  }

  /** A post carries a publication time exactly when it is published. */
  predicate Consistent(p: Post) {
    p.isPublished <==> p.publishedAt.Some?
  }

  predicate AllConsistent(db: Db) {
    forall id :: id in db.posts ==> Consistent(db.posts[id])
  }

  /** The eager-loaded author of `p`. */
  function AuthorOf(users: Users, p: Post): (a: Option<Author>)
    ensures a.Some? <==> p.authorId in users
    ensures a.Some? ==> a.value.id == p.authorId && a.value.name == users[p.authorId]
  {
    if p.authorId in users then Some(Author(p.authorId, users[p.authorId])) else None
  }
}
