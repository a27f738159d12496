/** The writing actions `store`, `update` and `destroy`. All three sit behind
    the token guard, so the requester is always a user. */
module Writes {
  import opened Wrappers
  import opened Posts
  import opened Validation

  /** `published_at` when a post ends up with flag `published`: the time it
      already had, or `now` if it had none; cleared when unpublished. */
  function Stamp(published: bool, current: Option<Time>, now: Time): (t: Option<Time>)
    ensures t.Some? <==> published
    ensures published && current.Some? ==> t == current
    ensures published && current.None? ==> t == Some(now)
  {
    if published then Some(current.GetOr(now)) else None
  }

  /** `store`: validates the body, then files a new post under the requester
      with the next key. An absent flag means a draft. */
  function Store(db: Db, user: UserId, payload: Payload, now: Time): (s: Step<Row>)
    ensures s.outcome.Ok? || s.outcome.Invalid?
    ensures s.outcome.Ok? <==> TitleAccepted(payload.title) && ContentAccepted(payload.content)
    ensures s.outcome.Invalid? ==> s.db == db && s.outcome.fields == Validate(payload).fields
    ensures s.outcome.Ok? ==>
              var Row(id, p) := s.outcome.value;
              && s.db.posts == db.posts[id := p]
              && (WellFormed(db) ==> id !in db.posts && WellFormed(s.db))
              && p.authorId == user && p.createdAt == now
              && Some(p.title) == payload.title && Some(p.content) == payload.content
              && (p.isPublished <==> payload.isPublished == Some(true))
              && (p.publishedAt.Some? <==> payload.isPublished == Some(true))
              && (p.publishedAt.Some? ==> p.publishedAt == Some(now))
  {
    match Validate(payload)
    case Ok(v) =>
      var published := v.isPublished.GetOr(false);
      var p := Post(v.title, v.content, published, Stamp(published, None, now), user, now);
      Step(Db(db.posts[db.nextId := p], db.nextId + 1), Ok(Row(db.nextId, p)))
    case Invalid(fields) => Step(db, Invalid(fields))
  }

  /** `store` as the controller writes it: `is_published` defaults to false, but
      `published_at` reads the raw flag, and reading an absent key throws. */
  function StoreAsWritten(db: Db, user: UserId, payload: Payload, now: Time): (s: Step<Row>)
    ensures s.outcome.ServerError? <==> Validate(payload).Ok? && payload.isPublished.None?
    ensures s.outcome.ServerError? ==> s.db == db
  {
    match Validate(payload)
    case Ok(v) =>
      var published := v.isPublished.GetOr(false);
      if v.isPublished.None? then Step(db, ServerError)
      else
        var p := Post(v.title, v.content, published, if v.isPublished.value then Some(now) else None, user, now);
        Step(Db(db.posts[db.nextId := p], db.nextId + 1), Ok(Row(db.nextId, p)))
    case Invalid(fields) => Step(db, Invalid(fields))
  }

  /** `update`: the author guard runs first, then validation; the title and
      content are replaced and `published_at` follows the publication flag.
      An absent flag keeps the post's current one. */
  function Update(db: Db, user: UserId, id: PostId, payload: Payload, now: Time): (s: Step<Row>)
    ensures s.outcome.Ok? || s.outcome.Forbidden? || s.outcome.NotFound? || s.outcome.Invalid?
    ensures s.outcome.NotFound? <==> id !in db.posts
    ensures s.outcome.Forbidden? <==> id in db.posts && db.posts[id].authorId != user
    ensures s.outcome.Invalid? <==> id in db.posts && db.posts[id].authorId == user
                                    && !(TitleAccepted(payload.title) && ContentAccepted(payload.content))
    ensures s.outcome.Invalid? ==> s.outcome.fields == Validate(payload).fields
    ensures !s.outcome.Ok? ==> s.db == db
    ensures s.outcome.Ok? ==>
              var Row(rid, p) := s.outcome.value;
              var before := db.posts[id];
              && rid == id && s.db == db.(posts := db.posts[id := p])
              && p.authorId == before.authorId == user && p.createdAt == before.createdAt
              && Some(p.title) == payload.title && Some(p.content) == payload.content
              && p.isPublished == payload.isPublished.GetOr(before.isPublished)
              && (p.isPublished ==> p.publishedAt.Some?)
              && (p.isPublished && before.publishedAt.Some? ==> p.publishedAt == before.publishedAt)
              && (p.isPublished && before.publishedAt.None? ==> p.publishedAt == Some(now))
              && (!p.isPublished ==> p.publishedAt.None?)
  {
    if id !in db.posts then Step(db, NotFound)
    else
      var blog := db.posts[id];
      if user != blog.authorId then Step(db, Forbidden)
      else
        match Validate(payload)
        case Ok(v) =>
          var published := v.isPublished.GetOr(blog.isPublished);
          var p := blog.(title := v.title, content := v.content, isPublished := published,
                         publishedAt := Stamp(published, blog.publishedAt, now));
          Step(db.(posts := db.posts[id := p]), Ok(Row(id, p)))
        case Invalid(fields) => Step(db, Invalid(fields))
  }

  /** `update` as the controller writes it: `published_at` reads the raw flag,
      and reading an absent key throws. */
  function UpdateAsWritten(db: Db, user: UserId, id: PostId, payload: Payload, now: Time): (s: Step<Row>)
    ensures s.outcome.ServerError? <==> id in db.posts && db.posts[id].authorId == user
                                        && Validate(payload).Ok? && payload.isPublished.None?
    ensures s.outcome.ServerError? ==> s.db == db
  {
    if id !in db.posts then Step(db, NotFound)
    else
      var blog := db.posts[id];
      if user != blog.authorId then Step(db, Forbidden)
      else
        match Validate(payload)
        case Ok(v) =>
          var published := v.isPublished.GetOr(blog.isPublished);
          if v.isPublished.None? then Step(db, ServerError)
          else
            var stamp := if v.isPublished.value then Some(blog.publishedAt.GetOr(now)) else None;
            var p := blog.(title := v.title, content := v.content, isPublished := published,
                           publishedAt := stamp);
            Step(db.(posts := db.posts[id := p]), Ok(Row(id, p)))
        case Invalid(fields) => Step(db, Invalid(fields))
  }

  /** `destroy`: the author removes the post for good. */
  function Destroy(db: Db, user: UserId, id: PostId): (s: Step<()>)
    ensures s.outcome.Ok? || s.outcome.Forbidden? || s.outcome.NotFound?
    ensures s.outcome.NotFound? <==> id !in db.posts
    ensures s.outcome.Forbidden? <==> id in db.posts && db.posts[id].authorId != user
    ensures !s.outcome.Ok? ==> s.db == db
    ensures s.outcome.Ok? ==>
              && s.db.nextId == db.nextId
              && s.db.posts.Keys == db.posts.Keys - {id}
              && forall k :: k in s.db.posts ==> s.db.posts[k] == db.posts[k]
  {
    if id !in db.posts then Step(db, NotFound)
    else if user != db.posts[id].authorId then Step(db, Forbidden)
    else Step(db.(posts := db.posts - {id}), Ok(()))
  }
}
