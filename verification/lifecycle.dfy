/** How the actions compose over a post's life: the Draft/Published state
    machine, the invariants every action keeps, and the agreement between the
    controller's own code and the corrected `store`/`update`. */
module Lifecycle {
  import opened Wrappers
  import opened Posts
  import opened Validation
  import opened Visibility
  import opened Listing
  import opened Writes

  datatype Status = Draft | Published

  function StatusOf(p: Post): (s: Status) {
    if p.isPublished then Published else Draft
  }

  /** The body the shipped form sends: both fields and an explicit flag. */
  function Form(title: string, content: string, publish: bool): (p: Payload) {
    Payload(Some(title), Some(content), Some(publish))
  }

  // ---- The controller as written, against the corrected actions ----

  /** The controller's `store` either throws (a valid body without the flag) or
      is the corrected one; whenever the flag is sent, it is the corrected one. */
  lemma StoreAsWrittenAgrees(db: Db, user: UserId, payload: Payload, now: Time)
    ensures var s := StoreAsWritten(db, user, payload, now);
            s.outcome.ServerError? || s == Store(db, user, payload, now)
    ensures payload.isPublished.Some? ==> StoreAsWritten(db, user, payload, now) == Store(db, user, payload, now)
  {
  }

  /** The controller's `update` either throws (the author's valid body without
      the flag) or is the corrected one, so a non-author is refused and an
      invalid body rejected alike; whenever the flag is sent, it is the
      corrected one. */
  lemma UpdateAsWrittenAgrees(db: Db, user: UserId, id: PostId, payload: Payload, now: Time)
    ensures var s := UpdateAsWritten(db, user, id, payload, now);
            s.outcome.ServerError? || s == Update(db, user, id, payload, now)
    ensures payload.isPublished.Some? ==> UpdateAsWritten(db, user, id, payload, now) == Update(db, user, id, payload, now)
  {
  }

  /** A valid body without `is_published` makes the controller's `store` throw,
      where the evident intent is a draft. */
  lemma StoreWithoutFlagThrows()
    ensures StoreAsWritten(Db(map[], 1), 7, Payload(Some("Hi"), Some("World"), None), 100).outcome == ServerError
    ensures Store(Db(map[], 1), 7, Payload(Some("Hi"), Some("World"), None), 100).outcome
            == Ok(Row(1, Post("Hi", "World", false, None, 7, 100)))
  {
    var p := Payload(Some("Hi"), Some("World"), None);
    assert !Blank("Hi") by { assert !TrimmedAway("Hi"[0]); }
    assert !Blank("World") by { assert !TrimmedAway("World"[0]); }
    assert Validate(p).Ok?;
  }

  /** A valid body without `is_published` makes the controller's `update` throw,
      where the evident intent is to keep the post's publication state. */
  lemma UpdateWithoutFlagThrows()
    ensures var db := Db(map[1 := Post("Hi", "World", true, Some(50), 7, 40)], 2);
            && UpdateAsWritten(db, 7, 1, Payload(Some("Hi"), Some("Again"), None), 100).outcome == ServerError
            && Update(db, 7, 1, Payload(Some("Hi"), Some("Again"), None), 100).outcome
               == Ok(Row(1, Post("Hi", "Again", true, Some(50), 7, 40)))
  {
    var p := Payload(Some("Hi"), Some("Again"), None);
    assert !Blank("Hi") by { assert !TrimmedAway("Hi"[0]); }
    assert !Blank("Again") by { assert !TrimmedAway("Again"[0]); }
    assert Validate(p).Ok?;
  }

  // ---- Invariants every action keeps ----

  lemma StorePreservesInvariants(db: Db, user: UserId, payload: Payload, now: Time)
    requires WellFormed(db) && AllConsistent(db)
    ensures WellFormed(Store(db, user, payload, now).db)
    ensures AllConsistent(Store(db, user, payload, now).db)
  {
  }

  lemma UpdatePreservesInvariants(db: Db, user: UserId, id: PostId, payload: Payload, now: Time)
    requires WellFormed(db) && AllConsistent(db)
    ensures WellFormed(Update(db, user, id, payload, now).db)
    ensures AllConsistent(Update(db, user, id, payload, now).db)
  {
  }

  lemma DestroyPreservesInvariants(db: Db, user: UserId, id: PostId)
    requires WellFormed(db) && AllConsistent(db)
    ensures WellFormed(Destroy(db, user, id).db)
    ensures AllConsistent(Destroy(db, user, id).db)
  {
  }

  /** Only the author changes a post: whatever anyone else sends, the table is
      untouched and the answer is 403, even for a body that fails validation. */
  lemma OthersCannotWrite(db: Db, user: UserId, id: PostId, payload: Payload, now: Time)
    requires id in db.posts && db.posts[id].authorId != user
    ensures Update(db, user, id, payload, now) == Step(db, Forbidden)
    ensures Destroy(db, user, id) == Step(db, Forbidden)
  {
  }

  /** No action ever changes who wrote a post. */
  lemma AuthorIsFixed(db: Db, user: UserId, id: PostId, payload: Payload, now: Time, other: PostId)
    requires other in db.posts
    ensures var after := Update(db, user, id, payload, now).db;
            other in after.posts && after.posts[other].authorId == db.posts[other].authorId
    ensures var after := Destroy(db, user, id).db;
            other in after.posts ==> after.posts[other].authorId == db.posts[other].authorId
  {
  }

  // ---- The Draft/Published state machine ----

  /** The transitions `update` makes on a consistent post: publishing a draft
      stamps `now`, re-publishing keeps the stamp, unpublishing clears it. */
  lemma UpdateTransitions(db: Db, id: PostId, publish: bool, title: string, content: string, now: Time)
    requires id in db.posts && Consistent(db.posts[id])
    requires Update(db, db.posts[id].authorId, id, Form(title, content, publish), now).outcome.Ok?
    ensures var before := db.posts[id];
            var after := Update(db, before.authorId, id, Form(title, content, publish), now).outcome.value.post;
            && StatusOf(after) == (if publish then Published else Draft)
            && Consistent(after)
            && (StatusOf(before) == Draft && publish ==> after.publishedAt == Some(now))
            && (StatusOf(before) == Published && publish ==> after.publishedAt == before.publishedAt)
            && (!publish ==> after.publishedAt == None)
  {
  }

  /** The stamp does not survive an unpublish: publish, unpublish, publish
      again, and the post carries the time of the last publish. */
  lemma RepublishAfterUnpublishRestamps(db: Db, id: PostId, title: string, content: string, t1: Time, t2: Time, t3: Time)
    requires id in db.posts
    requires TitleAccepted(Some(title)) && ContentAccepted(Some(content))
    ensures var author := db.posts[id].authorId;
            var s1 := Update(db, author, id, Form(title, content, true), t1).db;
            var s2 := Update(s1, author, id, Form(title, content, false), t2).db;
            var s3 := Update(s2, author, id, Form(title, content, true), t3).db;
            && s2.posts[id].publishedAt == None
            && s3.posts[id].isPublished && s3.posts[id].publishedAt == Some(t3)
  {
  }

  /** Sending the same body twice leaves the table as sending it once, whatever
      the clock says the second time. */
  lemma UpdateIsIdempotent(db: Db, user: UserId, id: PostId, payload: Payload, t1: Time, t2: Time)
    ensures var once := Update(db, user, id, payload, t1).db;
            Update(once, user, id, payload, t2).db == once
  {
  }

  // ---- Reads after writes ----

  /** A new draft is seen by its author only, both in `show` and in the listing. */
  lemma NewDraftIsPrivate(db: Db, users: Users, user: UserId, title: string, content: string, now: Time, viewer: Option<UserId>)
    requires WellFormed(db)
    requires Store(db, user, Form(title, content, false), now).outcome.Ok?
    ensures var s := Store(db, user, Form(title, content, false), now);
            var id := s.outcome.value.id;
            && (Show(s.db, users, id, viewer).Ok? <==> viewer == Some(user))
            && (id in Feed(s.db.posts, viewer) <==> viewer == Some(user))
  {
    var s := Store(db, user, Form(title, content, false), now);
    FeedIsExact(s.db.posts, viewer, s.outcome.value.id);
  }

  /** A deleted post is gone for everyone: `show` answers 404 and no listing holds it. */
  lemma DeletedPostIsGone(db: Db, users: Users, user: UserId, id: PostId, viewer: Option<UserId>)
    requires Destroy(db, user, id).outcome.Ok?
    ensures Show(Destroy(db, user, id).db, users, id, viewer) == NotFound
    ensures id !in Feed(Destroy(db, user, id).db.posts, viewer)
  {
    FeedIsExact(Destroy(db, user, id).db.posts, viewer, id);
  }
}
