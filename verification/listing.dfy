/** The `index` action: the posts the requester may see, newest first, ten per page. */
module Listing {
  import opened Wrappers
  import opened Posts
  import opened Visibility

  const PerPage: nat := 10

  /** `a` comes before `b` in the listing: created later, or created at the same
      moment with a larger key. The creation time is the order the action asks
      for; the key only breaks ties, which the database leaves unspecified. */
  predicate Newer(posts: map<PostId, Post>, a: PostId, b: PostId)
    requires a in posts && b in posts
  {
    posts[a].createdAt > posts[b].createdAt
    || (posts[a].createdAt == posts[b].createdAt && a > b)
  }

  /** The keys of the posts `requester` may see. */
  function VisibleIds(posts: map<PostId, Post>, requester: Option<UserId>): (ids: set<PostId>) {
    set id | id in posts && CanView(posts[id], requester)
  }

  /** Every non-empty set of keys has a newest member. */
  lemma {:induction false} NewestExists(posts: map<PostId, Post>, s: set<PostId>)
    requires s != {} && s <= posts.Keys
    ensures exists x :: x in s && forall y :: y in s && y != x ==> Newer(posts, x, y)
    decreases |s|
  {
    var y :| y in s;
    if s - {y} == {} {
      assert s == {y};
      assert forall z :: z in s && z != y ==> Newer(posts, y, z);
    } else {
      NewestExists(posts, s - {y});
      var x :| x in s - {y} && forall z :: z in s - {y} && z != x ==> Newer(posts, x, z);
      if Newer(posts, x, y) {
        assert forall z :: z in s && z != x ==> Newer(posts, x, z);
      } else {
        assert Newer(posts, y, x);
        forall z | z in s && z != y
          ensures Newer(posts, y, z)
        {
          if z != x {
            assert Newer(posts, x, z);
          }
        }
      }
    }
  }

  /** The newest member of `s`. */
  function Newest(posts: map<PostId, Post>, s: set<PostId>): (x: PostId)
    requires s != {} && s <= posts.Keys
    ensures x in s
    ensures forall y :: y in s && y != x ==> Newer(posts, x, y)
  {
    NewestExists(posts, s);
    var x :| x in s && forall y :: y in s && y != x ==> Newer(posts, x, y);
    x
  }

  /** The keys in `s`, newest first. */
  function NewestFirst(posts: map<PostId, Post>, s: set<PostId>): (r: seq<PostId>)
    requires s <= posts.Keys
    ensures |r| == |s|
    ensures forall i :: 0 <= i < |r| ==> r[i] in s
    ensures forall id :: id in s ==> id in r
    ensures forall i, j :: 0 <= i < j < |r| ==> Newer(posts, r[i], r[j])
    decreases |s|
  {
    if s == {} then []
    else
      var x := Newest(posts, s);
      [x] + NewestFirst(posts, s - {x})
  }

  /** Every post the requester may see, in listing order. */
  function Feed(posts: map<PostId, Post>, requester: Option<UserId>): (feed: seq<PostId>) {
    NewestFirst(posts, VisibleIds(posts, requester))
  }

  /** The page actually served: a `page` below 1 means page 1. */
  function ResolvePage(page: int): (p: nat)
    ensures p >= 1
    ensures page >= 1 ==> p == page
    ensures page < 1 ==> p == 1
  {
    if page >= 1 then page else 1
  }

  /** The last page number for `total` posts; there is always at least one page. */
  function LastPage(total: nat): (n: nat)
    ensures n >= 1
    ensures total <= n * PerPage
    ensures n == 1 || (n - 1) * PerPage < total
  {
    if total == 0 then 1 else (total + PerPage - 1) / PerPage
  }

  /** The slice of `xs` shown on page `page`. */
  function Window<T>(xs: seq<T>, page: nat): (w: seq<T>)
    requires page >= 1
    ensures |w| == if (page - 1) * PerPage >= |xs| then 0 else Min(PerPage, |xs| - (page - 1) * PerPage)
    ensures forall k :: 0 <= k < |w| ==> w[k] == xs[(page - 1) * PerPage + k]
  {
    var start := (page - 1) * PerPage;
    if start >= |xs| then [] else xs[start..Min(start + PerPage, |xs|)]
  }

  function Min(a: int, b: int): (m: int) {
    if a <= b then a else b
  }

  /** The paginator `index` answers with. */
  datatype Paginated = Paginated(items: seq<Entry>, currentPage: nat, lastPage: nat, perPage: nat, total: nat)

  function Entries(posts: map<PostId, Post>, users: Users, ids: seq<PostId>): (es: seq<Entry>)
    requires forall i :: 0 <= i < |ids| ==> ids[i] in posts
    ensures |es| == |ids|
    ensures forall i :: 0 <= i < |es| ==> es[i] == Entry(ids[i], posts[ids[i]], AuthorOf(users, posts[ids[i]]))
  {
    seq(|ids|, i requires 0 <= i < |ids| => Entry(ids[i], posts[ids[i]], AuthorOf(users, posts[ids[i]])))
  }

  /** The keys of a page's items, in order. */
  function Keys(es: seq<Entry>): (ks: seq<PostId>)
    ensures |ks| == |es|
    ensures forall i :: 0 <= i < |es| ==> ks[i] == es[i].id
  {
    seq(|es|, i requires 0 <= i < |es| => es[i].id)
  }

  /** `index`: page `page` of the posts `requester` may see, newest first. */
  function Index(db: Db, users: Users, requester: Option<UserId>, page: int): (r: Paginated)
    ensures r.perPage == PerPage && r.total == |VisibleIds(db.posts, requester)|
    ensures r.currentPage == ResolvePage(page) && r.lastPage == LastPage(r.total)
    ensures |r.items| <= PerPage
    ensures |r.items| == if (r.currentPage - 1) * PerPage >= r.total then 0
                         else Min(PerPage, r.total - (r.currentPage - 1) * PerPage)
    ensures forall i :: 0 <= i < |r.items| ==>
              r.items[i].id in db.posts && r.items[i].post == db.posts[r.items[i].id]
              && CanView(r.items[i].post, requester)
              && r.items[i].user == AuthorOf(users, r.items[i].post)
    ensures forall i, j :: 0 <= i < j < |r.items| ==>
              r.items[i].id != r.items[j].id && r.items[i].post.createdAt >= r.items[j].post.createdAt
    ensures Keys(r.items) == Window(Feed(db.posts, requester), r.currentPage)
  {
    var feed := Feed(db.posts, requester);
    var current := ResolvePage(page);
    var ids := Window(feed, current);
    var items := Entries(db.posts, users, ids);
    assert Keys(items) == ids;
    Paginated(items, current, LastPage(|feed|), PerPage, |feed|)
  }

  /** The feed holds exactly the published posts and the requester's own. */
  lemma FeedIsExact(posts: map<PostId, Post>, requester: Option<UserId>, id: PostId)
    ensures id in Feed(posts, requester) <==>
              id in posts && (posts[id].isPublished || requester == Some(posts[id].authorId))
  {
  }

  /** An anonymous requester never receives an unpublished post, on any page. */
  lemma AnonymousSeesOnlyPublished(db: Db, users: Users, page: int)
    ensures forall i :: 0 <= i < |Index(db, users, None, page).items| ==>
              Index(db, users, None, page).items[i].post.isPublished
  {
  }

  /** When no two visible posts share a creation time, the key never breaks a
      tie: the feed is in strictly decreasing creation time, the order the
      query itself fixes. */
  lemma DistinctTimesFixTheOrder(posts: map<PostId, Post>, requester: Option<UserId>)
    requires forall a, b :: a in VisibleIds(posts, requester) && b in VisibleIds(posts, requester) && a != b
               ==> posts[a].createdAt != posts[b].createdAt
    ensures var feed := Feed(posts, requester);
            forall i, j :: 0 <= i < j < |feed| ==> posts[feed[i]].createdAt > posts[feed[j]].createdAt
  {
  }

  /** Fifteen visible posts make two pages: ten on the first, five on the second. */
  lemma FifteenVisibleMakeTwoPages(db: Db, users: Users, requester: Option<UserId>)
    requires |VisibleIds(db.posts, requester)| == 15
    ensures Index(db, users, requester, 1).lastPage == 2
    ensures |Index(db, users, requester, 1).items| == 10
    ensures |Index(db, users, requester, 2).items| == 5
    ensures Index(db, users, requester, 3).items == []
  {
  }

  /** Pages 1 to `n`, one after another. */
  function Pages<T>(xs: seq<T>, n: nat): (ys: seq<T>) {
    if n == 0 then [] else Pages(xs, n - 1) + Window(xs, n)
  }

  /** The first `n` pages are the first `n * PerPage` elements. */
  lemma {:induction false} PagesArePrefix<T>(xs: seq<T>, n: nat)
    ensures Pages(xs, n) == xs[..Min(n * PerPage, |xs|)]
  {
    if n > 0 {
      PagesArePrefix(xs, n - 1);
      var lo := Min((n - 1) * PerPage, |xs|);
      var hi := Min(n * PerPage, |xs|);
      assert Window(xs, n) == xs[lo..hi];
      assert xs[..lo] + xs[lo..hi] == xs[..hi];
    }
  }

  /** Reading pages 1 to the last page yields every element exactly once, in order. */
  lemma AllPagesCoverAll<T>(xs: seq<T>)
    ensures Pages(xs, LastPage(|xs|)) == xs
  {
    PagesArePrefix(xs, LastPage(|xs|));
    assert xs[..|xs|] == xs;
  }

  /** Walking the pages of `index` from 1 to `lastPage` lists every post the
      requester may see, each once, newest first. */
  lemma IndexPagesCoverFeed(db: Db, users: Users, requester: Option<UserId>)
    ensures Pages(Feed(db.posts, requester), Index(db, users, requester, 1).lastPage)
            == Feed(db.posts, requester)
  {
    AllPagesCoverAll(Feed(db.posts, requester));
  }
}
