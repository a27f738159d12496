# Blog access and visibility — a Dafny model

This project models the post controller of a small blogging backend (`BlogController`):
who may list and read which posts, how a post is created, edited and deleted, and how
its `published_at` timestamp moves between the Draft and Published states.

The blogs table is a `map<PostId, Post>` with an auto-increment counter (`Posts.Db`).
The requester of a read is an `Option<UserId>`, where `None` means anonymous. The
requester of a write is a `UserId`, because those routes sit behind the token guard
(`backend/routes/api.php:21-26`). The clock is a `now` parameter. Every write returns
the table after the action together with its outcome (`Posts.Step`), so "the table is
unchanged" is a statement the contracts can make. Outcomes are tagged:
`Ok` (200/201/204), `Forbidden` (403), `NotFound` (404), `Invalid` (422, naming the
failing fields) and `ServerError` (500).

Modules:
- `Wrappers`: `Option`.
- `Posts`: the data model, and the invariants `WellFormed` (every key came from the counter)
  and `Consistent` (a post has a `published_at` exactly when it is published).
- `Validation`: the `title`/`content`/`is_published` rules.
- `Visibility`: the visibility predicate `CanView` and the `show` action.
- `Listing`: the `index` action. It orders posts newest first and cuts pages of ten.
- `Writes`: `store`, `update` and `destroy`, plus the controller's own `store`/`update` as written.
- `Lifecycle`: lemmas about sequences of actions. They cover the state machine, invariant preservation, idempotence, and reads after writes.

The code clears `published_at` when a post is unpublished, so a later publish stamps a new time
(`Lifecycle.RepublishAfterUnpublishRestamps`).

The `published()` query scope is not in the source. It is modelled as `is_published == true`,
as the comment on the listing filter says. The listing orders by creation time. Ties
in creation time, which the database leaves unspecified, are broken in the model by the larger key.
`Listing.Index` and the paging lemmas rely on that fixed order. The paginator is modelled as
the framework's length-aware paginator. `total` is the number of visible posts,
`last_page` is `max(1, ceil(total / 10))`, and a page number below 1 serves page 1.

## Model

| member | source | states |
|---|---|---|
| Posts.AuthorOf | backend/app/Http/Controllers/BlogController.php:41 | the eager-loaded author summary is `{id, name}` of the post's author, and null exactly when that user row is missing |
| Validation.Validate | backend/app/Http/Controllers/BlogController.php:48-52 | a body passes exactly when the title is present, not blank and at most 255 characters, and the content is present and not blank; a failure names exactly the failing fields; a pass hands back the fields unchanged with the flag still optional |
| Validation.TrimIsEmptyIffBlank | backend/app/Http/Controllers/BlogController.php:49-50 | the `required` rule's trimmed-empty test holds exactly for strings made only of whitespace |
| Validation.BlankIsRejected | backend/app/Http/Controllers/BlogController.php:49-50 | `required` rejects more than the empty string: every whitespace-only title or content fails validation and is named as failing, and present content that is not all whitespace is never named |
| Visibility.Show | backend/app/Http/Controllers/BlogController.php:33-44 | `show` answers 404 exactly for a missing key, 403 exactly when the post fails the listing's visibility filter for this requester, and otherwise the stored post with its author summary |
| Visibility.AuthorCanAlwaysRead | backend/app/Http/Controllers/BlogController.php:36-38 | the author can always read their own post, draft or not |
| Visibility.DraftIsPrivate | backend/app/Http/Controllers/BlogController.php:36-38 | a draft is readable by exactly one requester, its author; anonymous and other users get 403 |
| Listing.NewestFirst | backend/app/Http/Controllers/BlogController.php:26 | the ordered keys are exactly the given set, each once, every key strictly newer than those after it |
| Listing.ResolvePage | backend/app/Http/Controllers/BlogController.php:28 | the served page is the requested one when it is at least 1, and page 1 otherwise |
| Listing.LastPage | backend/app/Http/Controllers/BlogController.php:28 | the last page is at least 1, its pages hold every post, and it is not one page too many |
| Listing.Window | backend/app/Http/Controllers/BlogController.php:28 | page `n` holds the ten elements starting at `(n-1)*10`, fewer on the last page, none past it |
| Listing.Index | backend/app/Http/Controllers/BlogController.php:11-31 | a page holds at most ten posts, all stored and visible to the requester, distinct, newest first, with their author summaries; `total` counts the visible posts and the page size is exact; the page is the matching window of the feed |
| Listing.FeedIsExact | backend/app/Http/Controllers/BlogController.php:15-24 | the listing holds exactly the published posts plus, for a logged-in requester, that requester's own posts |
| Listing.AnonymousSeesOnlyPublished | backend/app/Http/Controllers/BlogController.php:15-17 | no page served to an anonymous requester holds an unpublished post |
| Listing.DistinctTimesFixTheOrder | backend/app/Http/Controllers/BlogController.php:26 | when no two visible posts share a creation time, the feed is in strictly decreasing creation time, so the model's tie-break never decides the order |
| Listing.FifteenVisibleMakeTwoPages | backend/app/Http/Controllers/BlogController.php:26-28 | fifteen visible posts give a last page of 2, ten posts on page 1, five on page 2 and none on page 3 |
| Listing.PagesArePrefix | backend/app/Http/Controllers/BlogController.php:28 | pages 1 to `n` read back to back are the first `10n` posts of the feed |
| Listing.AllPagesCoverAll | backend/app/Http/Controllers/BlogController.php:28 | reading pages 1 to the last page yields the whole sequence, in order |
| Listing.IndexPagesCoverFeed | backend/app/Http/Controllers/BlogController.php:26-28 | walking the listing's pages up to `last_page` yields every visible post exactly once, newest first |
| Writes.Stamp | backend/app/Http/Controllers/BlogController.php:80 | a publication time is set exactly when the post ends up published; it keeps an existing time and otherwise takes `now` |
| Writes.Store | backend/app/Http/Controllers/BlogController.php:46-62 | create fails validation and leaves the table alone unless the body is valid; on success the new post gets a fresh key, is owned by the requester, is stamped `now`, is published exactly when the flag was true, and carries `published_at = now` exactly then |
| Writes.StoreAsWritten | backend/app/Http/Controllers/BlogController.php:54-59 | the controller's create throws, leaving the table alone, exactly when the body is valid but has no `is_published` |
| Writes.Update | backend/app/Http/Controllers/BlogController.php:64-84 | 404 for a missing key; 403 exactly for a non-author, checked before validation; 422 naming exactly the failing fields; on any failure the table is unchanged; on success only that row changes, its author and creation time stay, title and content are replaced, the flag is the sent one or the old one, and `published_at` keeps an existing time on publish, takes `now` on a first publish and is cleared on unpublish |
| Writes.UpdateAsWritten | backend/app/Http/Controllers/BlogController.php:76-81 | the controller's update throws, leaving the table alone, exactly when the author sends a valid body without `is_published` |
| Writes.Destroy | backend/app/Http/Controllers/BlogController.php:86-94 | 404 for a missing key, 403 exactly for a non-author with the table unchanged; for the author exactly that post is removed and every other post is untouched |
| Lifecycle.StoreAsWrittenAgrees | backend/app/Http/Controllers/BlogController.php:48-59 | the controller's create either throws or equals the corrected one on every request, and equals it whenever the flag is sent |
| Lifecycle.UpdateAsWrittenAgrees | backend/app/Http/Controllers/BlogController.php:66-81 | the controller's update either throws or equals the corrected one on every request, so its 404, 403 and 422 answers are the corrected ones; it equals it whenever the flag is sent |
| Lifecycle.StoreWithoutFlagThrows | backend/app/Http/Controllers/BlogController.php:57-58 | a valid create body without the flag throws as written, where the corrected create files a draft with no timestamp |
| Lifecycle.UpdateWithoutFlagThrows | backend/app/Http/Controllers/BlogController.php:79-80 | a valid edit without the flag throws as written, where the corrected update keeps the post published with its timestamp |
| Lifecycle.StorePreservesInvariants | backend/app/Http/Controllers/BlogController.php:54-59 | create keeps every key below the counter and every post's timestamp consistent with its flag |
| Lifecycle.UpdatePreservesInvariants | backend/app/Http/Controllers/BlogController.php:76-81 | update keeps every key below the counter and every post's timestamp consistent with its flag |
| Lifecycle.DestroyPreservesInvariants | backend/app/Http/Controllers/BlogController.php:92 | delete keeps every key below the counter and every post's timestamp consistent with its flag |
| Lifecycle.OthersCannotWrite | backend/app/Http/Controllers/BlogController.php:66-74 | a non-author's update or delete answers 403 with the table unchanged, whatever the body, including an invalid one |
| Lifecycle.AuthorIsFixed | backend/app/Http/Controllers/BlogController.php:76-81 | no update or delete changes the author of any post that remains |
| Lifecycle.UpdateTransitions | backend/app/Http/Controllers/BlogController.php:76-81 | on a consistent post, Draft to Published stamps `now`, Published to Published keeps the stamp, and any move to Draft clears it; the result is consistent |
| Lifecycle.RepublishAfterUnpublishRestamps | backend/app/Http/Controllers/BlogController.php:80 | publish, unpublish, publish leaves the post published with the last publish time; the unpublish cleared the first |
| Lifecycle.UpdateIsIdempotent | backend/app/Http/Controllers/BlogController.php:76-81 | sending the same update twice leaves the table as sending it once, whatever the clock reads the second time |
| Lifecycle.NewDraftIsPrivate | backend/app/Http/Controllers/BlogController.php:15-24 | a freshly created draft is readable and listed for its author and for nobody else |
| Lifecycle.DeletedPostIsGone | backend/app/Http/Controllers/BlogController.php:92 | after a delete, `show` of that key answers 404 and no listing holds it |

## Findings

| source | as written | input that shows it | evidently intended | confidence | as-written member | corrected member |
|---|---|---|---|---|---|---|
| backend/app/Http/Controllers/BlogController.php:58 | `published_at` reads `$validated['is_published']` directly. Only `is_published` itself gets the `?? false` default. When the key is absent, the undefined-key warning is raised as an exception, and nothing is stored | `POST /blogs` with `{"title":"Hi","content":"World"}` | an absent flag creates a draft with no `published_at`, as the `?? false` default on line 57 shows | not executed; medium (relies on the framework raising PHP warnings as exceptions, its default) | Writes.StoreAsWritten, Lifecycle.StoreWithoutFlagThrows | Writes.Store |
| backend/app/Http/Controllers/BlogController.php:80 | `published_at` reads `$validated['is_published']` directly. Only `is_published` itself falls back to the post's current value. When the key is absent, the request throws | `PUT /blogs/1` by the author of a published post 1, with `{"title":"Hi","content":"Again"}` | an absent flag keeps the post's publication state and timestamp, as the `?? $blog->is_published` fallback on line 79 shows | not executed; medium (relies on the framework raising PHP warnings as exceptions, its default) | Writes.UpdateAsWritten, Lifecycle.UpdateWithoutFlagThrows | Writes.Update |

The shipped form always sends the flag (`frontend/src/app/components/blog-form/blog-form.component.ts:129`).
On that path `Lifecycle.StoreAsWrittenAgrees` and `Lifecycle.UpdateAsWrittenAgrees` show that the
controller as written and the corrected actions coincide. Every property proved about the corrected
actions therefore holds for every request that sends the flag, and the shipped form sends it on every request.

## Left out

- Authentication, registration, login and logout. Token issuance and the 401 answer of the token guard belong to the framework; the writing actions take an authenticated user id.
- The read routes (`backend/routes/api.php:17-18`) are not behind the token guard, so `Auth::check()` and `Auth::id()` there consult the default guard. The model assumes that guard resolves the bearer-token user. If it does not, a logged-in author reads and lists as anonymous, and `Visibility.AuthorCanAlwaysRead` and `Lifecycle.NewDraftIsPrivate` hold only for requests the default guard authenticates. The guard configuration is not part of this model.
- Route-model binding is reduced to its visible effect, a 404 for a missing key. It is checked before the author guard.
- Non-string titles or contents, and non-boolean `is_published` values such as `null` or `"yes"`, are rejected by the framework's validator. The request body is typed here (`Option<string>`, `Option<bool>`), so these cases are not modelled.
- The framework's global middleware that trims request strings and turns empty strings into null is not part of this model. Validation applies the `required` rule's own trimmed-empty check, and stored strings are the strings sent.
- `created_at` and `updated_at` maintenance: `created_at` is the `now` of the create action, and `updated_at` is not modelled.
- The strict `!==` comparison between user ids is modelled as plain equality of ids. Type coercion of ids is not modelled.
- Paginator links and `from`/`to` fields, HTTP status codes and JSON shapes are not modelled. Outcomes are tagged values instead.
- Listing.IndexPagesCoverFeed: assumes one fixed order among posts created in the same second. The query orders by `created_at` alone, so separate page queries may order such ties differently and repeat or skip a post across pages; with distinct creation times the model's order is the query's order.
- Database transactions and concurrent requests: each action is one atomic step on the table.
- The Angular client, its services and the routing tables. They only mirror the server rules.
