# Yatube posts: a verified model of the blog's views and tables

Yatube is a small Django blog. Users write posts, file them in groups,
comment on them and follow other authors. This project models the post
application:

- the view functions of `yatube/posts/views.py`;
- the tables of `yatube/posts/models.py`, with their delete rules and the
  default ordering of posts;
- the paginator the listings go through;
- the page cache in front of the index view.

Four modules:

- `Paging` (paging.dfy): `POSTS_COUNT`, the request's `page` value and the
  page selection of Django's `Paginator.get_page`, as used by
  `get_page_context`.
  - The query string is read as `request.GET.get('page')` does: the last
    `page` value wins. That value is read as an integer the way `int()`
    reads an optional sign and decimal digits.
  - A missing or non-integer `page` gives page 1.
  - An integer below 1 or past the end gives the last page.
  - An empty listing still has one (empty) page.
- `Models` (models.dfy): the rows and the helpers the store is built from.
  - Rows: `Group`, `Post`, `Comment` and `Follow`.
  - `Post.__str__`.
  - The newest-first ordering of posts.
  - The filtered-query, lookup and reverse helpers.
- `Views` (views.dfy): a `Store` class whose fields are the tables.
  - Its fields: users, groups by slug, post, comment and follow rows in
    saving order, the id and creation counters, and the index page cache.
  - The read-only views are functions of the store.
  - The views that write are methods.
  - So are the `CASCADE`/`SET_NULL` delete rules and the cache's expiry and
    clearing.
  - Every method keeps `Store.Valid`. Under it:
    - every reference points at an existing row;
    - slugs have at most 40 characters;
    - posts are in saving order, so their publication dates strictly
      increase;
    - no follow row is repeated or joins a user to themselves.
  - The schema enforces none of the follow rules. `profile_follow` is what
    maintains them.
- `Scenarios` (scenarios.dfy): the request sequences the tests exercise,
  stated and proved as methods over one store:
  - the cached index outliving a deletion;
  - following twice;
  - an anonymous follow request;
  - an authenticated user following themselves;
  - follow then unfollow;
  - the subscription feed.

  The test named after self-following (yatube/posts/tests/test_views.py:205-212)
  sends its request through a client that is not logged in, so what it
  checks is the login redirect (`AnonymousFollow`). The self-follow branch
  of `profile_follow` (yatube/posts/views.py:122) is `FollowSelf`.

Framework behaviour the views rely on is modelled as follows:

- `login_required`: an anonymous requester (`None`) gets `LoginRedirect`
  and nothing changes. An authenticated requester is an existing user.
- `get_object_or_404`: a lookup that finds nothing gives `NotFound`.
- `get_or_create`: an existing equal row is reused, otherwise one is
  appended.
- `form.is_valid()` is an assumption:
  - a form is valid when it was submitted (`Some`) and its text is not
    empty;
  - a post form must also name an existing group, or none.
- `pub_date` (`auto_now_add`) is the value of a creation counter, which
  every creation advances.

`cache_page` keys its entries by the request URL, query string included
(yatube/posts/views.py:23). The index is served at one path, so the model
keeps one cached page per query string.

## Model

| member | source | states |
|---|---|---|
| Paging.NumPages | yatube/posts/views.py:13 | the page count is the least r >= 1 with count <= r * 10: ceil(count / 10), and exactly one page for an empty listing |
| Paging.PageNumber | yatube/posts/views.py:14-15 | the page get_page settles on: missing or non-integer means 1, an integer outside 1..NumPages means the last page, any other integer is honoured; always within 1..NumPages |
| Paging.GetPage | yatube/posts/views.py:9-20 | the page is the one PageNumber selects for the parameter; it is the window of at most POSTS_COUNT = 10 consecutive items starting at (number - 1) * 10; every page but the last is full, the last one reaches the end, and a page only shows items of the listing |
| Paging.QueryGet | yatube/posts/views.py:14 | `request.GET.get(name)` is none iff the name does not occur in the query, and otherwise a value given for it |
| Paging.QueryGetLast | yatube/posts/views.py:14 | a value given after all others for the name is the one read |
| Paging.QueryGetOther | yatube/posts/views.py:14 | a pair for another name appended to the query does not change what is read |
| Paging.ParseInt | yatube/posts/views.py:15 | a run of decimal digits reads as its value, and a sign followed by digits as that value negated for `-` and unchanged for `+`; only such strings read as integers |
| Paging.ParsePage | yatube/posts/views.py:14-15 | the page value is absent iff the query has none, not an integer iff it does not read as one, and otherwise the integer it reads as |
| Paging.PageContext | yatube/posts/views.py:12-20 | `get_page_context` shows the page PageNumber selects for the request's `page` value |
| Paging.NatDigits | yatube/posts/views.py:15 | the decimal form of a natural number is a non-empty run of digits |
| Paging.DigitsRoundTrip | yatube/posts/views.py:15 | reading the decimal form of n gives n back |
| Paging.PageValueRoundTrip | yatube/posts/views.py:14-15 | a page link carrying the decimal form of any integer n selects Number(n) |
| Paging.PageValueExamples | yatube/posts/views.py:14-15 | `?page=01` reads as 1, `abc` and `2.0` are not integers, the last `page` value wins, and a query without one is absent |
| Paging.FirstPage | yatube/posts/tests/test_views.py:99-102 | page 1 (and a request without a page) holds the first min(10, N) of N items |
| Paging.TwentyFourPosts | yatube/posts/tests/test_views.py:335-362 | 24 posts give pages of 10, 10 and 4; page 2 holds POSTS_COUNT % 24 = 10 posts, as the test computes; page 7 and page 0 give the last page, a garbled parameter the first |
| Paging.ItemOnItsPage | yatube/posts/views.py:12-20 | item i of a listing is shown on page i / 10 + 1 at position i % 10 |
| Paging.PagesFromIsSuffix | yatube/posts/views.py:12-20 | pages k, k + 1, ... read in order give exactly the listing from item (k - 1) * 10 on |
| Paging.PagesPartitionListing | yatube/posts/views.py:12-20 | reading all pages in order gives exactly the listing: nothing dropped, repeated or reordered |
| Models.PostStr | yatube/posts/models.py:41-42 | `Post.__str__` is a prefix of the text of length min(15, len(text)) |
| Models.Select | yatube/posts/views.py:114 | a filtered query keeps exactly the rows its condition accepts, and never grows |
| Models.SelectCounts | yatube/posts/views.py:114 | a filtered query keeps each accepted row as many times as it occurs and drops every other one |
| Models.Remove | yatube/posts/views.py:130-131 | deleting a row removes every copy of it and nothing else; in a table without duplicates the table shrinks by exactly one |
| Models.FindIndex | yatube/posts/views.py:54 | the lookup behind get_object_or_404 finds the first matching row, or reports that none matches |
| Models.Reverse | yatube/posts/models.py:44-45 | reading a table backwards keeps its rows and their counts, position i holding row n - 1 - i |
| Models.SelectChronological | yatube/posts/models.py:22 | filtering a table in saving order leaves it in saving order |
| Models.ReverseNewestFirst | yatube/posts/models.py:44-45 | a table in saving order, read backwards, is ordered by `-pub_date` |
| Models.NewestComesFirst | yatube/posts/models.py:44-45 | in a newest-first listing, a post newer than all others is at the head |
| Views.ApplyPostForm | yatube/posts/views.py:82-88 | saving a bound post form replaces text and group, replaces the image only when a file was uploaded, and keeps id, author and pub_date |
| Views.Store.PostIndex | yatube/posts/views.py:54 | `get_object_or_404(Post, id=...)`: the position of the post with that id, or none when no post has it |
| Views.Store.Listing | yatube/posts/models.py:44-45 | a listing holds exactly the posts its condition accepts, newest first |
| Views.Store.AllPosts | yatube/posts/views.py:25 | `Post.objects.all()` holds every post, newest first |
| Views.Store.GroupListing | yatube/posts/views.py:34 | `group.posts.all()` holds exactly the posts filed in the group, newest first |
| Views.Store.AuthorListing | yatube/posts/views.py:48 | `author.posts.all()` holds exactly the author's posts, newest first |
| Views.Store.FeedListing | yatube/posts/views.py:114 | the feed holds exactly the posts whose author the user follows, newest first, and is empty for a user who follows nobody |
| Views.Store.GroupPosts | yatube/posts/views.py:29-35 | not-found iff the slug is unknown; otherwise the requested page of the group's posts, each of which is in that group |
| Views.Store.Profile | yatube/posts/views.py:38-49 | not-found iff the username is unknown; otherwise the requested page of the author's posts only, and `following` holds iff the requester is authenticated and follows the author |
| Views.Store.PostDetail | yatube/posts/views.py:52-61 | not-found iff no post has the id; otherwise that post and its author's post count, which is at least 1 |
| Views.Store.FollowIndex | yatube/posts/views.py:110-116 | login redirect iff anonymous; otherwise the requested page of the feed, holding only posts of followed authors |
| Views.Store.Index | yatube/posts/views.py:23-26 | the cache is keyed by the query string; a cached page is returned unchanged, however the posts changed since; otherwise the current page of all posts for that query is computed and cached; the tables stay valid |
| Views.Store.ExpireIndex | yatube/posts/views.py:23 | the end of the 300-second lifetime drops exactly that cached page |
| Views.Store.ClearCache | yatube/posts/tests/test_views.py:289 | `cache.clear()` empties the cache |
| Views.Store.PostCreate | yatube/posts/views.py:64-73 | anonymous: login redirect; invalid or unsubmitted form: nothing stored; otherwise exactly one post is appended, authored by the requester, carrying the form's text, group and image, dated by the counter and with a fresh id; the tables stay valid |
| Views.Store.PostEdit | yatube/posts/views.py:76-95 | anonymous: login redirect; unknown id: not-found; a requester who is not the author: redirected and nothing changes; invalid form: nothing changes; otherwise only that post is rewritten, keeping id, author and pub_date |
| Views.Store.AddComment | yatube/posts/views.py:98-107 | anonymous: login redirect; unknown post: not-found; otherwise redirected, and exactly one comment by the requester on that post is appended iff the form is valid |
| Views.Store.ProfileFollow | yatube/posts/views.py:119-124 | anonymous: login redirect; unknown user: not-found and nothing changes; following oneself adds nothing; otherwise the (requester, author) row is added unless present, so there is exactly one, and no other row changes |
| Views.Store.ProfileUnfollow | yatube/posts/views.py:127-132 | not-found and nothing changes for an unknown user or a missing row; otherwise exactly that row is removed and the table shrinks by one |
| Views.Store.AddUser | yatube/users/views.py:7-10 | registration adds the username; it is created iff it was new |
| Views.Store.AddGroup | yatube/posts/models.py:8-11 | a group is created iff its slug is unused and at most 40 characters long |
| Views.Store.DeleteUser | yatube/posts/models.py:23-76 | deleting a user removes their posts, every comment they wrote or that was on one of their posts, and every follow row on either side, and nothing else; the tables stay valid |
| Views.Store.DeletePost | yatube/posts/models.py:49-53 | deleting a post removes exactly the comments attached to it |
| Views.Store.DeleteGroup | yatube/posts/models.py:28-34 | deleting a group keeps all its posts with their group set to none; no other post changes |
| Views.PostsWithout | yatube/posts/models.py:23-27 | the cascade of a user's deletion over posts keeps exactly the posts of other authors, in saving order |
| Views.CommentsWithout | yatube/posts/models.py:49-58 | the cascade over comments drops exactly the comments by the user or on their posts, keeping every other row as often as it occurred |
| Views.FollowsWithout | yatube/posts/models.py:66-76 | the cascade over follow rows drops exactly the rows naming the user on either side |
| Views.Ungrouped | yatube/posts/models.py:28-34 | `SET_NULL`: posts of the deleted group lose their group, every other post and field stays |
| Views.DeleteUserKeepsValid | yatube/posts/models.py:23-76 | the cascades of a user's deletion leave no dangling reference and keep the follow rules |
| Views.CommentsWithoutValid | yatube/posts/models.py:49-58 | after the comment cascade every remaining comment is by a remaining user on a remaining post |
| Views.DeleteGroupKeepsValid | yatube/posts/models.py:28-34 | setting the group to none leaves valid tables |
| Views.PostCreateKeepsValid | yatube/posts/views.py:70-72 | a saved post keeps the post table in saving order, and its id was unused |
| Views.CommentsValidCascade | yatube/posts/models.py:49-53 | comments kept by a cascade point only at posts that remain |
| Views.FollowsValidSubset | yatube/posts/models.py:66-76 | any sub-table of a valid follow table over remaining users keeps the follow rules |
| Views.ConsLastChronological | yatube/posts/models.py:22 | appending a post dated after every other keeps saving order |
| Scenarios.CachedIndexOutlivesDeletion | yatube/posts/tests/test_views.py:276-292 | after a post is created and the index read, deleting the post leaves the index read unchanged; after `cache.clear()` the index no longer shows it |
| Scenarios.IndexAfterCreate | yatube/posts/tests/test_views.py:277-284 | a freshly created post heads the first index page |
| Scenarios.CreateNewest | yatube/posts/models.py:22 | a post saved by the create view is newer than every other post |
| Scenarios.FollowTwice | yatube/posts/views.py:122-123 | following twice leaves exactly one row for the pair in the store; the second request changes nothing and no other row changes |
| Scenarios.AnonymousFollow | yatube/posts/tests/test_views.py:205-212 | a follow request from a client that is not logged in (the test's `self.client`) is redirected to login and leaves the follow table, and so its count, unchanged |
| Scenarios.FollowSelf | yatube/posts/views.py:122 | an authenticated user following themselves leaves the follow table, and so its count, unchanged |
| Scenarios.FollowThenUnfollow | yatube/posts/tests/test_views.py:198-223 | the follow appends exactly the (user, author) row, one more; the unfollow restores the table's rows and count |
| Scenarios.FeedShowsFollowedAuthors | yatube/posts/tests/test_views.py:249-274 | a followed author's new post is in the follower's feed; a user who follows nobody has an empty feed |

## Left out

- Templates, context keys, redirect targets and URLs. A view's result is
  an outcome tag (`Rendered`, `Redirected`, `LoginRedirect`, `NotFound`)
  or the data the page shows.
- Django's ORM, transactions, sessions and authentication. Concurrent
  request handling is also left out: the views run one request at a time.
- Form validation internals. `PostForm` and `CommentForm` are not part of
  this model, so validity is the assumption stated above.
- Image upload and storage. An image is its stored file name.
- Views.ApplyPostForm: cannot clear a post's image. For an image field
  with `blank=True` (yatube/posts/models.py:35-39) Django's default widget
  offers a clear checkbox. `PostForm` is not part of this model, so the
  model only keeps or replaces the image.
- Real time. The 300-second lifetime of a cached page is the explicit
  `ExpireIndex` event. `pub_date` is a creation counter, so two posts never
  share a date. Posts inserted together in one bulk insert could share one
  in Django.
- Views.Store.Index: the cache key is the query string as a list of decoded
  (name, value) pairs. Two URLs that differ only in percent-encoding
  (`?page=%32` and `?page=2`) are separate entries in Django but one entry
  here. The host and the session cookie, which varies the cached page for
  logged-in users, are not part of the key either.
- `cache_page` on `post_create` (yatube/posts/views.py:64). It caches the
  empty form shown to a GET request and changes no stored state.
- The slug character set and the title and description length limits.
  Only the 40-character slug limit is kept.
- The string forms of `Group`, `Comment` and `Follow`.
- The stray `Group = get_user_model()` (yatube/posts/models.py:5), which
  the class definition shadows.
- `yatube/posts/tests/test_urls.py` (routing and status codes) and the
  signup and contact views (yatube/users/views.py), which are bare
  framework configurations. Of the latter, only registration, as
  `AddUser`, is kept.
- Paging.ParseInt: Python's `int()` also accepts surrounding whitespace,
  underscores between digits and non-ASCII decimal digits. The model reads
  those values as not an integer, so they select page 1. Conversely, since
  Python 3.11 (and its security backports) `int()` rejects strings of more
  than 4300 digits, which then select page 1; the model reads them as
  their value, so they select the last page.
- The read-only views take the request's query string as their only request
  input. Other request data is not modelled.
