/** The post views over an in-memory store of the blog's tables, together
    with the delete rules (CASCADE, SET_NULL) the model fields declare and the
    page cache in front of the index view.

    Framework behaviour the views rely on, stated here as assumptions:
    - `login_required`: an anonymous requester (`None`) is sent to the login
      page and nothing else happens;
    - `get_object_or_404`: a lookup that finds no row ends the view with
      NotFound;
    - `get_or_create`: a row equal to the one asked for is reused, otherwise
      one is added;
    - `Paginator.get_page`: see module Paging;
    - `form.is_valid()`: a form is valid when it was submitted (the request
      carried POST data) and its text is not empty; a post form must also name
      an existing group or none. */
module Views {
  import opened Paging
  import opened Models

  /** What a view ends in: a page rendered (for a form view: the form shown
      again), a redirect, the redirect to the login page, or not-found. */
  datatype Outcome = Rendered | Redirected | LoginRedirect | NotFound

  /** Result of a read-only view: the data it renders, or how it failed. */
  datatype Response<+T> = Ok(value: T) | Fail(outcome: Outcome)

  /** Submitted post form; `image` is the name of an uploaded file, if any. */
  datatype PostForm = PostForm(text: string, group: Option<Slug>, image: Option<string>)

  /** Submitted comment form. */
  datatype CommentForm = CommentForm(text: string)

  /** Data the profile page shows. */
  datatype ProfilePage = ProfilePage(page: Page<Post>, following: bool)

  /** Data the post page shows. */
  datatype PostPage = PostPage(post: Post, authorPostsCount: nat)

  /** Validity of a comment form (`None`: no POST data, an unbound form). */
  predicate CommentFormValid(form: Option<CommentForm>)
  {
    form.Some? && form.value.text != []
  }

  /** `form.save()` on a post form bound to `post`: text and group come from
      the form, the image is replaced only when a file was uploaded. */
  function ApplyPostForm(post: Post, form: PostForm): (r: Post)
    ensures r.id == post.id && r.author == post.author && r.pubDate == post.pubDate
    ensures r.text == form.text && r.group == form.group
    ensures r.image == if form.image.Some? then form.image.value else post.image
  {
    post.(text := form.text, group := form.group,
          image := if form.image.Some? then form.image.value else post.image)
  }

  class Store {
    /** Usernames of the registered users. */
    var users: set<Username>
    /** Groups by slug. */
    var groups: map<Slug, Group>
    /** Post rows in the order they were saved. */
    var posts: seq<Post>
    /** Comment rows in the order they were saved. */
    var comments: seq<Comment>
    /** Follow rows in the order they were saved. */
    var follows: seq<Follow>
    /** Id the next post receives. */
    var nextPostId: nat
    /** Creation counter standing for the clock behind `pub_date`. */
    var clock: nat
    /** The page cache of the index view, by the request's query string (the
        index is served at one path, so the query string is what tells its
        cache keys apart). */
    var indexCache: map<Query, Page<Post>>

    /** Integrity of the tables: every reference points at an existing row,
        slugs respect their length limit, posts are in saving order, and the
        follow table holds no duplicate and no self-follow. */
    ghost predicate Valid()
      reads this
    {
      TablesValid(groups.Keys, users, posts, comments, follows, nextPostId, clock)
    }

    /** An empty store. */
    constructor ()
      ensures Valid()
      ensures users == {} && groups == map[] && posts == [] && comments == [] && follows == []
      ensures indexCache == map[]
    {
      users, groups, posts, comments, follows := {}, map[], [], [], [];
      nextPostId, clock := 1, 0;
      indexCache := map[];
    }

    /** Validity of a post form: submitted, text not empty, and a group that
        exists, if one is named. */
    predicate PostFormValid(form: Option<PostForm>)
      reads this
    {
      form.Some? && form.value.text != [] &&
      (form.value.group.Some? ==> form.value.group.value in groups)
    }

    /** Position of the post with id `id` (`get_object_or_404(Post, pk=id)`). */
    function PostIndex(id: nat): (r: Option<nat>)
      reads this
      ensures r.Some? ==> r.value < |posts| && posts[r.value].id == id
      ensures r.None? ==> forall p :: p in posts ==> p.id != id
    {
      FindIndex(posts, (p: Post) => p.id == id)
    }

    // ---------------------------------------------------------------------
    // Listings

    /** The posts `keep` accepts, newest first: every such post exactly once
        and nothing else. */
    function Listing(keep: Post -> bool): (r: seq<Post>)
      reads this
      requires Valid()
      ensures forall p :: p in r <==> p in posts && keep(p)
      ensures NewestFirst(r)
    {
      SelectChronological(posts, keep);
      ReverseNewestFirst(Select(posts, keep));
      Reverse(Select(posts, keep))
    }

    /** `Post.objects.all()`. */
    function AllPosts(): (r: seq<Post>)
      reads this
      requires Valid()
      ensures forall p :: p in r <==> p in posts
      ensures NewestFirst(r)
    {
      Listing((p: Post) => true)
    }

    /** `group.posts.all()`. */
    function GroupListing(slug: Slug): (r: seq<Post>)
      reads this
      requires Valid()
      ensures forall p :: p in r <==> p in posts && p.group == Some(slug)
      ensures NewestFirst(r)
    {
      Listing((p: Post) => p.group == Some(slug))
    }

    /** `author.posts.all()`. */
    function AuthorListing(author: Username): (r: seq<Post>)
      reads this
      requires Valid()
      ensures forall p :: p in r <==> p in posts && p.author == author
      ensures NewestFirst(r)
    {
      Listing((p: Post) => p.author == author)
    }

    /** `Post.objects.filter(author__following__user=user)`: the posts of the
        authors `user` follows; empty when `user` follows nobody. */
    function FeedListing(user: Username): (r: seq<Post>)
      reads this
      requires Valid()
      ensures forall p :: p in r <==> p in posts && Follow(user, p.author) in follows
      ensures NewestFirst(r)
      ensures (forall e :: e in follows ==> e.user != user) ==> r == []
    {
      var edges := follows;
      var r := Listing((p: Post) => Follow(user, p.author) in edges);
      assert r != [] ==> r[0] in r;
      r
    }

    // ---------------------------------------------------------------------
    // Read-only views

    /** `group_posts`: not-found for an unknown slug, otherwise the requested
        page of the group's posts. */
    function GroupPosts(slug: Slug, query: Query): (r: Response<Page<Post>>)
      reads this
      requires Valid()
      ensures r.Fail? <==> slug !in groups
      ensures r.Fail? ==> r.outcome == NotFound
      ensures r.Ok? ==> r.value == PageContext(GroupListing(slug), query)
      ensures r.Ok? ==> forall p :: p in r.value.items ==> p in posts && p.group == Some(slug)
    {
      if slug !in groups then Fail(NotFound)
      else
        var page := PageContext(GroupListing(slug), query);
        assert forall p :: p in page.items ==> p in GroupListing(slug);
        Ok(page)
    }

    /** `profile`: not-found for an unknown username, otherwise the requested
        page of the author's posts and whether the requester follows them. */
    function Profile(requester: Option<Username>, username: Username, query: Query): (r: Response<ProfilePage>)
      reads this
      requires Valid()
      ensures r.Fail? <==> username !in users
      ensures r.Fail? ==> r.outcome == NotFound
      ensures r.Ok? ==> r.value.page == PageContext(AuthorListing(username), query)
      ensures r.Ok? ==> forall p :: p in r.value.page.items ==> p in posts && p.author == username
      ensures r.Ok? ==> (r.value.following <==> requester.Some? && Follow(requester.value, username) in follows)
    {
      if username !in users then Fail(NotFound)
      else
        var page := PageContext(AuthorListing(username), query);
        assert forall p :: p in page.items ==> p in AuthorListing(username);
        var following := requester.Some? && Follow(requester.value, username) in follows;
        Ok(ProfilePage(page, following))
    }

    /** `post_detail`: not-found for an unknown id, otherwise the post and the
        number of posts by its author, which counts the post itself. */
    function PostDetail(id: nat): (r: Response<PostPage>)
      reads this
      requires Valid()
      ensures r.Fail? <==> forall p :: p in posts ==> p.id != id
      ensures r.Fail? ==> r.outcome == NotFound
      ensures r.Ok? ==> r.value.post in posts && r.value.post.id == id
      ensures r.Ok? ==> r.value.authorPostsCount == |AuthorListing(r.value.post.author)|
      ensures r.Ok? ==> r.value.authorPostsCount >= 1
    {
      match PostIndex(id)
      case None => Fail(NotFound)
      case Some(k) =>
        var post := posts[k];
        var mine := AuthorListing(post.author);
        assert post in mine;
        Ok(PostPage(post, |mine|))
    }

    /** `follow_index`: login required; the requested page of the posts of
        the authors the requester follows. */
    function FollowIndex(requester: Option<Username>, query: Query): (r: Response<Page<Post>>)
      reads this
      requires Valid()
      ensures r.Fail? <==> requester.None?
      ensures r.Fail? ==> r.outcome == LoginRedirect
      ensures r.Ok? ==> r.value == PageContext(FeedListing(requester.value), query)
      ensures r.Ok? ==> forall p :: p in r.value.items ==> p in posts && Follow(requester.value, p.author) in follows
    {
      if requester.None? then Fail(LoginRedirect)
      else
        var page := PageContext(FeedListing(requester.value), query);
        assert forall p :: p in page.items ==> p in FeedListing(requester.value);
        Ok(page)
    }

    // ---------------------------------------------------------------------
    // The cached index view

    /** `index` behind its page cache: a cached page is returned as it was
        stored, however the posts changed since; otherwise the current page
        is computed and stored. */
    method Index(query: Query) returns (page: Page<Post>)
      requires Valid()
      modifies this`indexCache
      ensures Valid()
      ensures query in old(indexCache) ==> page == old(indexCache)[query] && indexCache == old(indexCache)
      ensures query !in old(indexCache) ==>
                page == PageContext(AllPosts(), query) && indexCache == old(indexCache)[query := page]
    {
      if query in indexCache {
        page := indexCache[query];
      } else {
        page := PageContext(AllPosts(), query);
        indexCache := indexCache[query := page];
      }
    }

    /** The cached index page for `query` outlives its time to live. */
    method ExpireIndex(query: Query)
      requires Valid()
      modifies this`indexCache
      ensures Valid()
      ensures indexCache == old(indexCache) - {query}
    {
      indexCache := indexCache - {query};
    }

    /** `cache.clear()`. */
    method ClearCache()
      requires Valid()
      modifies this`indexCache
      ensures Valid()
      ensures indexCache == map[]
    {
      indexCache := map[];
    }

    // ---------------------------------------------------------------------
    // Views that write

    /** `post_create`: login required; an unsubmitted or invalid form is shown
        again and nothing is stored; otherwise a new post by the requester is
        appended, published at the current counter value. */
    method PostCreate(requester: Option<Username>, form: Option<PostForm>) returns (outcome: Outcome)
      requires Valid()
      requires requester.Some? ==> requester.value in users
      modifies this`posts, this`nextPostId, this`clock
      ensures Valid()
      ensures outcome == if requester.None? then LoginRedirect
                         else if !PostFormValid(form) then Rendered
                         else Redirected
      ensures outcome != Redirected ==>
                posts == old(posts) && nextPostId == old(nextPostId) && clock == old(clock)
      ensures outcome == Redirected ==>
                && |posts| == |old(posts)| + 1
                && posts[..|old(posts)|] == old(posts)
                && var p := posts[|old(posts)|];
                   && p.author == requester.value
                   && p.text == form.value.text && p.group == form.value.group
                   && p.image == (if form.value.image.Some? then form.value.image.value else [])
                   && p.pubDate == old(clock)
                   && p.id !in old(Ids(posts))
    {
      if requester.None? {
        return LoginRedirect;
      }
      if !PostFormValid(form) {
        return Rendered;
      }
      var f := form.value;
      var p := Post(nextPostId, f.text, clock, requester.value, f.group,
                    if f.image.Some? then f.image.value else []);
      PostCreateKeepsValid(groups.Keys, users, posts, comments, follows, nextPostId, clock, p);
      posts := posts + [p];
      nextPostId, clock := nextPostId + 1, clock + 1;
      assert posts[..|old(posts)|] == old(posts);
      outcome := Redirected;
    }

    /** `post_edit`: login required; not-found for an unknown id; a requester
        who is not the author is redirected and the post is left as it is; an
        unsubmitted or invalid form is shown again; otherwise the form is
        saved into the post, which keeps its id, author and `pub_date`. */
    method PostEdit(requester: Option<Username>, id: nat, form: Option<PostForm>) returns (outcome: Outcome)
      requires Valid()
      modifies this`posts
      ensures Valid()
      ensures requester.None? ==> outcome == LoginRedirect && posts == old(posts)
      ensures requester.Some? && old(PostIndex(id)).None? ==> outcome == NotFound && posts == old(posts)
      ensures requester.Some? && old(PostIndex(id)).Some? ==>
                var k := old(PostIndex(id)).value;
                var post := old(posts)[k];
                && (post.author != requester.value ==> outcome == Redirected && posts == old(posts))
                && (post.author == requester.value && !PostFormValid(form) ==>
                      outcome == Rendered && posts == old(posts))
                && (post.author == requester.value && PostFormValid(form) ==>
                      outcome == Redirected && posts == old(posts)[k := ApplyPostForm(post, form.value)])
    {
      if requester.None? {
        return LoginRedirect;
      }
      var found := PostIndex(id);
      if found.None? {
        return NotFound;
      }
      var k := found.value;
      var post := posts[k];
      if post.author != requester.value {
        return Redirected;
      }
      if !PostFormValid(form) {
        return Rendered;
      }
      var edited := ApplyPostForm(post, form.value);
      ghost var before := posts;
      posts := posts[k := edited];
      UpdatedRows(before, k, edited);
      SameIds(before, posts);
      assert Chronological(posts) by {
        forall i, j | 0 <= i < j < |posts|
          ensures posts[i].id < posts[j].id && posts[i].pubDate < posts[j].pubDate
        {
          assert posts[i].id == before[i].id && posts[i].pubDate == before[i].pubDate;
          assert posts[j].id == before[j].id && posts[j].pubDate == before[j].pubDate;
        }
      }
      outcome := Redirected;
    }

    /** `add_comment`: login required; not-found for an unknown post; a
        submitted valid form appends a comment by the requester on that post,
        anything else stores nothing; either way the requester is redirected
        to the post. */
    method AddComment(requester: Option<Username>, postId: nat, form: Option<CommentForm>) returns (outcome: Outcome)
      requires Valid()
      requires requester.Some? ==> requester.value in users
      modifies this`comments, this`clock
      ensures Valid()
      ensures requester.None? ==> outcome == LoginRedirect
      ensures requester.Some? && old(PostIndex(postId)).None? ==> outcome == NotFound
      ensures requester.Some? && old(PostIndex(postId)).Some? ==> outcome == Redirected
      ensures outcome == Redirected && CommentFormValid(form) ==>
                comments == old(comments) + [Comment(Some(postId), requester.value, form.value.text, old(clock))]
      ensures outcome != Redirected || !CommentFormValid(form) ==> comments == old(comments)
    {
      if requester.None? {
        return LoginRedirect;
      }
      var found := PostIndex(postId);
      if found.None? {
        return NotFound;
      }
      if CommentFormValid(form) {
        assert postId in Ids(posts) by {
          assert posts[found.value] in posts;
        }
        comments := comments + [Comment(Some(postId), requester.value, form.value.text, clock)];
        clock := clock + 1;
      }
      outcome := Redirected;
    }

    /** `profile_follow`: login required; not-found for an unknown username;
        following oneself does nothing; otherwise the (requester, author) row
        is created unless it exists, so there is then exactly one. */
    method ProfileFollow(requester: Option<Username>, username: Username) returns (outcome: Outcome)
      requires Valid()
      requires requester.Some? ==> requester.value in users
      modifies this`follows
      ensures Valid()
      ensures requester.None? ==> outcome == LoginRedirect && follows == old(follows)
      ensures requester.Some? && username !in users ==> outcome == NotFound && follows == old(follows)
      ensures requester.Some? && username in users ==> outcome == Redirected
      ensures requester.Some? && username == requester.value ==> follows == old(follows)
      ensures requester.Some? && username in users && username != requester.value ==>
                var edge := Follow(requester.value, username);
                && follows == (if edge in old(follows) then old(follows) else old(follows) + [edge])
                && multiset(follows)[edge] == 1
    {
      if requester.None? {
        return LoginRedirect;
      }
      if username !in users {
        return NotFound;
      }
      if username != requester.value {
        var edge := Follow(requester.value, username);
        if edge !in follows {
          follows := follows + [edge];
        }
      }
      outcome := Redirected;
    }

    /** `profile_unfollow`: login required; not-found for an unknown username
        or a missing (requester, author) row; otherwise that row is deleted and
        no other, so the table shrinks by exactly one. */
    method ProfileUnfollow(requester: Option<Username>, username: Username) returns (outcome: Outcome)
      requires Valid()
      modifies this`follows
      ensures Valid()
      ensures requester.None? ==> outcome == LoginRedirect && follows == old(follows)
      ensures requester.Some? && username !in users ==> outcome == NotFound && follows == old(follows)
      ensures requester.Some? && username in users ==>
                var edge := Follow(requester.value, username);
                && (edge !in old(follows) ==> outcome == NotFound && follows == old(follows))
                && (edge in old(follows) ==>
                      && outcome == Redirected
                      && multiset(follows) == multiset(old(follows)) - multiset{edge}
                      && |follows| == |old(follows)| - 1
                      && edge !in follows)
    {
      if requester.None? {
        return LoginRedirect;
      }
      if username !in users {
        return NotFound;
      }
      var edge := Follow(requester.value, username);
      if edge !in follows {
        return NotFound;
      }
      ghost var before := follows;
      follows := Remove(follows, edge);
      FollowsValidSubset(before, follows, users, users);
      outcome := Redirected;
    }

    // ---------------------------------------------------------------------
    // Rows created outside the post views

    /** Registration of a user; usernames are unique. */
    method AddUser(username: Username) returns (created: bool)
      requires Valid()
      modifies this`users
      ensures Valid()
      ensures created <==> username !in old(users)
      ensures users == old(users) + {username}
    {
      created := username !in users;
      users := users + {username};
    }

    /** Creation of a group; its slug must be unused and at most
        SlugMaxLength characters long. */
    method AddGroup(slug: Slug, title: string, description: string) returns (created: bool)
      requires Valid()
      modifies this`groups
      ensures Valid()
      ensures created <==> slug !in old(groups) && |slug| <= SlugMaxLength
      ensures created ==> groups == old(groups)[slug := Group(title, description)]
      ensures !created ==> groups == old(groups)
    {
      created := slug !in groups && |slug| <= SlugMaxLength;
      if created {
        groups := groups[slug := Group(title, description)];
      }
    }

    // ---------------------------------------------------------------------
    // Delete rules of the model fields

    /** Deleting a user cascades to their posts (and those posts' comments),
        their comments, and every follow row on either side. */
    method DeleteUser(u: Username)
      requires Valid()
      modifies this`users, this`posts, this`comments, this`follows
      ensures Valid()
      ensures users == old(users) - {u}
      ensures forall p :: p in posts <==> p in old(posts) && p.author != u
      ensures forall c :: multiset(comments)[c] ==
                if c.author == u || (c.post.Some? && c.post.value in IdsBy(old(posts), u)) then 0
                else multiset(old(comments))[c]
      ensures forall e :: multiset(follows)[e] ==
                if e.user == u || e.author == u then 0 else multiset(old(follows))[e]
    {
      DeleteUserKeepsValid(groups.Keys, users, posts, comments, follows, nextPostId, clock, u);
      users, posts, comments, follows :=
        users - {u}, PostsWithout(posts, u), CommentsWithout(comments, u, IdsBy(posts, u)), FollowsWithout(follows, u);
    }

    /** Deleting a post cascades to exactly the comments attached to it. */
    method DeletePost(id: nat)
      requires Valid()
      modifies this`posts, this`comments
      ensures Valid()
      ensures forall p :: p in posts <==> p in old(posts) && p.id != id
      ensures forall c :: multiset(comments)[c] ==
                if c.post == Some(id) then 0 else multiset(old(comments))[c]
    {
      var keepPost := (p: Post) => p.id != id;
      PostsValidSelect(posts, keepPost, users, users, groups.Keys, nextPostId, clock);
      posts := Select(posts, keepPost);
      var keepComment := (c: Comment) => c.post != Some(id);
      SelectCounts(comments, keepComment);
      comments := Select(comments, keepComment);
      CommentsValidCascade(old(comments), comments, users, users, old(posts), posts, {id});
    }

    /** Deleting a group keeps its posts and sets their group to none;
        nothing else changes. */
    method DeleteGroup(slug: Slug)
      requires Valid()
      modifies this`groups, this`posts
      ensures Valid()
      ensures groups == old(groups) - {slug}
      ensures |posts| == |old(posts)|
      ensures forall i :: 0 <= i < |posts| ==>
                posts[i] == if old(posts)[i].group == Some(slug) then old(posts)[i].(group := None)
                            else old(posts)[i]
    {
      DeleteGroupKeepsValid(groups.Keys, users, posts, comments, follows, nextPostId, clock, slug);
      groups := groups - {slug};
      posts := Ungrouped(posts, slug);
    }
  }

  /** Ids of the posts of `posts` written by `u`. */
  function IdsBy(posts: seq<Post>, u: Username): (r: set<nat>)
    ensures forall id :: id in r <==> exists p :: p in posts && p.author == u && p.id == id
  {
    set p | p in posts && p.author == u :: p.id
  }

  /** Deleting a user and cascading to their posts, the comments on those
      posts, their own comments and their follow rows leaves a valid store. */
  lemma DeleteUserKeepsValid(slugs: set<Slug>, users: set<Username>, posts: seq<Post>, comments: seq<Comment>,
                             follows: seq<Follow>, nextId: nat, clock: nat, u: Username)
    requires TablesValid(slugs, users, posts, comments, follows, nextId, clock)
    ensures TablesValid(slugs, users - {u}, PostsWithout(posts, u), CommentsWithout(comments, u, IdsBy(posts, u)),
                        FollowsWithout(follows, u), nextId, clock)
  {
    FollowsValidSubset(follows, FollowsWithout(follows, u), users, users - {u});
    CommentsWithoutValid(comments, users, posts, u);
  }

  lemma CommentsWithoutValid(comments: seq<Comment>, users: set<Username>, posts: seq<Post>, u: Username)
    requires CommentsValid(comments, users, Ids(posts))
    ensures CommentsValid(CommentsWithout(comments, u, IdsBy(posts, u)), users - {u}, Ids(PostsWithout(posts, u)))
  {
    var gone := IdsBy(posts, u);
    var kept := CommentsWithout(comments, u, gone);
    forall c | c in kept ensures c in comments {
      assert multiset(kept)[c] > 0;
    }
    CommentsValidCascade(comments, kept, users, users - {u}, posts, PostsWithout(posts, u), gone);
  }

  /** The post table after the group `slug` is deleted: its posts lose their
      group, every other field and every other post stays. */
  function Ungrouped(posts: seq<Post>, slug: Slug): (r: seq<Post>)
    ensures |r| == |posts|
    ensures forall i :: 0 <= i < |posts| ==>
              r[i] == if posts[i].group == Some(slug) then posts[i].(group := None) else posts[i]
  {
    seq(|posts|, i requires 0 <= i < |posts| =>
      if posts[i].group == Some(slug) then posts[i].(group := None) else posts[i])
  }

  /** Setting the group of its posts to none when a group is deleted leaves
      a valid post table with the same ids. */
  lemma DeleteGroupKeepsValid(slugs: set<Slug>, users: set<Username>, posts: seq<Post>, comments: seq<Comment>,
                              follows: seq<Follow>, nextId: nat, clock: nat, slug: Slug)
    requires TablesValid(slugs, users, posts, comments, follows, nextId, clock)
    ensures TablesValid(slugs - {slug}, users, Ungrouped(posts, slug), comments, follows, nextId, clock)
  {
    var r := Ungrouped(posts, slug);
    forall q | q in r
      ensures q.id < nextId && q.pubDate < clock
      ensures q.author in users && (q.group.Some? ==> q.group.value in slugs - {slug})
    {
      var j :| 0 <= j < |r| && r[j] == q;
      assert posts[j] in posts;
    }
    SameIds(posts, r);
    forall i, j | 0 <= i < j < |r|
      ensures r[i].id < r[j].id && r[i].pubDate < r[j].pubDate
    {
      assert r[i].id == posts[i].id && r[i].pubDate == posts[i].pubDate;
      assert r[j].id == posts[j].id && r[j].pubDate == posts[j].pubDate;
    }
  }

  /** The post table without the posts of `u`, still in saving order. */
  function PostsWithout(posts: seq<Post>, u: Username): (r: seq<Post>)
    ensures forall p :: p in r <==> p in posts && p.author != u
    ensures Chronological(posts) ==> Chronological(r)
  {
    var keep := (p: Post) => p.author != u;
    assert Chronological(posts) ==> Chronological(Select(posts, keep)) by {
      if Chronological(posts) {
        SelectChronological(posts, keep);
      }
    }
    Select(posts, keep)
  }

  /** The comment table without the comments written by `u` or attached to
      one of the posts `gone`; every other row keeps its multiplicity. */
  function CommentsWithout(comments: seq<Comment>, u: Username, gone: set<nat>): (r: seq<Comment>)
    ensures forall c :: multiset(r)[c] ==
              if c.author == u || (c.post.Some? && c.post.value in gone) then 0 else multiset(comments)[c]
  {
    var keep := (c: Comment) => !(c.author == u || (c.post.Some? && c.post.value in gone));
    SelectCounts(comments, keep);
    Select(comments, keep)
  }

  /** The follow table without the rows in which `u` follows or is followed. */
  function FollowsWithout(follows: seq<Follow>, u: Username): (r: seq<Follow>)
    ensures forall e :: multiset(r)[e] == if e.user == u || e.author == u then 0 else multiset(follows)[e]
  {
    var keep := (e: Follow) => e.user != u && e.author != u;
    SelectCounts(follows, keep);
    Select(follows, keep)
  }

  /** Integrity of a set of tables (see Store.Valid). */
  ghost predicate TablesValid(slugs: set<Slug>, users: set<Username>, posts: seq<Post>, comments: seq<Comment>,
                              follows: seq<Follow>, nextId: nat, clock: nat)
  {
    && SlugsValid(slugs)
    && PostsValid(posts, users, slugs, nextId, clock)
    && CommentsValid(comments, users, Ids(posts))
    && FollowsValid(follows, users)
  }

  /** Slugs respect their length limit. */
  ghost predicate SlugsValid(slugs: set<Slug>)
  {
    forall slug :: slug in slugs ==> |slug| <= SlugMaxLength
  }

  /** Post rows are in saving order, below the counters, written by existing
      users and filed in existing groups. */
  ghost predicate PostsValid(posts: seq<Post>, users: set<Username>, slugs: set<Slug>, nextId: nat, clock: nat)
  {
    && Chronological(posts)
    && (forall p :: p in posts ==> p.id < nextId && p.pubDate < clock)
    && (forall p :: p in posts ==> p.author in users && (p.group.Some? ==> p.group.value in slugs))
  }

  /** Comment rows are written by existing users on existing posts. */
  ghost predicate CommentsValid(comments: seq<Comment>, users: set<Username>, postIds: set<nat>)
  {
    forall c :: c in comments ==> c.author in users && (c.post.Some? ==> c.post.value in postIds)
  }

  /** Follow rows join two different existing users, and none is repeated. */
  ghost predicate FollowsValid(follows: seq<Follow>, users: set<Username>)
  {
    && (forall e :: e in follows ==> e.user in users && e.author in users && e.user != e.author)
    && Distinct(follows)
  }

  /** Keeping some of the rows of a valid follow table, each joining users
      that remain, leaves a valid table. */
  lemma FollowsValidSubset(follows: seq<Follow>, kept: seq<Follow>, users: set<Username>, remaining: set<Username>)
    requires FollowsValid(follows, users)
    requires forall e :: multiset(kept)[e] <= multiset(follows)[e]
    requires forall e :: e in kept ==> e.user in remaining && e.author in remaining
    ensures FollowsValid(kept, remaining)
  {
    forall e | e in kept ensures e in follows {
      assert multiset(kept)[e] > 0;
    }
    forall e ensures multiset(kept)[e] <= 1 {
      assert multiset(kept)[e] <= multiset(follows)[e];
    }
  }

  /** Keeping some of the posts of a valid post table, each by a user that
      remains, leaves a valid table. */
  lemma PostsValidSelect(posts: seq<Post>, keep: Post -> bool, users: set<Username>, remaining: set<Username>,
                         slugs: set<Slug>, nextId: nat, clock: nat)
    requires PostsValid(posts, users, slugs, nextId, clock)
    requires forall p :: p in posts && keep(p) ==> p.author in remaining
    ensures PostsValid(Select(posts, keep), remaining, slugs, nextId, clock)
  {
    SelectChronological(posts, keep);
  }

  /** Keeping the comments that are not on a deleted post, each by a user
      that remains, leaves a valid comment table when every post that was
      not deleted is kept. */
  lemma CommentsValidCascade(comments: seq<Comment>, kept: seq<Comment>, users: set<Username>, remaining: set<Username>,
                             posts: seq<Post>, keptPosts: seq<Post>, gone: set<nat>)
    requires CommentsValid(comments, users, Ids(posts))
    requires forall c :: c in kept ==> c in comments && (c.author in users ==> c.author in remaining)
    requires forall c :: c in kept && c.post.Some? ==> c.post.value !in gone
    requires forall p :: p in posts && p.id !in gone ==> p in keptPosts
    ensures CommentsValid(kept, remaining, Ids(keptPosts))
  {
    forall c | c in kept && c.post.Some?
      ensures c.post.value in Ids(keptPosts)
    {
      var q :| q in posts && q.id == c.post.value;
      assert q in keptPosts;
    }
  }

  /** Appending a post numbered and dated by the counters, by an existing
      user in an existing group or none, keeps the tables valid; its id is
      new. */
  lemma PostCreateKeepsValid(slugs: set<Slug>, users: set<Username>, posts: seq<Post>, comments: seq<Comment>,
                             follows: seq<Follow>, nextId: nat, clock: nat, p: Post)
    requires TablesValid(slugs, users, posts, comments, follows, nextId, clock)
    requires p.id == nextId && p.pubDate == clock
    requires p.author in users && (p.group.Some? ==> p.group.value in slugs)
    ensures TablesValid(slugs, users, posts + [p], comments, follows, nextId + 1, clock + 1)
    ensures p.id !in Ids(posts)
  {
    ConsLastChronological(posts, p);
    assert Ids(posts + [p]) == Ids(posts) + {p.id};
  }

  /** Appending a post newer than every post of a chronological table keeps
      it chronological. */
  lemma ConsLastChronological(s: seq<Post>, p: Post)
    requires Chronological(s)
    requires forall q :: q in s ==> q.id < p.id && q.pubDate < p.pubDate
    ensures Chronological(s + [p])
  {
    var r := s + [p];
    forall i, j | 0 <= i < j < |r|
      ensures r[i].id < r[j].id && r[i].pubDate < r[j].pubDate
    {
      assert r[i] == s[i] && s[i] in s;
    }
  }
}
