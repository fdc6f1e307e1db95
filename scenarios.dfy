/** Request sequences the blog's behaviour is described by, each stated as a
    method over one store: the index cache outliving a deletion, the
    follow and unfollow rules, and the subscription feed. */
module Scenarios {
  import opened Paging
  import opened Models
  import opened Views

  /** A new post heads the index; deleting it does not change the cached
      index page; once the cache is cleared the index no longer shows it. */
  method CachedIndexOutlivesDeletion(s: Store, u: Username, form: PostForm)
      returns (first: Page<Post>, second: Page<Post>, third: Page<Post>)
    requires s.Valid()
    requires u in s.users && s.PostFormValid(Some(form))
    requires [] !in s.indexCache
    modifies s
    ensures first.items != [] && first.items[0].text == form.text && first.items[0].author == u
    ensures second == first
    ensures first.items[0] !in third.items
  {
    var p;
    p, first := IndexAfterCreate(s, u, form);
    s.DeletePost(p.id);
    second := s.Index([]);
    s.ClearCache();
    third := s.Index([]);
  }

  /** Creating a post and then reading the index shows the new post first and
      caches that page. */
  method IndexAfterCreate(s: Store, u: Username, form: PostForm) returns (p: Post, first: Page<Post>)
    requires s.Valid()
    requires u in s.users && s.PostFormValid(Some(form))
    requires [] !in s.indexCache
    modifies s
    ensures s.Valid()
    ensures [] in s.indexCache && s.indexCache[[]] == first
    ensures first.items != [] && first.items[0] == p
    ensures p.text == form.text && p.author == u
  {
    p := CreateNewest(s, u, form);
    first := s.Index([]);
    var listing := s.AllPosts();
    NewestComesFirst(listing, p);
    FirstPage(listing);
  }

  /** A post created through the create view is newer than every other post. */
  method CreateNewest(s: Store, u: Username, form: PostForm) returns (p: Post)
    requires s.Valid()
    requires u in s.users && s.PostFormValid(Some(form))
    modifies s`posts, s`nextPostId, s`clock
    ensures s.Valid()
    ensures p in s.posts && p.text == form.text && p.author == u
    ensures forall q :: q in s.posts && q != p ==> q.pubDate < p.pubDate
  {
    var before := s.posts;
    assert forall q :: q in before ==> q.pubDate < s.clock;
    var outcome := s.PostCreate(Some(u), Some(form));
    assert outcome == Redirected;
    p := s.posts[|before|];
    assert s.posts == before + [p];
  }

  /** Following an author twice leaves exactly one row for the pair, the
      second request changes nothing, and no other row is touched. */
  method FollowTwice(s: Store, u: Username, author: Username) returns (afterFirst: seq<Follow>)
    requires s.Valid()
    requires u in s.users && author in s.users && u != author
    modifies s
    ensures multiset(s.follows)[Follow(u, author)] == 1
    ensures s.follows == afterFirst
    ensures forall e :: e != Follow(u, author) ==> multiset(s.follows)[e] == multiset(old(s.follows))[e]
  {
    var first := s.ProfileFollow(Some(u), author);
    afterFirst := s.follows;
    var second := s.ProfileFollow(Some(u), author);
  }

  /** A follow request from an anonymous client is redirected to the login
      page and adds no row, whoever it names. */
  method AnonymousFollow(s: Store, username: Username) returns (outcome: Outcome)
    requires s.Valid()
    modifies s
    ensures outcome == LoginRedirect
    ensures s.follows == old(s.follows)
    ensures |s.follows| == old(|s.follows|)
  {
    outcome := s.ProfileFollow(None, username);
  }

  /** An authenticated user following themselves never adds a row. */
  method FollowSelf(s: Store, u: Username)
    requires s.Valid()
    requires u in s.users
    modifies s
    ensures s.follows == old(s.follows)
    ensures |s.follows| == old(|s.follows|)
  {
    var outcome := s.ProfileFollow(Some(u), u);
  }

  /** A follow request adds one row when the pair was not following yet; an
      unfollow request then removes exactly that row, restoring the table's
      rows and count. */
  method FollowThenUnfollow(s: Store, u: Username, author: Username) returns (followed: seq<Follow>)
    requires s.Valid()
    requires u in s.users && author in s.users && u != author
    requires Follow(u, author) !in s.follows
    modifies s
    ensures followed == old(s.follows) + [Follow(u, author)]
    ensures |followed| == old(|s.follows|) + 1
    ensures multiset(s.follows) == multiset(old(s.follows))
    ensures |s.follows| == old(|s.follows|)
  {
    var outcome := s.ProfileFollow(Some(u), author);
    followed := s.follows;
    outcome := s.ProfileUnfollow(Some(u), author);
  }

  /** After `u` follows `author` and `author` writes a post, the post is in
      `u`'s feed and not in the feed of a user who follows nobody. */
  method FeedShowsFollowedAuthors(s: Store, u: Username, author: Username, other: Username, form: PostForm)
      returns (mine: seq<Post>, theirs: seq<Post>, p: Post)
    requires s.Valid()
    requires u in s.users && author in s.users && other in s.users && u != author
    requires forall e :: e in s.follows ==> e.user != other
    requires other != u && s.PostFormValid(Some(form))
    modifies s
    ensures p.author == author && p.text == form.text
    ensures p in mine
    ensures theirs == []
  {
    ghost var before := s.follows;
    var outcome := s.ProfileFollow(Some(u), author);
    assert s.follows == before || s.follows == before + [Follow(u, author)];
    assert Follow(u, author) in s.follows && forall e :: e in s.follows ==> e.user != other;
    p := CreateNewest(s, author, form);
    mine := s.FeedListing(u);
    theirs := s.FeedListing(other);
  }
}
