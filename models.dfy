/** The blog's entities (groups, posts, comments, follow edges), the
    post's string form, its default ordering, and the row filters and lookups
    the store is built from. */
module Models {

  datatype Option<+T> = None | Some(value: T)

  /** Users are identified by their (unique) username. */
  type Username = string

  /** Groups are identified by their (unique) slug. */
  type Slug = string

  /** Longest slug a group may have. */
  const SlugMaxLength: nat := 40

  /** Length of the prefix of its text that a post shows as its string form. */
  const PostStrLength: nat := 15

  /** A topic; its slug is the key it is stored under. */
  datatype Group = Group(title: string, description: string)

  /** A post row. `pubDate` is the value of the store's creation counter when
      the post was saved; `group` is the slug of its group, if any; `image`
      is the stored file name, empty when there is none. */
  datatype Post = Post(id: nat, text: string, pubDate: nat, author: Username,
                       group: Option<Slug>, image: string)

  /** A comment row; `post` is the id of the post it belongs to, if any. */
  datatype Comment = Comment(post: Option<nat>, author: Username, text: string, pubDate: nat)

  /** A follow row: `user` follows `author`. */
  datatype Follow = Follow(user: Username, author: Username)

  /** `Post.__str__`: the first 15 characters of the text (all of it if it is
      shorter). */
  function PostStr(p: Post): (s: string)
    ensures |s| == if |p.text| < PostStrLength then |p.text| else PostStrLength
    ensures s <= p.text
  {
    p.text[..if |p.text| < PostStrLength then |p.text| else PostStrLength]
  }

  /** The rows of `s` that `keep` accepts, in their original order: the
      filtered query over a table. */
  function Select<T(!new)>(s: seq<T>, keep: T -> bool): (r: seq<T>)
    ensures |r| <= |s|
    ensures forall x {:trigger x in r} :: x in r <==> x in s && keep(x)
  {
    if s == [] then [] else (if keep(s[0]) then [s[0]] else []) + Select(s[1..], keep)
  }

  /** Filtering keeps every accepted row as often as it occurs and drops
      every other one. */
  lemma {:induction false} SelectCounts<T(!new)>(s: seq<T>, keep: T -> bool)
    ensures forall x {:trigger multiset(Select(s, keep))[x]} :: multiset(Select(s, keep))[x] == if keep(x) then multiset(s)[x] else 0
  {
    if s != [] {
      SelectCounts(s[1..], keep);
      assert s == [s[0]] + s[1..];
    }
  }

  /** `s` without the rows equal to `x`. */
  function Remove<T(==,!new)>(s: seq<T>, x: T): (r: seq<T>)
    ensures forall y :: multiset(r)[y] == if y == x then 0 else multiset(s)[y]
    ensures Distinct(s) && x in s ==> multiset(r) == multiset(s) - multiset{x} && |r| == |s| - 1
  {
    var r := Select(s, (y: T) => y != x);
    SelectCounts(s, (y: T) => y != x);
    assert Distinct(s) && x in s ==> multiset(s) == multiset(r) + multiset{x} by {
      if Distinct(s) && x in s {
        assert multiset(s) == multiset(r) + multiset{x};
      }
    }
    r
  }

  /** Index of the first row of `s` that `found` accepts: the lookup behind a
      single-object query. */
  function FindIndex<T>(s: seq<T>, found: T -> bool): (r: Option<nat>)
    ensures r.Some? ==> r.value < |s| && found(s[r.value])
    ensures r.Some? ==> forall j :: 0 <= j < r.value ==> !found(s[j])
    ensures r.None? ==> forall x :: x in s ==> !found(x)
  {
    if s == [] then None
    else if found(s[0]) then Some(0)
    else match FindIndex(s[1..], found)
      case None => None
      case Some(i) => Some(i + 1)
  }

  function Reverse<T(!new)>(s: seq<T>): (r: seq<T>)
    ensures |r| == |s|
    ensures multiset(r) == multiset(s)
    ensures forall x :: x in r <==> x in s
    ensures forall i :: 0 <= i < |s| ==> r[i] == s[|s| - 1 - i]
  {
    if s == [] then []
    else
      assert s == [s[0]] + s[1..];
      Reverse(s[1..]) + [s[0]]
  }

  /** Rows in the order they were saved: ids and publication dates both
      strictly increase. */
  ghost predicate Chronological(s: seq<Post>)
  {
    forall i, j :: 0 <= i < j < |s| ==> s[i].id < s[j].id && s[i].pubDate < s[j].pubDate
  }

  /** The default ordering of posts, `-pub_date`: newest first. */
  ghost predicate NewestFirst(s: seq<Post>)
  {
    forall i, j :: 0 <= i < j < |s| ==> s[i].pubDate > s[j].pubDate
  }

  /** In a newest-first listing, a post newer than every other post of the
      listing comes first. */
  lemma NewestComesFirst(r: seq<Post>, p: Post)
    requires NewestFirst(r)
    requires p in r
    requires forall q :: q in r && q != p ==> q.pubDate < p.pubDate
    ensures r[0] == p
  {
    var j :| 0 <= j < |r| && r[j] == p;
    if j != 0 {
      assert r[0].pubDate > r[j].pubDate;
    }
  }

  /** No row occurs twice. */
  ghost predicate Distinct<T(!new)>(s: seq<T>)
  {
    forall x :: multiset(s)[x] <= 1
  }

  /** Ids of the posts of a table. */
  ghost function Ids(s: seq<Post>): (r: set<nat>)
  {
    set p | p in s :: p.id
  }

  /** Rewriting rows without touching their ids keeps the set of ids. */
  lemma SameIds(s: seq<Post>, t: seq<Post>)
    requires |s| == |t|
    requires forall i :: 0 <= i < |s| ==> s[i].id == t[i].id
    ensures Ids(s) == Ids(t)
  {
    forall x | x in Ids(s) ensures x in Ids(t) {
      var q :| q in s && q.id == x;
      var j :| 0 <= j < |s| && s[j] == q;
      assert t[j] in t;
    }
    forall x | x in Ids(t) ensures x in Ids(s) {
      var q :| q in t && q.id == x;
      var j :| 0 <= j < |t| && t[j] == q;
      assert s[j] in s;
    }
  }

  /** Every row after an update at one position is the new row or an old one. */
  lemma UpdatedRows<T>(s: seq<T>, k: nat, x: T)
    requires k < |s|
    ensures forall q :: q in s[k := x] ==> q == x || q in s
  {
    forall q | q in s[k := x] ensures q == x || q in s {
      var j :| 0 <= j < |s| && s[k := x][j] == q;
      if j != k {
        assert s[j] == q;
      }
    }
  }

  /** Filtering a chronological table keeps it chronological. */
  lemma {:induction false} SelectChronological(s: seq<Post>, keep: Post -> bool)
    requires Chronological(s)
    ensures Chronological(Select(s, keep))
  {
    if s != [] {
      var tail := s[1..];
      TailChronological(s);
      SelectChronological(tail, keep);
      var rest := Select(tail, keep);
      if keep(s[0]) {
        forall q | q in rest
          ensures s[0].id < q.id && s[0].pubDate < q.pubDate
        {
          var k :| 0 <= k < |tail| && tail[k] == q;
          assert s[k + 1] == q;
        }
        ConsChronological(s[0], rest);
        assert Select(s, keep) == [s[0]] + rest;
      } else {
        assert Select(s, keep) == rest;
      }
    }
  }

  lemma TailChronological(s: seq<Post>)
    requires s != [] && Chronological(s)
    ensures Chronological(s[1..])
  {
    var tail := s[1..];
    forall i, j | 0 <= i < j < |tail|
      ensures tail[i].id < tail[j].id && tail[i].pubDate < tail[j].pubDate
    {
      assert tail[i] == s[i + 1] && tail[j] == s[j + 1];
    }
  }

  lemma ConsChronological(p: Post, rest: seq<Post>)
    requires Chronological(rest)
    requires forall q :: q in rest ==> p.id < q.id && p.pubDate < q.pubDate
    ensures Chronological([p] + rest)
  {
    var r := [p] + rest;
    forall i, j | 0 <= i < j < |r|
      ensures r[i].id < r[j].id && r[i].pubDate < r[j].pubDate
    {
      assert r[j] == rest[j - 1];
      if i > 0 {
        assert r[i] == rest[i - 1];
      }
    }
  }

  /** A table in saving order, read backwards, is newest first. */
  lemma ReverseNewestFirst(s: seq<Post>)
    requires Chronological(s)
    ensures NewestFirst(Reverse(s))
  {
    var r := Reverse(s);
    forall i, j | 0 <= i < j < |r|
      ensures r[i].pubDate > r[j].pubDate
    {
      assert r[i] == s[|s| - 1 - i] && r[j] == s[|s| - 1 - j];
    }
  }
}
