/** Pagination of the post listings: the fixed page size of the views and the
    page-selection rules of the paginator they hand every listing to. */
module Paging {
  import opened Models

  /** Number of posts on one listing page (POSTS_COUNT). */
  const PostsCount: nat := 10

  /** The `page` query parameter as the paginator classifies it: missing,
      present but not an integer, or an integer. */
  datatype PageParam = Absent | NotAnInteger | Number(n: int)

  /** One page of a listing: its 1-based number, the total page count of the
      listing and the items shown on it. */
  datatype Page<T> = Page(number: nat, numPages: nat, items: seq<T>)

  /** Page count of a listing of `count` items; an empty listing still has one
      (empty) page, as the paginator allows an empty first page. */
  function NumPages(count: nat): (r: nat)
    ensures r >= 1
    ensures count <= r * PostsCount
    ensures r == 1 || (r - 1) * PostsCount < count
  {
    if count == 0 then 1 else (count + PostsCount - 1) / PostsCount
  }

  /** The page number `get_page` settles on: a missing or non-integer
      parameter means page 1, an integer outside 1..NumPages means the last
      page, any other integer is honoured. */
  function PageNumber(count: nat, param: PageParam): (k: nat)
    ensures 1 <= k <= NumPages(count)
    ensures param.Number? && 1 <= param.n <= NumPages(count) ==> k == param.n
    ensures param.Number? && (param.n < 1 || param.n > NumPages(count)) ==> k == NumPages(count)
    ensures !param.Number? ==> k == 1
  {
    match param
    case Absent => 1
    case NotAnInteger => 1
    case Number(n) => if n < 1 || n > NumPages(count) then NumPages(count) else n
  }

  /** `get_page_context`: the page of `items` selected by `param`. A page is
      the consecutive window of at most PostsCount items starting at
      (number - 1) * PostsCount; every page but the last is full and the last
      one reaches the end of the listing. */
  function GetPage<T>(items: seq<T>, param: PageParam): (p: Page<T>)
    ensures p.number == PageNumber(|items|, param)
    ensures p.numPages == NumPages(|items|) && 1 <= p.number <= p.numPages
    ensures |p.items| <= PostsCount
    ensures Start(p.number) + |p.items| <= |items|
    ensures p.items == items[Start(p.number)..Start(p.number) + |p.items|]
    ensures p.number < p.numPages ==> |p.items| == PostsCount
    ensures p.number == p.numPages ==> Start(p.number) + |p.items| == |items|
    ensures forall x :: x in p.items ==> x in items
  {
    var k := PageNumber(|items|, param);
    var lo := Start(k);
    var hi := if lo + PostsCount >= |items| then |items| else lo + PostsCount;
    Page(k, NumPages(|items|), items[lo..hi])
  }

  /** Index in the listing of the first item of page `k`. */
  function Start(k: nat): (r: nat)
    ensures k >= 1 ==> r + PostsCount == k * PostsCount
  {
    if k == 0 then 0 else (k - 1) * PostsCount
  }

  /** The query string of a request: its (name, value) pairs in order. */
  type Query = seq<(string, string)>

  /** `request.GET.get(name)`: the last value the query gives for `name`, or
      none when the name does not occur. */
  function QueryGet(query: Query, name: string): (r: Option<string>)
    ensures r.None? <==> forall i :: 0 <= i < |query| ==> query[i].0 != name
    ensures r.Some? ==> (name, r.value) in query
  {
    if query == [] then None
    else match QueryGet(query[1..], name)
      case Some(v) => Some(v)
      case None => if query[0].0 == name then Some(query[0].1) else None
  }

  /** A value given after all others for `name` is the one read. */
  lemma {:induction false} QueryGetLast(query: Query, name: string, value: string)
    ensures QueryGet(query + [(name, value)], name) == Some(value)
  {
    if query != [] {
      QueryGetLast(query[1..], name, value);
      assert (query + [(name, value)])[1..] == query[1..] + [(name, value)];
    }
  }

  /** A pair for another name added at the end changes nothing. */
  lemma {:induction false} QueryGetOther(query: Query, name: string, pair: (string, string))
    requires pair.0 != name
    ensures QueryGet(query + [pair], name) == QueryGet(query, name)
  {
    if query != [] {
      QueryGetOther(query[1..], name, pair);
      assert (query + [pair])[1..] == query[1..] + [pair];
    }
  }

  /** A non-empty run of decimal digits. */
  predicate IsDigits(s: string)
  {
    |s| > 0 && forall i :: 0 <= i < |s| ==> '0' <= s[i] <= '9'
  }

  /** The number a run of decimal digits denotes. */
  function DigitsValue(s: string): nat
    requires forall i :: 0 <= i < |s| ==> '0' <= s[i] <= '9'
  {
    if s == [] then 0 else DigitsValue(s[..|s| - 1]) * 10 + (s[|s| - 1] as int - '0' as int)
  }

  /** `int(value)` as the paginator applies it to the page value: an optional
      sign followed by decimal digits; anything else is not an integer. */
  function ParseInt(s: string): (r: Option<int>)
    ensures IsDigits(s) ==> r == Some(DigitsValue(s))
    ensures |s| > 1 && (s[0] == '-' || s[0] == '+') && IsDigits(s[1..]) ==>
              r == Some(if s[0] == '-' then -(DigitsValue(s[1..]) as int) else DigitsValue(s[1..]))
    ensures r.Some? ==> IsDigits(s) || (|s| > 1 && (s[0] == '-' || s[0] == '+') && IsDigits(s[1..]))
  {
    if IsDigits(s) then Some(DigitsValue(s))
    else if |s| > 1 && (s[0] == '-' || s[0] == '+') && IsDigits(s[1..]) then
      var v: int := DigitsValue(s[1..]);
      Some(if s[0] == '-' then -v else v)
    else None
  }

  /** How `get_page` classifies the raw `page` value of the request. */
  function ParsePage(raw: Option<string>): (r: PageParam)
    ensures r.Absent? <==> raw.None?
    ensures r.NotAnInteger? <==> raw.Some? && ParseInt(raw.value).None?
    ensures r.Number? ==> raw.Some? && ParseInt(raw.value) == Some(r.n)
  {
    match raw
    case None => Absent
    case Some(s) =>
      match ParseInt(s)
      case None => NotAnInteger
      case Some(n) => Number(n)
  }

  /** `get_page_context`: the page of `items` the request's `page` value
      selects. */
  function PageContext<T>(items: seq<T>, query: Query): (p: Page<T>)
    ensures p.number == PageNumber(|items|, ParsePage(QueryGet(query, "page")))
    ensures p == GetPage(items, ParsePage(QueryGet(query, "page")))
  {
    GetPage(items, ParsePage(QueryGet(query, "page")))
  }

  /** Decimal digits of `n`, without leading zeros. */
  function NatDigits(n: nat): (s: string)
    ensures IsDigits(s)
  {
    if n < 10 then [('0' as int + n) as char]
    else NatDigits(n / 10) + [('0' as int + n % 10) as char]
  }

  /** Decimal form of `n`, with a minus sign when negative. */
  function IntString(n: int): string
  {
    if n < 0 then "-" + NatDigits(-n) else NatDigits(n)
  }

  lemma {:induction false} DigitsRoundTrip(n: nat)
    ensures DigitsValue(NatDigits(n)) == n
  {
    if n >= 10 {
      DigitsRoundTrip(n / 10);
      var s := NatDigits(n);
      assert s[..|s| - 1] == NatDigits(n / 10);
    }
  }

  /** A page link carrying the decimal form of any integer selects that
      integer. */
  lemma PageValueRoundTrip(n: int)
    ensures ParsePage(Some(IntString(n))) == Number(n)
  {
    if n < 0 {
      DigitsRoundTrip(-n);
      assert ("-" + NatDigits(-n))[1..] == NatDigits(-n);
    } else {
      DigitsRoundTrip(n);
    }
  }

  /** `?page=01` selects page 1, `?page=abc` and `?page=2.0` are not
      integers, and the last `page` value of the query wins. */
  lemma PageValueExamples()
    ensures ParsePage(QueryGet([("page", "01")], "page")) == Number(1)
    ensures ParsePage(QueryGet([("page", "abc")], "page")) == NotAnInteger
    ensures ParsePage(QueryGet([("page", "2.0")], "page")) == NotAnInteger
    ensures ParsePage(QueryGet([("page", "3"), ("x", "1"), ("page", "2")], "page")) == Number(2)
    ensures ParsePage(QueryGet([("x", "1")], "page")) == Absent
  {
    assert DigitsValue("01") == 1 by {
      assert "01"[..1] == "0";
    }
    assert "abc"[0] == 'a';
    assert "2.0"[1] == '.';
  }

  /** The first page, which a missing parameter also selects, is the first
      min(PostsCount, N) of the N items of the listing. */
  lemma FirstPage<T>(items: seq<T>)
    ensures GetPage(items, Number(1)).items == items[..if |items| < PostsCount then |items| else PostsCount]
    ensures GetPage(items, Absent) == GetPage(items, Number(1))
  {
  }

  /** With 24 posts the pages hold 10, 10 and 4 posts; a page past the end or
      below 1 shows the last page, a garbled parameter the first. */
  lemma TwentyFourPosts<T>(items: seq<T>)
    requires |items| == 24
    ensures |GetPage(items, Number(1)).items| == 10
    ensures |GetPage(items, Number(2)).items| == 10
    ensures |GetPage(items, Number(3)).items| == 4
    ensures |GetPage(items, Number(2)).items| == PostsCount % |items|
    ensures GetPage(items, Number(7)) == GetPage(items, Number(3))
    ensures GetPage(items, Number(0)) == GetPage(items, Number(3))
    ensures GetPage(items, NotAnInteger) == GetPage(items, Number(1))
  {
  }

  /** Every item of a listing is shown on page i / PostsCount + 1, at
      position i % PostsCount: paging loses nothing. */
  lemma ItemOnItsPage<T>(items: seq<T>, i: nat)
    requires i < |items|
    ensures var p := GetPage(items, Number(i / PostsCount + 1));
            p.number == i / PostsCount + 1 &&
            i % PostsCount < |p.items| && p.items[i % PostsCount] == items[i]
  {
    var k := i / PostsCount + 1;
    assert (k - 1) * PostsCount <= i < k * PostsCount;
    assert k <= NumPages(|items|);
  }

  /** The items of pages `from`, `from` + 1, ..., NumPages concatenated. */
  ghost function PagesFrom<T>(items: seq<T>, from: nat): seq<T>
    requires 1 <= from
    decreases NumPages(|items|) + 1 - from
  {
    if from > NumPages(|items|) then []
    else GetPage(items, Number(from)).items + PagesFrom(items, from + 1)
  }

  lemma {:induction false} PagesFromIsSuffix<T>(items: seq<T>, from: nat)
    requires 1 <= from <= NumPages(|items|) + 1
    ensures Start(from) <= |items| ==> PagesFrom(items, from) == items[Start(from)..]
    ensures Start(from) > |items| ==> PagesFrom(items, from) == []
    decreases NumPages(|items|) + 1 - from
  {
    if from <= NumPages(|items|) {
      PagesFromIsSuffix(items, from + 1);
      var p := GetPage(items, Number(from));
      assert p.number == from;
      if from < NumPages(|items|) {
        assert Start(from + 1) == Start(from) + PostsCount <= |items|;
      } else {
        assert Start(from) + |p.items| == |items|;
      }
      assert p.items + items[Start(from) + |p.items|..] == items[Start(from)..];
    }
  }

  /** Reading pages 1..NumPages in order yields exactly the listing: the
      pages partition it, with no item dropped, repeated or reordered. */
  lemma {:induction false} PagesPartitionListing<T>(items: seq<T>)
    ensures PagesFrom(items, 1) == items
  {
    PagesFromIsSuffix(items, 1);
  }
}
