/**
 * The post-summary helpers: sorting entries newest first, projecting an
 * entry onto its summary, the "recent" and "all" summary lists, and the
 * tag vocabulary offered by the list page's filter.
 */
module Posts {
  import opened Wrappers
  import opened BlogTypes
  import IsoDate

  /** The sentinel tag that stands for "no filter" (全部, "all"). */
  const AllTag: string := "全部"

  /** The tag of a summary whose entry has no usable first tag (文章, "article"). */
  const FallbackTag: string := "文章"

  // =====================================================================
  // sortPostsByDate: a stable sort, newest first.
  // =====================================================================

  /** Publish dates never increase along `s`. */
  predicate SortedByDate(s: seq<Post>) {
    forall i, j :: 0 <= i < j < |s| ==> s[i].pubDate >= s[j].pubDate
  }

  /** The posts of `s` published at time `d`, in their order in `s`. */
  function WithDate(s: seq<Post>, d: int): seq<Post> {
    if s == [] then []
    else (if s[0].pubDate == d then [s[0]] else []) + WithDate(s[1..], d)
  }

  lemma {:induction false} WithDateMembers(s: seq<Post>, d: int, p: Post)
    ensures p in WithDate(s, d) <==> p in s && p.pubDate == d
  {
    if s != [] {
      WithDateMembers(s[1..], d, p);
    }
  }

  /**
   * Places `p` in front of the first post that is not newer than it. Since
   * `p` comes before all of `s` in the input, putting it ahead of the posts
   * with the same date is what keeps the sort stable.
   */
  function Insert(p: Post, s: seq<Post>): (r: seq<Post>)
    ensures |r| == |s| + 1
    ensures multiset(r) == multiset(s) + multiset{p}
  {
    if s == [] || p.pubDate >= s[0].pubDate then [p] + s
    else
      assert s == [s[0]] + s[1..];
      [s[0]] + Insert(p, s[1..])
  }

  /**
   * `[...posts].sort((a, b) => b.pubDate - a.pubDate)`: the comparator is
   * negative exactly when `a` is newer, and the sort is stable, so posts
   * come newest first and posts with the same date keep their input order.
   * The subtraction of two time values is inexact above 2^53, but its sign
   * is always the sign of the exact difference, so only the order matters.
   */
  function SortPostsByDate(posts: seq<Post>): (r: seq<Post>)
    ensures |r| == |posts|
    ensures multiset(r) == multiset(posts)
    ensures SortedByDate(r)
  {
    if posts == [] then []
    else
      assert posts == [posts[0]] + posts[1..];
      var rest := SortPostsByDate(posts[1..]);
      InsertKeepsSorted(posts[0], rest);
      Insert(posts[0], rest)
  }

  /** A post no older than anything in a newest-first list may go in front of it. */
  lemma SortedCons(x: Post, t: seq<Post>)
    requires SortedByDate(t)
    requires forall i | 0 <= i < |t| :: t[i].pubDate <= x.pubDate
    ensures SortedByDate([x] + t)
  {
    forall i, j | 0 <= i < j < |t| + 1 ensures ([x] + t)[i].pubDate >= ([x] + t)[j].pubDate {
      assert ([x] + t)[j] == t[j - 1];
      if i > 0 {
        assert ([x] + t)[i] == t[i - 1];
      }
    }
  }

  lemma {:induction false} InsertKeepsSorted(p: Post, s: seq<Post>)
    requires SortedByDate(s)
    ensures SortedByDate(Insert(p, s))
  {
    if s == [] || p.pubDate >= s[0].pubDate {
      SortedCons(p, s);
    } else {
      var rest := Insert(p, s[1..]);
      assert SortedByDate(s[1..]);
      InsertKeepsSorted(p, s[1..]);
      forall i | 0 <= i < |rest| ensures rest[i].pubDate <= s[0].pubDate {
        assert rest[i] in multiset(rest);
        if rest[i] != p {
          assert rest[i] in multiset(s[1..]);
          var k :| 0 <= k < |s[1..]| && s[1..][k] == rest[i];
          assert s[k + 1] == rest[i];
        }
      }
      SortedCons(s[0], rest);
    }
  }

  lemma WithDateCons(x: Post, t: seq<Post>, d: int)
    ensures WithDate([x] + t, d) == (if x.pubDate == d then [x] else []) + WithDate(t, d)
  {
    assert ([x] + t)[1..] == t;
  }

  lemma {:induction false} InsertKeepsDateOrder(p: Post, s: seq<Post>, d: int)
    ensures WithDate(Insert(p, s), d) == (if p.pubDate == d then [p] else []) + WithDate(s, d)
  {
    if s == [] || p.pubDate >= s[0].pubDate {
      WithDateCons(p, s, d);
    } else {
      var rest := Insert(p, s[1..]);
      InsertKeepsDateOrder(p, s[1..], d);
      WithDateCons(s[0], rest, d);
      WithDateCons(s[0], s[1..], d);
      assert s == [s[0]] + s[1..];
      if p.pubDate == d {
        // `s[0]` is newer than `p`, so it is not dated `d`.
        assert WithDate(Insert(p, s), d) == [p] + WithDate(s[1..], d);
        assert WithDate(s, d) == WithDate(s[1..], d);
      } else {
        assert WithDate(Insert(p, s), d) == WithDate(s, d);
      }
    }
  }

  /** Stability: for every date, the posts of that date appear in the same order before and after sorting. */
  lemma {:induction false} SortIsStable(posts: seq<Post>, d: int)
    ensures WithDate(SortPostsByDate(posts), d) == WithDate(posts, d)
  {
    if posts != [] {
      SortIsStable(posts[1..], d);
      InsertKeepsDateOrder(posts[0], SortPostsByDate(posts[1..]), d);
    }
  }

  lemma NewestIsListed(s: seq<Post>)
    ensures s != [] ==> WithDate(s, s[0].pubDate) != []
  {
  }

  /**
   * Being newest first and keeping each date's order decides the order
   * completely: any two such arrangements of the same posts are equal.
   */
  lemma {:induction false} SortedStableUnique(a: seq<Post>, b: seq<Post>)
    requires SortedByDate(a) && SortedByDate(b)
    requires forall d :: WithDate(a, d) == WithDate(b, d)
    ensures a == b
    decreases |a| + |b|
  {
    if a == [] && b == [] {
    } else if a == [] {
      NewestIsListed(b);
      assert false;
    } else if b == [] {
      NewestIsListed(a);
      assert false;
    } else {
      var da, db := a[0].pubDate, b[0].pubDate;
      if da > db {
        WithDateMembers(b, da, a[0]);
        assert false;
      }
      if db > da {
        WithDateMembers(a, db, b[0]);
        assert false;
      }
      var wa, wb := WithDate(a[1..], da), WithDate(b[1..], da);
      assert WithDate(a, da) == [a[0]] + wa;
      assert WithDate(b, da) == [b[0]] + wb;
      assert a[0] == ([a[0]] + wa)[0] == ([b[0]] + wb)[0] == b[0];
      assert wa == ([a[0]] + wa)[1..] == ([b[0]] + wb)[1..] == wb;
      forall d ensures WithDate(a[1..], d) == WithDate(b[1..], d) {
        if d != da {
          assert WithDate(a, d) == WithDate(a[1..], d);
          assert WithDate(b, d) == WithDate(b[1..], d);
        }
      }
      SortedStableUnique(a[1..], b[1..]);
      assert a == [a[0]] + a[1..];
      assert b == [b[0]] + b[1..];
    }
  }

  /** Any arrangement of `posts` that is newest first and stable is the one SortPostsByDate returns. */
  lemma SortIsTheStableSort(posts: seq<Post>, r: seq<Post>)
    requires SortedByDate(r)
    requires forall d :: WithDate(r, d) == WithDate(posts, d)
    ensures r == SortPostsByDate(posts)
  {
    forall d ensures WithDate(r, d) == WithDate(SortPostsByDate(posts), d) {
      SortIsStable(posts, d);
    }
    SortedStableUnique(r, SortPostsByDate(posts));
  }

  // =====================================================================
  // toPostSummary
  // =====================================================================

  /** `post.data.tags?.[0]`: undefined when the field is absent or the list is empty. */
  function FirstTag(tags: Option<seq<string>>): Option<string> {
    if tags.Some? && |tags.value| > 0 then Some(tags.value[0]) else None
  }

  /** `x || fallback` on a string that may be undefined: the empty string is falsy too. */
  function OrElse(x: Option<string>, fallback: string): string {
    if x.Some? && x.value != "" then x.value else fallback
  }

  /** The display summary of one post. */
  function ToPostSummary(post: Post): (r: PostSummary)
    ensures r.slug == post.slug && r.title == post.title && r.excerpt == post.description
    ensures IsoDate.DecodeDate(r.date) == Some(IsoDate.CivilOf(post.pubDate))
    ensures r.tag != ""
    ensures post.tags.Some? && |post.tags.value| > 0 && post.tags.value[0] != ""
      ==> r.tag == post.tags.value[0]
    ensures post.tags.None? || |post.tags.value| == 0 || post.tags.value[0] == ""
      ==> r.tag == FallbackTag
  {
    IsoDate.DateOnlyDecodes(post.pubDate);
    PostSummary(
      post.slug,
      post.title,
      post.description,
      IsoDate.DateOnly(post.pubDate),
      OrElse(FirstTag(post.tags), FallbackTag))
  }

  /** The summary tag is the fallback exactly when the post has no first tag other than "" or the fallback itself. */
  lemma SummaryTagIsFallback(post: Post)
    ensures ToPostSummary(post).tag == FallbackTag
      <==> post.tags.None? || |post.tags.value| == 0
           || post.tags.value[0] == "" || post.tags.value[0] == FallbackTag
  {
  }

  // =====================================================================
  // getRecentPostSummaries / getAllPostSummaries
  // =====================================================================

  function Min(a: int, b: int): int {
    if a <= b then a else b
  }

  function Max(a: int, b: int): int {
    if a >= b then a else b
  }

  /** The index `slice` derives from an argument: negative values count back from the end. */
  function RelativeIndex(k: int, len: nat): (i: nat)
    ensures i <= len
  {
    if k < 0 then Max(len + k, 0) else Min(k, len)
  }

  /** `Array.prototype.slice(start, end)` (section 23.1.3.28 of ECMA-262) on integer arguments. */
  function Slice<T>(s: seq<T>, start: int, end: int): (r: seq<T>)
    ensures r <= s[RelativeIndex(start, |s|)..]
    ensures |r| == Max(RelativeIndex(end, |s|) - RelativeIndex(start, |s|), 0)
  {
    var from := RelativeIndex(start, |s|);
    var to := RelativeIndex(end, |s|);
    if from < to then s[from..to] else []
  }

  /** `Array.prototype.map` with a callback that ignores the index. */
  function Map<A, B>(f: A -> B, s: seq<A>): (r: seq<B>)
    ensures |r| == |s|
    ensures forall i | 0 <= i < |s| :: r[i] == f(s[i])
  {
    seq(|s|, i requires 0 <= i < |s| => f(s[i]))
  }

  /** `posts.map(toPostSummary)`. */
  function Summaries(posts: seq<Post>): seq<PostSummary> {
    Map(ToPostSummary, posts)
  }

  /** `sortPostsByDate(posts).slice(0, limit).map(toPostSummary)`. */
  function GetRecentPostSummaries(posts: seq<Post>, limit: int): seq<PostSummary> {
    Summaries(Slice(SortPostsByDate(posts), 0, limit))
  }

  /** `sortPostsByDate(posts).map(toPostSummary)`. */
  function GetAllPostSummaries(posts: seq<Post>): seq<PostSummary> {
    Summaries(SortPostsByDate(posts))
  }

  lemma MapConcat<A, B>(f: A -> B, a: seq<A>, b: seq<A>)
    ensures Map(f, a + b) == Map(f, a) + Map(f, b)
  {
  }

  /** Taking one element out of a list takes its image out of the mapped list. */
  lemma MapWithout<A, B>(f: A -> B, s: seq<A>, k: nat)
    requires k < |s|
    ensures multiset(Map(f, s)) == multiset(Map(f, s[..k] + s[k + 1..])) + multiset{f(s[k])}
  {
    var s1, s2 := s[..k], s[k + 1..];
    assert s == s1 + [s[k]] + s2;
    MapConcat(f, s1 + [s[k]], s2);
    MapConcat(f, s1, [s[k]]);
    MapConcat(f, s1, s2);
    var m1, m2 := multiset(Map(f, s1)), multiset(Map(f, s2));
    var mk := multiset(Map(f, [s[k]]));
    assert multiset(Map(f, s)) == m1 + mk + m2;
    assert multiset(Map(f, s1 + s2)) == m1 + m2;
    assert m1 + mk + m2 == (m1 + m2) + mk;
  }

  /** The head of `a` occurs in `b`, and the two tails left after removing it from both hold the same elements. */
  lemma MatchHead<A>(a: seq<A>, b: seq<A>) returns (k: nat)
    requires a != [] && multiset(a) == multiset(b)
    ensures k < |b| && b[k] == a[0]
    ensures multiset(a[1..]) == multiset(b[..k] + b[k + 1..])
  {
    var x := a[0];
    assert x in multiset(b);
    k :| 0 <= k < |b| && b[k] == x;
    assert b == b[..k] + [x] + b[k + 1..];
    assert a == [x] + a[1..];
    assert multiset(a[1..]) == multiset(a) - multiset{x};
    assert multiset(b[..k] + b[k + 1..]) == multiset(b) - multiset{x};
  }

  /** Mapping preserves "same elements, counted with multiplicity". */
  lemma {:induction false} MapMultiset<A, B>(f: A -> B, a: seq<A>, b: seq<A>)
    requires multiset(a) == multiset(b)
    ensures multiset(Map(f, a)) == multiset(Map(f, b))
    decreases |a|
  {
    if a != [] {
      var k := MatchHead(a, b);
      var rest := b[..k] + b[k + 1..];
      MapMultiset(f, a[1..], rest);
      MapWithout(f, b, k);
      assert a == [a[0]] + a[1..];
      MapConcat(f, [a[0]], a[1..]);
      assert multiset(Map(f, a)) == multiset(Map(f, [a[0]])) + multiset(Map(f, a[1..]));
      assert multiset(Map(f, [a[0]])) == multiset{f(b[k])};
    }
  }

  /**
   * The full list has one summary per post, they are the summaries of the
   * posts in some order (counted with multiplicity), and they follow the
   * newest-first order of SortPostsByDate.
   */
  lemma AllSummariesArePostSummaries(posts: seq<Post>)
    ensures |GetAllPostSummaries(posts)| == |posts|
    ensures multiset(GetAllPostSummaries(posts)) == multiset(Summaries(posts))
    ensures forall i | 0 <= i < |posts| ::
      GetAllPostSummaries(posts)[i] == ToPostSummary(SortPostsByDate(posts)[i])
  {
    MapMultiset(ToPostSummary, SortPostsByDate(posts), posts);
  }

  /**
   * For a non-negative limit the recent list holds min(limit, |posts|)
   * summaries; for a negative limit `slice` counts from the end and drops
   * the last |limit| of them. Either way it is a prefix of the full list.
   */
  lemma RecentIsPrefixOfAll(posts: seq<Post>, limit: int)
    ensures var r := GetRecentPostSummaries(posts, limit);
      && (limit >= 0 ==> |r| == Min(limit, |posts|))
      && (limit < 0 ==> |r| == Max(|posts| + limit, 0))
      && r == GetAllPostSummaries(posts)[..|r|]
  {
    var sorted := SortPostsByDate(posts);
    var sliced := Slice(sorted, 0, limit);
    assert sliced == sorted[..|sliced|];
    MapPrefix(ToPostSummary, sorted, |sliced|);
  }

  lemma MapPrefix<A, B>(f: A -> B, s: seq<A>, k: nat)
    requires k <= |s|
    ensures Map(f, s[..k]) == Map(f, s)[..k]
  {
  }

  /** A limit at least the number of posts gives the full list. */
  lemma RecentWithLargeLimitIsAll(posts: seq<Post>, limit: int)
    requires limit >= |posts|
    ensures GetRecentPostSummaries(posts, limit) == GetAllPostSummaries(posts)
  {
    RecentIsPrefixOfAll(posts, limit);
  }

  // =====================================================================
  // getUniqueTags
  // =====================================================================

  /** No element occurs twice. */
  predicate NoDuplicates(s: seq<string>) {
    forall i, j :: 0 <= i < j < |s| ==> s[i] != s[j]
  }

  /** The position of the first occurrence of `x` in `s`. */
  function FirstIndex(s: seq<string>, x: string): (k: nat)
    requires x in s
    ensures k < |s| && s[k] == x && x !in s[..k]
  {
    if s[0] == x then 0 else 1 + FirstIndex(s[1..], x)
  }

  /** The elements of `r` are ordered by the positions where they first occur in `xs`. */
  predicate InFirstSeenOrder(r: seq<string>, xs: seq<string>) {
    forall i, j :: 0 <= i < j < |r| && r[i] in xs && r[j] in xs
      ==> FirstIndex(xs, r[i]) < FirstIndex(xs, r[j])
  }

  /** `set.add(x)` on a JavaScript Set of strings, which remembers the order in which values were first added. */
  function SetAdd(set_: seq<string>, x: string): seq<string> {
    if x in set_ then set_ else set_ + [x]
  }

  /** The iteration order of `new Set(xs)`: each value once, where it was first added. */
  function InsertionOrderedSet(xs: seq<string>): (r: seq<string>)
    ensures NoDuplicates(r)
    ensures forall x :: x in r <==> x in xs
  {
    if xs == [] then []
    else SetAdd(InsertionOrderedSet(xs[..|xs| - 1]), xs[|xs| - 1])
  }

  lemma FirstIndexInPrefix(ys: seq<string>, y: string, x: string)
    requires x in ys
    ensures FirstIndex(ys + [y], x) == FirstIndex(ys, x)
  {
    var k := FirstIndex(ys, x);
    assert (ys + [y])[..k] == ys[..k];
    FirstIndexIsFirst(ys + [y], x, k);
  }

  lemma FirstIndexIsFirst(s: seq<string>, x: string, k: nat)
    requires k < |s| && s[k] == x && x !in s[..k]
    ensures FirstIndex(s, x) == k
  {
  }

  /** The Set lists values in the order of their first occurrences in `xs`. */
  lemma {:induction false} InsertionOrderIsFirstSeen(xs: seq<string>)
    ensures InFirstSeenOrder(InsertionOrderedSet(xs), xs)
  {
    if xs != [] {
      var ys, y := xs[..|xs| - 1], xs[|xs| - 1];
      assert xs == ys + [y];
      var s := InsertionOrderedSet(ys);
      InsertionOrderIsFirstSeen(ys);
      var r := InsertionOrderedSet(xs);
      forall i | 0 <= i < |s| ensures FirstIndex(xs, s[i]) == FirstIndex(ys, s[i]) < |ys| {
        FirstIndexInPrefix(ys, y, s[i]);
      }
      assert r == if y in s then s else s + [y];
      if y !in s {
        FirstIndexIsFirst(xs, y, |ys|);
      }
      forall i, j | 0 <= i < j < |r| && r[i] in xs && r[j] in xs
        ensures FirstIndex(xs, r[i]) < FirstIndex(xs, r[j])
      {
        assert r[i] == s[i] && s[i] in ys;
        if j < |s| {
          assert r[j] == s[j] && s[j] in ys;
          assert FirstIndex(ys, s[i]) < FirstIndex(ys, s[j]);
        } else {
          assert r[j] == y;
        }
      }
    }
  }

  /** A list without duplicates has as many elements as its set of elements. */
  lemma {:induction false} DistinctCount(s: seq<string>)
    requires NoDuplicates(s)
    ensures |set x | x in s| == |s|
  {
    if s != [] {
      var t := s[..|s| - 1];
      assert s == t + [s[|s| - 1]];
      assert (set x | x in s) == (set x | x in t) + {s[|s| - 1]};
      assert s[|s| - 1] !in t;
      DistinctCount(t);
    }
  }

  /** `posts.map((post) => post.tag)`. */
  function TagsOf(posts: seq<PostSummary>): seq<string> {
    Map((post: PostSummary) => post.tag, posts)
  }

  /** `['全部', ...new Set(posts.map((post) => post.tag))]`. */
  function GetUniqueTags(posts: seq<PostSummary>): (r: seq<string>)
    ensures |r| >= 1 && r[0] == AllTag
    ensures NoDuplicates(r[1..])
    ensures forall t :: t in r[1..] <==> exists p :: p in posts && p.tag == t
  {
    var tags := TagsOf(posts);
    var rest := InsertionOrderedSet(tags);
    assert forall t :: t in tags <==> exists p :: p in posts && p.tag == t;
    assert ([AllTag] + rest)[1..] == rest;
    [AllTag] + rest
  }

  /** After the sentinel each distinct tag appears once, in the order of its first appearance among the posts. */
  lemma UniqueTagsFirstSeenOrder(posts: seq<PostSummary>)
    ensures InFirstSeenOrder(GetUniqueTags(posts)[1..], TagsOf(posts))
  {
    var tags := TagsOf(posts);
    var r := GetUniqueTags(posts);
    assert r[1..] == InsertionOrderedSet(tags);
    InsertionOrderIsFirstSeen(tags);
  }

  /** The tag list has one entry more than there are distinct tags. */
  lemma UniqueTagsCount(posts: seq<PostSummary>)
    ensures |GetUniqueTags(posts)| == 1 + |set t | t in TagsOf(posts)|
  {
    var tags := TagsOf(posts);
    var rest := InsertionOrderedSet(tags);
    assert GetUniqueTags(posts) == [AllTag] + rest;
    DistinctCount(rest);
    assert (set t | t in rest) == (set t | t in tags);
  }

  /**
   * The sentinel is put in front outside the Set, so the whole list is free
   * of duplicates exactly when no post is tagged with the sentinel itself.
   */
  lemma UniqueTagsDistinctIff(posts: seq<PostSummary>)
    ensures NoDuplicates(GetUniqueTags(posts)) <==> forall p | p in posts :: p.tag != AllTag
  {
    var r := GetUniqueTags(posts);
    if NoDuplicates(r) {
      forall p | p in posts ensures p.tag != AllTag {
        assert p.tag in r[1..];
        var k :| 0 <= k < |r| - 1 && r[1..][k] == p.tag;
        assert r[k + 1] == p.tag;
      }
    }
    if forall p | p in posts :: p.tag != AllTag {
      forall i, j | 0 <= i < j < |r| ensures r[i] != r[j] {
        assert r[j] == r[1..][j - 1] && r[j] in r[1..];
        if i > 0 {
          assert r[i] == r[1..][i - 1];
        }
      }
    }
  }

  // =====================================================================
  // The cases exercised by the unit tests.
  // =====================================================================

  /** A post as the tests build it: one tag and the title plus " description" as description. */
  function TestPost(slug: string, title: string, pubDate: IsoDate.Timestamp, tag: string): Post {
    Post(slug, title, title + " description", pubDate, Some([tag]), false)
  }

  /** Posts a (2024-01-01), c (2024-03-01) and b (2024-02-01) with limit 2 give the slugs c, b. */
  lemma RecentExample()
    ensures var r := GetRecentPostSummaries(
        [TestPost("a", "A", 1_704_067_200_000, "技术"),
         TestPost("c", "C", 1_709_251_200_000, "设计"),
         TestPost("b", "B", 1_706_745_600_000, "技术")], 2);
      |r| == 2 && r[0].slug == "c" && r[1].slug == "b"
  {
    var a := TestPost("a", "A", 1_704_067_200_000, "技术");
    var c := TestPost("c", "C", 1_709_251_200_000, "设计");
    var b := TestPost("b", "B", 1_706_745_600_000, "技术");
    assert [a, c, b][1..] == [c, b];
    assert [c, b][1..] == [b];
    assert SortPostsByDate([b]) == [b];
    assert [b][1..] == [];
    assert Insert(c, [b]) == [c, b];
    assert Insert(a, [b]) == [b, a];
    assert Insert(a, [c, b]) == [c, b, a];
    assert SortPostsByDate([a, c, b]) == [c, b, a];
  }

  /** Tags 技术, 设计, 技术 give 全部, 技术, 设计. */
  lemma UniqueTagsExample()
    ensures GetUniqueTags([
        PostSummary("a", "A", "A", "2024-01-01", "技术"),
        PostSummary("b", "B", "B", "2024-01-02", "设计"),
        PostSummary("c", "C", "C", "2024-01-03", "技术")]) == ["全部", "技术", "设计"]
  {
    var posts := [
        PostSummary("a", "A", "A", "2024-01-01", "技术"),
        PostSummary("b", "B", "B", "2024-01-02", "设计"),
        PostSummary("c", "C", "C", "2024-01-03", "技术")];
    var tags := TagsOf(posts);
    assert tags == ["技术", "设计", "技术"];
    assert tags[..2] == ["技术", "设计"];
    assert tags[..2][..1] == ["技术"];
    assert tags[..2][..1][..0] == [];
    assert InsertionOrderedSet(tags[..2][..1]) == ["技术"];
    assert InsertionOrderedSet(tags[..2]) == ["技术", "设计"];
  }

  /** A single post a/A tagged 技术 gives one summary with slug a, title A and tag 技术. */
  lemma AllSummariesExample()
    ensures var r := GetAllPostSummaries([TestPost("a", "A", 1_704_067_200_000, "技术")]);
      |r| == 1 && r[0].slug == "a" && r[0].title == "A" && r[0].tag == "技术"
  {
    var a := TestPost("a", "A", 1_704_067_200_000, "技术");
    assert SortPostsByDate([a]) == [a];
  }
}
