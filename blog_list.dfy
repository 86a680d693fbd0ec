/**
 * The tag filter of the post-listing page: the selected tag, the list it
 * lets through, the empty-state message and the highlighted button.
 */
module BlogList {
  import opened BlogTypes
  import opened Posts

  /** `a` is what remains of `b` after deleting some of its elements. */
  predicate IsSubsequence(a: seq<PostSummary>, b: seq<PostSummary>) {
    a == [] || (b != [] && ((a[0] == b[0] && IsSubsequence(a[1..], b[1..])) || IsSubsequence(a, b[1..])))
  }

  lemma {:induction false} SubsequenceReflexive(s: seq<PostSummary>)
    ensures IsSubsequence(s, s)
  {
    if s != [] {
      SubsequenceReflexive(s[1..]);
    }
  }

  /** `posts.filter(post => post.tag === tag)`. */
  function WithTag(posts: seq<PostSummary>, tag: string): (r: seq<PostSummary>)
    ensures forall i | 0 <= i < |r| :: r[i].tag == tag
    ensures forall p :: multiset(r)[p] == if p.tag == tag then multiset(posts)[p] else 0
    ensures IsSubsequence(r, posts)
  {
    if posts == [] then []
    else
      assert posts == [posts[0]] + posts[1..];
      var rest := WithTag(posts[1..], tag);
      if posts[0].tag == tag then [posts[0]] + rest else rest
  }

  /**
   * `filteredPosts`: the sentinel lets every post through in its order;
   * any other tag keeps, in order, exactly the posts carrying that tag.
   */
  function FilterPosts(posts: seq<PostSummary>, activeTag: string): (r: seq<PostSummary>)
    ensures activeTag == AllTag ==> r == posts
    ensures IsSubsequence(r, posts)
    ensures activeTag != AllTag ==> forall i | 0 <= i < |r| :: r[i].tag == activeTag
    ensures activeTag != AllTag ==>
      forall p :: multiset(r)[p] == if p.tag == activeTag then multiset(posts)[p] else 0
  {
    if activeTag == AllTag then
      SubsequenceReflexive(posts);
      posts
    else
      WithTag(posts, activeTag)
  }

  lemma {:induction false} WithTagKeepsMatching(posts: seq<PostSummary>, tag: string)
    requires forall i | 0 <= i < |posts| :: posts[i].tag == tag
    ensures WithTag(posts, tag) == posts
  {
    if posts != [] {
      WithTagKeepsMatching(posts[1..], tag);
    }
  }

  /** Filtering the filtered list again with the same tag changes nothing. */
  lemma FilterIdempotent(posts: seq<PostSummary>, activeTag: string)
    ensures FilterPosts(FilterPosts(posts, activeTag), activeTag) == FilterPosts(posts, activeTag)
  {
    if activeTag != AllTag {
      WithTagKeepsMatching(FilterPosts(posts, activeTag), activeTag);
    }
  }

  /** `filteredPosts.length === 0`: the "no posts" message is shown. */
  function EmptyStateShown(posts: seq<PostSummary>, activeTag: string): bool {
    |FilterPosts(posts, activeTag)| == 0
  }

  /** The message shows exactly when there are no posts, or a tag other than the sentinel is selected that no post carries. */
  lemma EmptyStateIff(posts: seq<PostSummary>, activeTag: string)
    ensures EmptyStateShown(posts, activeTag)
      <==> posts == [] || (activeTag != AllTag && forall p | p in posts :: p.tag != activeTag)
  {
    var r := FilterPosts(posts, activeTag);
    if activeTag != AllTag && exists p | p in posts :: p.tag == activeTag {
      var p :| p in posts && p.tag == activeTag;
      assert multiset(r)[p] > 0;
    }
  }

  /** `activeTag === tag`: the button of `tag` is drawn as selected. */
  function ButtonActive(activeTag: string, tag: string): bool {
    activeTag == tag
  }

  /** The number of buttons of `tags` drawn as selected. */
  function ActiveCount(tags: seq<string>, activeTag: string): nat {
    if tags == [] then 0
    else (if ButtonActive(activeTag, tags[0]) then 1 else 0) + ActiveCount(tags[1..], activeTag)
  }

  /** With distinct tags exactly one button is selected when the selected tag is listed, and none otherwise. */
  lemma {:induction false} OneActiveButton(tags: seq<string>, activeTag: string)
    requires NoDuplicates(tags)
    ensures ActiveCount(tags, activeTag) == if activeTag in tags then 1 else 0
  {
    if tags != [] {
      assert NoDuplicates(tags[1..]) by {
        forall i, j | 0 <= i < j < |tags| - 1 ensures tags[1..][i] != tags[1..][j] {
          assert tags[1..][i] == tags[i + 1] && tags[1..][j] == tags[j + 1];
        }
      }
      OneActiveButton(tags[1..], activeTag);
      assert tags == [tags[0]] + tags[1..];
      if tags[0] == activeTag {
        assert activeTag !in tags[1..] by {
          forall k | 0 <= k < |tags| - 1 ensures tags[1..][k] != activeTag {
            assert tags[1..][k] == tags[k + 1];
          }
        }
      }
    }
  }

  /**
   * Selecting any tag the filter offers for these posts shows the empty
   * state only when there are no posts at all.
   */
  lemma ListedTagNeverEmpty(posts: seq<PostSummary>, tag: string)
    requires tag in GetUniqueTags(posts)
    ensures EmptyStateShown(posts, tag) <==> posts == []
  {
    EmptyStateIff(posts, tag);
    var tags := GetUniqueTags(posts);
    if tag != AllTag {
      var k :| 0 <= k < |tags| && tags[k] == tag;
      assert k > 0;
      assert tags[1..][k - 1] == tag;
    }
  }

  /** The list page's filter state; `posts` and `tags` are its props. */
  class BlogListState {
    const posts: seq<PostSummary>
    const tags: seq<string>
    var activeTag: string

    /** `useState('全部')`: the page opens with the sentinel selected. */
    constructor (posts: seq<PostSummary>, tags: seq<string>)
      ensures this.posts == posts && this.tags == tags
      ensures activeTag == AllTag
      ensures FilteredPosts() == posts
    {
      this.posts := posts;
      this.tags := tags;
      activeTag := AllTag;
    }

    /** `onTagChange`, that is `setActiveTag(tag)`: the selection becomes exactly `tag`. */
    method OnTagChange(tag: string)
      modifies this
      ensures activeTag == tag
      ensures IsActive(tag)
    {
      activeTag := tag;
    }

    /** A click on the button of `tags[i]`. */
    method ClickTag(i: nat)
      requires i < |tags|
      modifies this
      ensures activeTag == tags[i]
      ensures activeTag in tags
    {
      OnTagChange(tags[i]);
    }

    function FilteredPosts(): seq<PostSummary>
      reads this
    {
      FilterPosts(posts, activeTag)
    }

    predicate ShowsEmptyState()
      reads this
    {
      EmptyStateShown(posts, activeTag)
    }

    predicate IsActive(tag: string)
      reads this
    {
      ButtonActive(activeTag, tag)
    }
  }

  /**
   * With the props the listing page is given (the summaries and their tag
   * list), the page opens with every post shown, the sentinel's button
   * selected, and, when no post is tagged with the sentinel, that button
   * the only selected one.
   */
  method Mount(posts: seq<PostSummary>) returns (page: BlogListState)
    ensures page.tags == GetUniqueTags(posts) && page.posts == posts
    ensures page.FilteredPosts() == posts
    ensures page.IsActive(page.tags[0])
    ensures (forall p | p in posts :: p.tag != AllTag) ==> ActiveCount(page.tags, page.activeTag) == 1
  {
    page := new BlogListState(posts, GetUniqueTags(posts));
    if forall p | p in posts :: p.tag != AllTag {
      UniqueTagsDistinctIff(posts);
      OneActiveButton(page.tags, page.activeTag);
    }
  }
}
