# Blog post summaries and the tag filter, in Dafny

This project models the logic of a static personal blog front end. The model covers two pieces of code.

The first is the post-summary helpers in `src/utils/posts.ts`:

- `sortPostsByDate` sorts the entries of the `blog` content collection newest first, with a stable sort.
- `toPostSummary` projects an entry onto the `PostSummary` record (slug, title, excerpt, ISO date, one tag).
- `getRecentPostSummaries` and `getAllPostSummaries` build the "recent" and "all" summary lists.
- `getUniqueTags` builds the tag vocabulary. It is the `全部` ("all") sentinel followed by each distinct tag, in the order of first appearance.

The second is the tag filter of the listing page in `src/components/BlogList.tsx`:

- the `activeTag` state cell and its update through `onTagChange`;
- the `filteredPosts` expression;
- the empty-state test;
- the "active button" test.

Modules:

- `Wrappers`: the `Option` type, used where the source has `undefined`.
- `BlogTypes`: `Post`, a blog entry reduced to its front matter, and `PostSummary`.
- `IsoDate`: `pubDate.toISOString().split('T')[0]`. It covers:
  - valid time values (at most 8.64e15 ms in magnitude);
  - the floor day number and a proleptic Gregorian conversion;
  - the ISO 8601 text with the four-digit or signed six-digit year of section 21.4.1.32 of ECMA-262;
  - `split('T')[0]`.
- `Posts`: the five helpers of `posts.ts`. Everything is pure. The sort is a recursive stable insertion sort, so the input sequence cannot change, just as the source sorts a spread copy.
- `BlogList`: the filter as pure functions, plus a class `BlogListState`. The class holds the props `posts` and `tags` and the mutable `activeTag`.

Points where the model follows the code rather than a plain-language description of it:

- **Negative limit.** `slice(0, limit)` with a negative `limit` does not give an empty list. It counts back from the end and drops the last `|limit|` summaries (`RecentIsPrefixOfAll`).
- **Sentinel duplicate.** `'全部'` is put in front outside the `Set`. A post tagged `全部` therefore makes that string appear twice. The list is duplicate-free exactly when no post carries that tag (`UniqueTagsDistinctIff`).
- **Fallback tag.** The tag falls back to `文章` also when the first tag is the empty string, because the code uses `||` (`ToPostSummary`).

The comparator `b.pubDate - a.pubDate` subtracts two time values. Above 2^53 the difference is rounded, but a nonzero exact difference keeps its sign after rounding. The sort is therefore modelled on exact integer comparison.

## Model

| member | source | states |
|---|---|---|
| `Posts.SortPostsByDate` | src/utils/posts.ts:3-5 | the result has the input's length, holds the same posts counted with multiplicity, and its publish dates never increase |
| `Posts.Insert` | src/utils/posts.ts:4 | the insertion step yields the list with exactly the one post added, counted with multiplicity |
| `Posts.SortedCons` | src/utils/posts.ts:4 | a post no older than anything in a newest-first list can go in front of it and the list stays newest first |
| `Posts.InsertKeepsSorted` | src/utils/posts.ts:4 | inserting into a newest-first list keeps it newest first |
| `Posts.InsertKeepsDateOrder` | src/utils/posts.ts:4 | inserting a post puts it ahead of the posts with its own date and leaves every other date's posts in order |
| `Posts.SortIsStable` | src/utils/posts.ts:4 | for every date, the posts with that date are in the same order after sorting as before (stable sort, comparator 0 on ties) |
| `Posts.WithDateMembers` | src/utils/posts.ts:4 | a post is among the posts of date d exactly when it is in the list and has date d |
| `Posts.SortedStableUnique` | src/utils/posts.ts:4 | two newest-first lists that agree on the order of every date's posts are equal |
| `Posts.SortIsTheStableSort` | src/utils/posts.ts:3-5 | any newest-first, stable arrangement of the posts is the one the sort returns, so the model agrees with every conforming stable sort |
| `Posts.ToPostSummary` | src/utils/posts.ts:7-15 | slug, title and excerpt are copied from slug, title and description; the date text decodes to the UTC calendar date of `pubDate`; the tag is never empty; it is the first tag when there is a non-empty one, and `文章` when the tags are absent, empty, or start with "" |
| `Posts.SummaryTagIsFallback` | src/utils/posts.ts:13 | the tag is `文章` exactly when the tags are absent or empty, or the first tag is "" or `文章` itself |
| `Posts.RelativeIndex` | src/utils/posts.ts:18 | the index `slice` derives from an argument always lies within the list |
| `Posts.Slice` | src/utils/posts.ts:18 | `slice(start, end)` returns a run of the list starting at the derived start, of length max(derived end - derived start, 0) |
| `Posts.Map` | src/utils/posts.ts:18 | `.map(f)` keeps the length and puts f of the i-th element at position i |
| `Posts.MapMultiset` | src/utils/posts.ts:22 | mapping two lists that hold the same elements gives lists that hold the same images |
| `Posts.AllSummariesArePostSummaries` | src/utils/posts.ts:21-23 | the full list has one summary per post, holds the summaries of the input's posts counted with multiplicity, and its i-th entry summarises the i-th post in date order |
| `Posts.RecentIsPrefixOfAll` | src/utils/posts.ts:17-19 | for limit >= 0 the recent list has min(limit, number of posts) entries; for limit < 0 it has max(number of posts + limit, 0); in both cases it is a prefix of the full list |
| `Posts.RecentWithLargeLimitIsAll` | src/utils/posts.ts:17-23 | a limit of at least the number of posts gives the full list |
| `Posts.FirstIndex` | src/utils/posts.ts:26 | the position returned holds the value and no earlier position does |
| `Posts.InsertionOrderedSet` | src/utils/posts.ts:26 | the iteration of `new Set(xs)` has no duplicates and holds exactly the values of xs |
| `Posts.InsertionOrderIsFirstSeen` | src/utils/posts.ts:26 | the Set lists its values in the order of their first occurrences in xs |
| `Posts.DistinctCount` | src/utils/posts.ts:26 | a list without duplicates has as many entries as distinct values |
| `Posts.GetUniqueTags` | src/utils/posts.ts:25-27 | the first entry is `全部`; the rest has no duplicates and holds exactly the tags some summary carries |
| `Posts.UniqueTagsFirstSeenOrder` | src/utils/posts.ts:26 | after the sentinel, the tags appear in the order of their first appearance among the summaries |
| `Posts.UniqueTagsCount` | src/utils/posts.ts:26 | the list has one entry more than there are distinct tags |
| `Posts.UniqueTagsDistinctIff` | src/utils/posts.ts:26 | the whole list is duplicate-free exactly when no summary is tagged `全部` |
| `Posts.RecentExample` | src/utils/posts.test.ts:27-35 | posts a (Jan), c (Mar), b (Feb) with limit 2 give the slugs c, b |
| `Posts.UniqueTagsExample` | src/utils/posts.test.ts:38-46 | tags 技术, 设计, 技术 give 全部, 技术, 设计 |
| `Posts.AllSummariesExample` | src/utils/posts.test.ts:48-57 | a single post a/A tagged 技术 gives one summary with slug a, title A and tag 技术 |
| `IsoDate.CivilFromDays` | src/utils/posts.ts:12 | every day number maps to a valid date: month 1..12 and day within that month's length, leap years included |
| `IsoDate.SplitEra` | src/utils/posts.ts:12 | a day of a 400-year era splits into the year of the era and a day of that year such that the days before the year plus the day give back the input, with day 365 only in leap years |
| `IsoDate.MonthIndex` | src/utils/posts.ts:12 | a day of the year falls in one month, between that month's first day and the next month's |
| `IsoDate.DayFitsMonth` | src/utils/posts.ts:12 | the day of the month derived from a day of the year never exceeds that month's length in the year, where day 365 requires a leap year |
| `IsoDate.EraYearLeap` | src/utils/posts.ts:12 | the year that the era's leap day closes is a leap year of the Gregorian rule (divisible by 4, and not by 100 unless by 400) |
| `IsoDate.CivilInEra` | src/utils/posts.ts:12 | a day of a given year of an era maps to a valid date |
| `IsoDate.CivilRoundTrip` | src/utils/posts.ts:12 | converting a day number to a date and back with the independent `DaysFromCivil` gives the day number, so distinct days have distinct dates |
| `IsoDate.CivilOf` | src/utils/posts.ts:12 | the UTC date of a valid time value is a valid date whose year has at most six digits |
| `IsoDate.SplitHead` | src/utils/posts.ts:12 | `split(sep)[0]` is a prefix without `sep`, followed in the input by `sep` when shorter than it |
| `IsoDate.DateOnlyIsDateText` | src/utils/posts.ts:12 | splitting the ISO text at 'T' keeps exactly its `YYYY-MM-DD` part |
| `IsoDate.ParsePad` | src/utils/posts.ts:12 | zero-padded decimal text denotes the number it was written from |
| `IsoDate.DecodeDateText` | src/utils/posts.ts:12 | the date text of a valid date reads back as that date |
| `IsoDate.DateOnlyDecodes` | src/utils/posts.ts:12 | the `date` field reads back as the UTC calendar date of the time value |
| `IsoDate.DateOnlyShape` | src/utils/posts.ts:12 | for years 0000..9999 the `date` field is four digits, '-', two digits, '-', two digits |
| `IsoDate.DateOnlyExample` | src/utils/posts.test.ts:29 | 2024-01-01T00:00:00Z has the date text "2024-01-01" |
| `BlogList.WithTag` | src/components/BlogList.tsx:104 | `filter` keeps every post with the tag (counted with multiplicity), drops every other, and keeps the input order |
| `BlogList.FilterPosts` | src/components/BlogList.tsx:102-104 | with `全部` the posts pass unchanged; otherwise the result is an ordered subsequence of the posts, every entry has the tag, and no post with the tag is dropped |
| `BlogList.SubsequenceReflexive` | src/components/BlogList.tsx:103 | a list is a subsequence of itself |
| `BlogList.WithTagKeepsMatching` | src/components/BlogList.tsx:104 | filtering a list whose posts all carry the tag returns it unchanged |
| `BlogList.FilterIdempotent` | src/components/BlogList.tsx:102-104 | filtering the filtered list again with the same tag changes nothing |
| `BlogList.EmptyStateIff` | src/components/BlogList.tsx:153 | the "no posts" message shows exactly when there are no posts, or when a tag other than `全部` is selected that no post carries |
| `BlogList.OneActiveButton` | src/components/BlogList.tsx:36-39 | with distinct tags, exactly one button is drawn active when the selected tag is listed, and none otherwise |
| `BlogList.ListedTagNeverEmpty` | src/components/BlogList.tsx:153 | selecting a tag that `getUniqueTags` offers for the posts shows the empty state only when there are no posts |
| `BlogList.BlogListState.constructor` | src/components/BlogList.tsx:89-92 | the page opens with `activeTag` equal to `全部` and every post shown |
| `BlogList.BlogListState.OnTagChange` | src/components/BlogList.tsx:139 | `setActiveTag(tag)` makes the selection exactly `tag`; props never change |
| `BlogList.BlogListState.ClickTag` | src/components/BlogList.tsx:35 | a click on the button of the i-th tag selects that tag, so the selection stays among the listed tags |
| `BlogList.Mount` | src/components/BlogList.tsx:89-92 | given the summaries and their tag list, the page opens with every post shown and the sentinel's button active; it is the only active one when no post is tagged `全部` |

## Left out

- JSX rendering, Tailwind classes and framer-motion animation values: view code that only renders its props.
- The scroll listener and the `isScrolled` and `isMobileMenuOpen` state cells: DOM event plumbing with no bearing on the list.
- `Footer`'s current year and `toLocaleDateString('zh-CN', …)`: they depend on the clock and the locale.
- Invalid dates (NaN time values, whose `toISOString` throws RangeError): `pubDate` is a valid time value by its type.
- `limit` is an integer. A JavaScript number that is fractional, NaN or infinite goes through `ToIntegerOrInfinity` in `slice`, and that conversion is not modelled.
- Astro content loading, the entry's `id`, `body` and `collection` fields, and the `render` thunk: an entry is a plain record.
- `siteConfig`, `CONTACT_ICON_MAP`, `NAV_ITEMS` and `FOOTER_LINKS`: constant tables.
- The tag fallback repeated in the post page (`src/components/BlogPost.tsx`): view code mirroring `ToPostSummary`.
- The `draft` flag is carried on `Post`, but no modelled code reads it, so nothing filters on it.
- The listing page that passes `posts` and `tags` to `BlogList` is not part of this model. `BlogList.Mount` assumes it passes `getUniqueTags` of the summaries.
- React's scheduling of state updates: `setActiveTag` is modelled as an immediate assignment, and the next `filteredPosts` is read from the new state.
