# Video catalog list logic, modelled in Dafny

This project models the list and string logic under the clarity-stream
video front-end. The front-end is a React app: a home feed, a search page,
a watch page with a player, and a profile page. The model covers:

- the twelve-video fixture catalog, its lookup by id and its
  case-insensitive text search (`Catalog`);
- the two orderings shared by the search page and the home feed
  (`Ranking`). `views`/`popular` sorts by a view count parsed from labels
  such as `"125K"`. `date`/`recent` puts labels that mention days or hours
  first;
- the search page's pipeline (`SearchPage`): source list, then duration
  bucket, then sort on a copy;
- the home feed's tabs (`HomeFeed`): a copy of the fixture sorted in place;
- the profile page (`Profile`):
  - de-duplicating the watch history, which is a loop over the rows;
  - mapping stored rows back to videos;
  - the single-preference update with its column-name mapping;
- the watch page (`WatchPage`): the lookup with its not-found branch, the
  history insert and list check on opening, the recommendation strip, and
  the two flag toggles;
- the player (`Player`): the embed address, and the favourite and
  watch-later buttons as a state machine over an abstract store
  (`Backend.Store`).

The JavaScript primitives the code relies on are written out in
`JsString`:

- `toLowerCase` is per character.
- `includes` is substring search.
- `replace` with a string pattern replaces only the first occurrence.
- `split(sep)[0]`.
- `parseInt` with no radix: leading white space, one sign, an optional
  `0x` prefix, then the longest digit run. NaN is `None`.
- `||` on an optional string.

`Array.prototype.sort` is a stable sort (ECMAScript 2019 and later). A
consistent comparator therefore leaves exactly one possible result.
`StableSort.SortDescUnique` proves this: every sorted, stable rearrangement
equals `StableSort.SortDesc`. The sorts are modelled as that function, and
an in-place insertion sort on a fresh array is proved to compute it.

Where the code's behaviour differs from what its labels suggest, the model follows the code:

- A duration whose leading component does not parse is NaN. NaN fails
  every bucket comparison, so such a record is in no bucket; it is not
  counted as zero minutes.
- A view label that does not parse can make the comparator inconsistent
  (whenever two parsed counts differ), so the sort result is
  implementation-defined. It is not counted as zero.
  Absent and empty labels do count as zero, because they become `"0"`.
- `replace('K', '000')` acts on the first `K` anywhere in the label, not
  only on a suffix.
- Only the text before the first `:` is parsed, so an `H:MM:SS` duration
  is bucketed by its hours (`SearchPage.LeadingComponent`).

## Model

| member | source | states |
|---|---|---|
| JsString.ToLower | src/data/mockVideos.ts:143 | the result has the input's length and maps every character through the lower-case mapping |
| JsString.ToLowerIdempotent | src/data/mockVideos.ts:143 | lower-casing a lower-cased string changes nothing |
| JsString.IncludesIffOccurs | src/data/mockVideos.ts:146-147 | `includes` holds exactly when the needle occurs at some position of the haystack |
| JsString.IncludesEmpty | src/data/mockVideos.ts:143-148 | every string includes the empty string |
| JsString.ReplaceFirstAt | src/pages/Search.tsx:59 | `p + c + q` with no `c` in `p` becomes `p + with + q`; a string without `c` is unchanged |
| JsString.BeforeFirst | src/pages/Search.tsx:42 | the first piece of `split(sep)`: a prefix of the input with no separator, followed in the input by a separator or by nothing |
| JsString.BeforeFirstAt | src/pages/Search.tsx:42 | the first piece of `p + sep + q` is `p` when `p` has no separator |
| JsString.OrElse | src/pages/Search.tsx:59 | `o \|\| d` is the value when it is defined and non-empty, and `d` otherwise |
| JsString.ParseDecimalPrefix | src/pages/Search.tsx:42 | `parseInt` of a digit run followed by a non-digit gives the run's value (unless it is the `0x` prefix) |
| JsString.ParseDigitLed | src/pages/Search.tsx:42 | a digit-led string without the `0x` prefix parses to the value of its leading digits |
| JsString.ParseNotDigitLed | src/pages/Search.tsx:42 | the empty string, and a string led by a character that is neither space, sign nor digit, parse to NaN |
| StableSort.SortDescSorted | src/pages/Search.tsx:58-61 | the sort result is non-increasing by key |
| StableSort.SortDescPermutation | src/pages/Search.tsx:58-61 | the sort result is a permutation of the input |
| StableSort.SortDescStable | src/pages/Search.tsx:58-61 | for every key, the records with that key appear in the result in their input order |
| StableSort.SortDescUnique | src/pages/Search.tsx:58-68 | every sorted, stable rearrangement of the input equals the sort result, so any stable engine sort gives it |
| StableSort.SortDescIdempotent | src/pages/Search.tsx:58-68 | sorting a sorted result again changes nothing |
| StableSort.InsertInPlace | src/pages/Index.tsx:24-28 | one insertion step on the array: the first `i+1` slots become the insertion of `a[i]` into the sorted prefix, and the rest is untouched |
| StableSort.SortInPlace | src/pages/Index.tsx:24-35 | the in-place sort leaves the array holding the stable descending sort of its old contents |
| StableSort.SortedCopy | src/pages/Search.tsx:58-68 | `[...videos].sort(...)` returns the stable sort of the list; the list itself is a value and stays as it was |
| Catalog.FixtureIdsDistinct | src/data/mockVideos.ts:3-136 | no two fixture videos share an id |
| Catalog.FindById | src/data/mockVideos.ts:138-140 | `find` returns a member with the id; it returns nothing iff no member has it; a member preceded by none with the id is the one returned |
| Catalog.GetVideoByIdFinds | src/data/mockVideos.ts:138-140 | looking up a fixture video's id returns that video; the lookup is empty iff no fixture video has the id |
| Catalog.SearchIn | src/data/mockVideos.ts:144-148 | the filter returns a subsequence of its input holding exactly the matching members |
| Catalog.SearchVideos | src/data/mockVideos.ts:142-149 | the search result is a subsequence of the fixture; every result matches (lower-cased query in lower-cased title or channel); every matching fixture video is in the result |
| Catalog.SearchEmptyQuery | src/data/mockVideos.ts:143-148 | the empty query returns the whole fixture in order |
| Catalog.SearchCaseInsensitive | src/data/mockVideos.ts:143 | a query and its lower-cased form return the same list |
| Ranking.ViewCountOfThousands | src/pages/Search.tsx:59-60 | a label of digits `d` followed by `K` counts `d` × 1000 |
| Ranking.ViewCountOfDigits | src/pages/Search.tsx:59-60 | a label of digits only counts its own value |
| Ranking.ViewCountOfMissing | src/pages/Search.tsx:59-60 | an absent or empty label counts 0 |
| Ranking.FixtureCountsParse | src/data/mockVideos.ts:3-136 | every fixture view label parses |
| Ranking.ByViews | src/pages/Search.tsx:57-62 | the `views` order is a permutation, non-increasing by parsed count, and keeps the input order among equal counts |
| Ranking.Recents | src/pages/Search.tsx:65-66 | the recent records of a list (label mentions `dia` or `hora`), in order: a subsequence holding exactly them |
| Ranking.NotRecent | src/pages/Search.tsx:65-66 | the records that are not recent (including those with no label), in order |
| Ranking.ByDate | src/pages/Search.tsx:63-68 | the `date` order is the recent records followed by the others, each group in input order, and is a permutation |
| Ranking.DatePartitionIsSorted | src/pages/Search.tsx:64-68 | the stable sort under the `date` comparator is exactly recent-then-older |
| SearchPage.SourceIsSearch | src/pages/Search.tsx:37 | the fallback to the whole fixture for an empty query equals the search for the empty query |
| SearchPage.FilterByDuration | src/pages/Search.tsx:41-53 | the bucket filter returns a subsequence holding exactly the records whose leading minutes pass the bucket test |
| SearchPage.UnknownBucketKeepsAll | src/pages/Search.tsx:40-51 | `all` and every name that is not a bucket leave the list unchanged |
| SearchPage.BucketsPartition | src/pages/Search.tsx:44-49 | short, medium and long are pairwise disjoint, and a record is in one of them iff its leading component parses |
| SearchPage.LeadingComponent | src/pages/Search.tsx:42 | for a duration `h:rest` the minutes are the value of `h`, so `H:MM:SS` is bucketed by hours |
| SearchPage.SortStage | src/pages/Search.tsx:56-69 | `views` gives the count order, `date` gives recent-then-older, any other value keeps the list; always a permutation |
| SearchPage.SortStageIdempotent | src/pages/Search.tsx:56-69 | sorting the sorted list again by the same order changes nothing |
| SearchPage.FilteredCountsParse | src/pages/Search.tsx:37-54 | every list the page sorts holds counts that parse |
| SearchPage.FilteredMembers | src/pages/Search.tsx:37-54 | the filtered list holds exactly the fixture videos that match the query (if any) and pass the bucket (unless `all`) |
| SearchPage.Pipeline | src/pages/Search.tsx:36-72 | the result holds exactly the fixture videos that match the query and pass the bucket |
| SearchPage.Results | src/pages/Search.tsx:36-72 | the memo body, with sorts on fresh copies, computes the pipeline |
| HomeFeed.TabOrder | src/pages/Index.tsx:21-38 | every tab is a permutation of its list; `recent` is recent-then-older; `popular` (the only tab that parses view counts, so the only one that needs them to parse) is non-increasing by count and stable; `all` and other tabs keep the order |
| HomeFeed.FilteredVideos | src/pages/Index.tsx:18-39 | sorting a fresh copy of the fixture in place yields the tab's feed; the fixture is untouched |
| HomeFeed.PopularAgreesWithSearch | src/pages/Index.tsx:29-35 | the `popular` tab equals the search page's `views` result with no query and bucket `all` |
| HomeFeed.RecentAgreesWithSearch | src/pages/Index.tsx:22-28 | the `recent` tab equals the search page's `date` result with no query and bucket `all` |
| HomeFeed.AllAgreesWithSearch | src/pages/Index.tsx:19-37 | the `all` tab equals the search page's default result and the fixture |
| Profile.MapDbToVideo | src/pages/Profile.tsx:110-118 | the stored id becomes both `id` and `videoId`; a missing thumbnail, channel or duration becomes `""`, a missing or empty source `"youtube"`; present columns are kept |
| Profile.StoredVideoRoundTrip | src/pages/Profile.tsx:110-118 | inserting a video's row and mapping it back returns the video with `videoId` replaced by `id` and no view or date label |
| Profile.StoredFixtureReopens | src/pages/Watch.tsx:42-50 | a listed fixture video's id looks up the very fixture video that was stored |
| Profile.MapRows | src/pages/Profile.tsx:93 | `map(mapDbToVideo)` maps each row at its own position |
| Profile.FindRow | src/pages/Profile.tsx:88 | `acc.find` returns a row with the id, namely the first one, and nothing iff no row has it |
| Profile.DedupHistory | src/pages/Profile.tsx:87-92 | the accumulating loop computes the de-duplicated history |
| Profile.FindRowSnoc | src/pages/Profile.tsx:88-89 | after a push, `find` still returns an earlier row with the id when there is one |
| Profile.DedupSameIds | src/pages/Profile.tsx:87-92 | an id occurs in the de-duplicated history iff it occurs in the input |
| Profile.DedupDistinct | src/pages/Profile.tsx:87-92 | no id occurs twice in the de-duplicated history |
| Profile.DedupKeepsFirst | src/pages/Profile.tsx:70-92 | the kept row for each id is its first occurrence, which the newest-first query makes the latest viewing |
| Profile.DedupSubseq | src/pages/Profile.tsx:87-92 | the de-duplicated history is a subsequence of the input |
| Profile.DedupOfDistinct | src/pages/Profile.tsx:87-92 | rows without repeated ids pass through unchanged |
| Profile.DedupShorter | src/pages/Profile.tsx:87-92 | the de-duplicated history has at most as many rows as the input |
| Profile.DedupIdempotent | src/pages/Profile.tsx:87-92 | de-duplicating twice is de-duplicating once |
| Profile.HistoryIdsDistinct | src/pages/Profile.tsx:93 | the history list shown has pairwise distinct video ids |
| Profile.With | src/pages/Profile.tsx:123 | the new preferences hold `value` at `key` and agree with the old ones at every other key |
| Profile.DbKeyColumns | src/pages/Profile.tsx:126-127 | `showComments` is written to `show_comments`, `showRecommendations` to `show_recommendations`, `autoplay` to `autoplay`; distinct keys write distinct columns |
| Profile.UpdatePreference | src/pages/Profile.tsx:120-137 | without a user nothing changes and nothing is sent; with one, the key takes the value, the other keys keep theirs, and one write goes to the key's column |
| Profile.WriteThenReload | src/pages/Profile.tsx:95-133 | the preferences shown after an update equal those loaded back from the updated row |
| WatchPage.Without | src/pages/Watch.tsx:82 | the filter returns a subsequence holding exactly the videos whose id differs from the route id |
| WatchPage.Recommend | src/pages/Watch.tsx:82 | at most six videos, none with the route id, and they are the first `min(6, n)` of the filtered list |
| WatchPage.FixtureRecommendations | src/pages/Watch.tsx:82 | a fixture video's page always recommends exactly six videos |
| WatchPage.UnknownIdRecommendations | src/pages/Watch.tsx:82 | for an id no fixture video has, the strip is the first six fixture videos |
| WatchPage.WatchPage.constructor | src/pages/Watch.tsx:17-22 | the page starts loading, with no video and both flags off |
| WatchPage.WatchPage.Screen | src/pages/Watch.tsx:91-118 | the skeleton iff loading; the not-found message iff loaded with no video; otherwise the player for the video |
| WatchPage.WatchPage.Open | src/pages/Watch.tsx:24-35 | an absent or empty route id is falsy and changes nothing; with a non-empty one, the video is the lookup result and loading ends; the history row is appended and the flags are read from the lists only with a user and a found video |
| WatchPage.WatchPage.Show | src/pages/Watch.tsx:26-80 | after the lookup: history append on a successful insert; flags equal list membership on a successful check, both off on a refused one, unchanged on a throw |
| WatchPage.WatchPage.ToggleFavorite | src/pages/Watch.tsx:141 | flips the favourite flag and nothing else |
| WatchPage.WatchPage.ToggleWatchLater | src/pages/Watch.tsx:142 | flips the watch-later flag and nothing else |
| Player.EmbedUrl | src/components/video/VideoPlayer.tsx:30-35 | for `youtube` the address is the YouTube embed prefix, the provider id and the fixed query suffix; for any other source it is the Vimeo prefix and the id |
| Player.EmbedUrlInjective | src/components/video/VideoPlayer.tsx:30-35 | the address determines whether the source is `youtube` and the provider id |
| Player.PressSteps | src/components/video/VideoPlayer.tsx:43-68 | busy on first and busy off last; a delete when the flag is set, an insert otherwise; the toggle iff the call did not throw |
| Player.AfterCall | src/components/video/VideoPlayer.tsx:45-63 | only an applied call changes the list; a delete removes the entry, an insert adds it; other entries are untouched |
| Player.VideoPlayer.constructor | src/components/video/VideoPlayer.tsx:18-28 | the player starts with both busy flags off |
| Player.VideoPlayer.HandleFavorite | src/components/video/VideoPlayer.tsx:37-70 | without a user nothing changes; with one, the steps are as above, the list is updated per the reply, the flag flips unless the call threw, busy ends off, and a flag that matched membership still matches unless the call was refused |
| Player.VideoPlayer.HandleWatchLater | src/components/video/VideoPlayer.tsx:72-105 | the same protocol on the watch-later list and flag |
| Player.RefusedCallDesyncs | src/components/video/VideoPlayer.tsx:45-64 | a call that resolves with an error leaves the list as it was while the flag flips, so flag and membership part |

## Left out

- Rendering (JSX), toasts, navigation, the share button, focus mode and the `useState` / `useEffect` / `useMemo` machinery are not modelled. The components in `VideoCard.tsx`, `VideoGrid.tsx`, `FilterTabs.tsx` and `Header.tsx` are not part of this model.
- The database queries' `order` and `limit(20)` clauses are not modelled. The history is taken as given, newest first.
- `Promise.all` and all other concurrency are not modelled. Each handler and effect runs to completion with its replies given as parameters, and one reply stands for both membership queries of the list check.
- The store is abstract. Favourites and watch-later are sets of (user, video) pairs, so a repeated insert cannot create a duplicate row. A failure that happens after the server has applied a change is not modelled.
- `toLowerCase` is modelled for ASCII and Latin-1 capitals only. Other scripts are left unchanged.
- `parseInt` is modelled on unbounded integers. Precision loss above 2^53 and `Infinity` are not modelled.
- Ranking.ByViews: requires every view count to parse. A label that does not parse gives NaN, which can make the comparator inconsistent (whenever two parsed counts differ) and the sort order implementation-defined. Every list the pages sort does satisfy the requirement (`SearchPage.FilteredCountsParse`, `Ranking.FixtureCountsParse`).
- Profile.MapDbToVideo: a null `video_title` is not modelled. The title is taken to be a string.
- Setting the preference locally before the write, and keeping it when the write fails, is shown only by `Profile.UpdatePreference` returning both parts. A failed write is not modelled.
- `clearHistory` and the favourite and watch-later list loads on the profile page are store reads and deletes, which are not part of this model. Their rows go through `Profile.MapRows` as modelled.
- The comments list and its toggles on the watch page are static display and are not modelled.
