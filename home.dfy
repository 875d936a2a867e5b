/**
 * The home feed (src/pages/Index.tsx, the `filteredVideos` memo): a copy of
 * the fixture, sorted in place for the `recent` and `popular` tabs.
 */
module HomeFeed {
  import opened Catalog
  import opened StableSort
  import opened Ranking
  import opened SearchPage

  /** The feed for a tab (on `popular`, over a list whose counts parse). Every tab shows
      the whole list, each video as often as the list does; `recent` puts
      the recent ones first, each group in list order; `popular` orders by
      non-increasing view count, ties in list order; `all` and any other tab
      keep the list order. */
  function TabOrder(vs: seq<Video>, activeFilter: string): (r: seq<Video>)
    requires activeFilter == "popular" ==> CountsParse(vs)
    ensures multiset(r) == multiset(vs)
    ensures activeFilter == "recent" ==> r == Recents(vs) + NotRecent(vs)
    ensures activeFilter == "popular" ==>
      CountsParse(r) && forall i, j :: 0 <= i < j < |r| ==> ViewCount(r[i]).value >= ViewCount(r[j]).value
    ensures activeFilter == "popular" ==> forall n :: KeyClass(r, ViewsKey, n) == KeyClass(vs, ViewsKey, n)
    ensures activeFilter != "recent" && activeFilter != "popular" ==> r == vs
  {
    if activeFilter == "recent" then ByDate(vs)
    else if activeFilter == "popular" then ByViews(vs)
    else vs
  }

  /** The feed the home page shows for a tab. */
  function Feed(activeFilter: string): seq<Video>
  {
    FixtureCountsParse();
    TabOrder(MockVideos, activeFilter)
  }

  /** The memo body: spread the fixture into a fresh array and sort that
      array in place; the fixture itself is never touched. */
  method FilteredVideos(activeFilter: string) returns (r: seq<Video>)
    ensures r == Feed(activeFilter)
  {
    var videos := new Video[|MockVideos|](i requires 0 <= i < |MockVideos| => MockVideos[i]);
    assert videos[..] == MockVideos;
    if activeFilter == "recent" {
      SortInPlace(videos, RecencyKey);
    } else if activeFilter == "popular" {
      FixtureCountsParse();
      SortInPlace(videos, ViewsKey);
    }
    r := videos[..];
  }

  /** The `popular` tab shows what the search page shows for no query, no
      duration bucket and the `views` order. */
  lemma PopularAgreesWithSearch()
    ensures Feed("popular") == Pipeline("", "all", "views")
  {
    assert DurationStage(Source(""), "all") == MockVideos;
  }

  /** The `recent` tab shows what the search page shows for no query, no
      duration bucket and the `date` order. */
  lemma RecentAgreesWithSearch()
    ensures Feed("recent") == Pipeline("", "all", "date")
  {
    assert DurationStage(Source(""), "all") == MockVideos;
  }

  /** The `all` tab shows what the search page shows with no query, no
      bucket and the default `relevance` order: the fixture. */
  lemma AllAgreesWithSearch()
    ensures Feed("all") == Pipeline("", "all", "relevance") == MockVideos
  {
  }
}
