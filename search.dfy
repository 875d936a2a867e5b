/**
 * The search page's result list (src/pages/Search.tsx, the `results`
 * memo): choose a source list, keep one duration bucket, then optionally
 * sort a copy by views or by recency.
 */
module SearchPage {
  import opened Wrappers
  import opened JsString
  import opened Seqs
  import opened Catalog
  import opened StableSort
  import opened Ranking

  // ---------------------------------------------------------------------
  // Source list

  /** `initialQuery ? searchVideos(initialQuery) : mockVideos`. */
  function Source(initialQuery: string): seq<Video>
  {
    if initialQuery != "" then SearchVideos(initialQuery) else MockVideos
  }

  /** Because the empty query matches every video, the fallback to the whole
      fixture is what the search itself would return. */
  lemma SourceIsSearch(initialQuery: string)
    ensures Source(initialQuery) == SearchVideos(initialQuery)
  {
    SearchEmptyQuery();
  }

  // ---------------------------------------------------------------------
  // Duration buckets

  /** `parseInt(video.duration.split(':')[0])`: the number before the first
      colon; `None` is NaN. */
  function Minutes(v: Video): Option<int>
  {
    ParseInt(BeforeFirst(v.duration, ':'))
  }

  /** The test of one bucket. NaN fails every comparison, so a record whose
      minutes do not parse is in no bucket; an unrecognised bucket name keeps
      every record. */
  predicate InBucket(filter: string, m: Option<int>)
  {
    if filter == "short" then m.Some? && m.value < 10
    else if filter == "medium" then m.Some? && 10 <= m.value < 30
    else if filter == "long" then m.Some? && m.value >= 30
    else true
  }

  /** `vs.filter(...)` with the bucket test. */
  function FilterByDuration(vs: seq<Video>, filter: string): (r: seq<Video>)
    ensures IsSubseq(r, vs)
    ensures forall v :: v in r <==> v in vs && InBucket(filter, Minutes(v))
  {
    if vs == [] then []
    else
      var rest := FilterByDuration(vs[1..], filter);
      assert vs == [vs[0]] + vs[1..];
      if InBucket(filter, Minutes(vs[0])) then
        assert ([vs[0]] + rest)[1..] == rest;
        [vs[0]] + rest
      else
        rest
  }

  /** The filter runs only when the bucket is not `all`. */
  function DurationStage(vs: seq<Video>, filter: string): seq<Video>
  {
    if filter == "all" then vs else FilterByDuration(vs, filter)
  }

  /** `all`, and every name that is not a bucket, leave the list as it is. */
  lemma UnknownBucketKeepsAll(vs: seq<Video>, filter: string)
    requires filter != "short" && filter != "medium" && filter != "long"
    ensures DurationStage(vs, filter) == vs
  {
    if filter != "all" {
      FilterKeepsAll(vs, filter);
    }
  }

  lemma {:induction false} FilterKeepsAll(vs: seq<Video>, filter: string)
    requires forall v :: v in vs ==> InBucket(filter, Minutes(v))
    ensures FilterByDuration(vs, filter) == vs
  {
    if vs != [] {
      assert vs == [vs[0]] + vs[1..];
      FilterKeepsAll(vs[1..], filter);
    }
  }

  /** The three buckets are pairwise disjoint, and a record is in one of
      them exactly when its minutes parse. */
  lemma BucketsPartition(vs: seq<Video>)
    ensures forall v :: v in vs ==>
      (Minutes(v).Some? <==> v in DurationStage(vs, "short") || v in DurationStage(vs, "medium") || v in DurationStage(vs, "long"))
    ensures forall v :: v in DurationStage(vs, "short") ==> v !in DurationStage(vs, "medium") && v !in DurationStage(vs, "long")
    ensures forall v :: v in DurationStage(vs, "medium") ==> v !in DurationStage(vs, "long")
  {
  }

  /** Only the text before the first colon is read, so an `H:MM:SS` label is
      bucketed by its hours: `"1:05:00"` counts as 1. */
  lemma LeadingComponent(v: Video, h: string, rest: string)
    requires h != [] && IsDecimal(h)
    requires v.duration == h + ":" + rest
    ensures Minutes(v) == Some(DigitsValue(h, 10))
  {
    assert forall i :: 0 <= i < |h| ==> h[i] != ':';
    BeforeFirstAt(h, ':', rest);
    assert h + ":" + rest == h + [':'] + rest;
    ParseDecimalPrefix(h, "");
    assert h + "" == h;
  }

  // ---------------------------------------------------------------------
  // Sorting and the whole pipeline

  /** `views` sorts by count, stably; `date` puts the recent records first,
      each group in its former order; any other value keeps the order. */
  function SortStage(vs: seq<Video>, sortBy: string): (r: seq<Video>)
    requires sortBy == "views" ==> CountsParse(vs)
    ensures multiset(r) == multiset(vs)
    ensures sortBy == "views" ==>
      CountsParse(r) && forall i, j :: 0 <= i < j < |r| ==> ViewCount(r[i]).value >= ViewCount(r[j]).value
    ensures sortBy == "views" ==> forall n :: KeyClass(r, ViewsKey, n) == KeyClass(vs, ViewsKey, n)
    ensures sortBy == "date" ==> r == Recents(vs) + NotRecent(vs)
    ensures sortBy != "views" && sortBy != "date" ==> r == vs
  {
    if sortBy == "views" then ByViews(vs)
    else if sortBy == "date" then ByDate(vs)
    else vs
  }

  /** Sorting a sorted list again by the same order changes nothing. */
  lemma SortStageIdempotent(vs: seq<Video>, sortBy: string)
    requires sortBy == "views" ==> CountsParse(vs)
    ensures SortStage(SortStage(vs, sortBy), sortBy) == SortStage(vs, sortBy)
  {
    if sortBy == "views" {
      SortDescIdempotent(vs, ViewsKey);
    } else if sortBy == "date" {
      SortDescIdempotent(vs, RecencyKey);
    }
  }

  /** Every list the pipeline sorts holds fixture videos only, whose counts
      parse. */
  lemma FilteredCountsParse(initialQuery: string, durationFilter: string)
    ensures CountsParse(DurationStage(Source(initialQuery), durationFilter))
  {
    FixtureCountsParse();
  }

  /** The filtered list holds exactly the fixture videos that match the
      query (when there is one) and fall in the bucket (unless it is `all`). */
  lemma FilteredMembers(initialQuery: string, durationFilter: string)
    ensures forall v :: v in DurationStage(Source(initialQuery), durationFilter) <==>
      v in MockVideos
      && (initialQuery == "" || Matches(v, initialQuery))
      && (durationFilter == "all" || InBucket(durationFilter, Minutes(v)))
  {
  }

  /** The result list: the filtered list put through the sort stage. */
  function Pipeline(initialQuery: string, durationFilter: string, sortBy: string): (r: seq<Video>)
    ensures forall v :: v in r <==>
      v in MockVideos
      && (initialQuery == "" || Matches(v, initialQuery))
      && (durationFilter == "all" || InBucket(durationFilter, Minutes(v)))
  {
    var filtered := DurationStage(Source(initialQuery), durationFilter);
    FilteredCountsParse(initialQuery, durationFilter);
    FilteredMembers(initialQuery, durationFilter);
    var r := SortStage(filtered, sortBy);
    assert forall v :: v in r <==> v in multiset(filtered);
    r
  }

  /** The `useMemo` body: reassign `videos` stage by stage; each sort runs
      on a fresh copy, so the list it starts from is left as it was. */
  method Results(initialQuery: string, durationFilter: string, sortBy: string) returns (r: seq<Video>)
    ensures r == Pipeline(initialQuery, durationFilter, sortBy)
  {
    var videos := if initialQuery != "" then SearchVideos(initialQuery) else MockVideos;
    if durationFilter != "all" {
      videos := FilterByDuration(videos, durationFilter);
    }
    if sortBy == "views" {
      FilteredCountsParse(initialQuery, durationFilter);
      videos := SortedCopy(videos, ViewsKey);
    } else if sortBy == "date" {
      videos := SortedCopy(videos, RecencyKey);
    }
    r := videos;
  }
}
