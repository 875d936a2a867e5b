/**
 * The profile page's list shaping (src/pages/Profile.tsx): de-duplicating
 * the watch history, mapping stored rows back to videos, and updating one
 * viewing preference.
 */
module Profile {
  import opened Wrappers
  import opened JsString
  import opened Seqs
  import opened Catalog
  import opened Backend

  // ---------------------------------------------------------------------
  // Stored rows and mapDbToVideo

  /** `mapDbToVideo`: the stored id becomes both `id` and `videoId`; a
      missing (or empty) thumbnail, channel or duration becomes `""`, a
      missing or empty source `"youtube"`; rows carry no view or date label. */
  function MapDbToVideo(row: Row): (v: Video)
    ensures v.id == row.videoId && v.videoId == row.videoId && v.title == row.title
    ensures row.thumbnail.None? ==> v.thumbnail == ""
    ensures row.channel.None? ==> v.channel == ""
    ensures row.duration.None? ==> v.duration == ""
    ensures row.source.None? || row.source == Some("") ==> v.source == "youtube"
    ensures row.thumbnail.Some? ==> v.thumbnail == row.thumbnail.value
    ensures row.channel.Some? ==> v.channel == row.channel.value
    ensures row.duration.Some? ==> v.duration == row.duration.value
    ensures row.source.Some? && row.source.value != "" ==> v.source == row.source.value
    ensures v.views.None? && v.uploadedAt.None?
  {
    Video(row.videoId, row.videoId, row.title,
          OrElse(row.thumbnail, ""), OrElse(row.channel, ""), OrElse(row.duration, ""),
          OrElse(row.source, "youtube"), None, None)
  }

  /** The row the watch page and the player insert for a video: the
      video's `id` goes into the `video_id` column. */
  function RowFor(userId: string, v: Video): Row
  {
    Row(userId, v.id, v.title, Some(v.thumbnail), Some(v.channel), Some(v.duration), Some(v.source))
  }

  /** Storing a video and mapping the row back gives the video again, except
      that the provider's `videoId` is replaced by the catalog `id` and the
      view and date labels are gone. */
  lemma StoredVideoRoundTrip(userId: string, v: Video)
    requires v.source != ""
    ensures MapDbToVideo(RowFor(userId, v)) == v.(videoId := v.id, views := None, uploadedAt := None)
  {
  }

  /** A listed fixture video links back to the very fixture video it was
      stored from, because the link uses `id`. */
  lemma StoredFixtureReopens(userId: string, v: Video)
    requires v in MockVideos
    ensures GetVideoById(MapDbToVideo(RowFor(userId, v)).id) == Some(v)
  {
    GetVideoByIdFinds(v.id);
  }

  /** `rows.map(mapDbToVideo)`. */
  function MapRows(rows: seq<Row>): (r: seq<Video>)
    ensures |r| == |rows|
    ensures forall i :: 0 <= i < |rows| ==> r[i] == MapDbToVideo(rows[i])
  {
    seq(|rows|, i requires 0 <= i < |rows| => MapDbToVideo(rows[i]))
  }

  // ---------------------------------------------------------------------
  // History de-duplication

  /** `rs[i]` is the first row of `rs` with video id `id`. */
  ghost predicate FirstWith(rs: seq<Row>, id: string, i: int)
  {
    0 <= i < |rs| && rs[i].videoId == id && forall j :: 0 <= j < i ==> rs[j].videoId != id
  }

  /** `acc.find(v => v.video_id === id)`: the first row with that id. */
  function FindRow(rs: seq<Row>, id: string): (r: Option<Row>)
    ensures r.Some? ==> r.value in rs && r.value.videoId == id
    ensures r.None? <==> forall x :: x in rs ==> x.videoId != id
    ensures forall i :: FirstWith(rs, id, i) ==> r == Some(rs[i])
  {
    if rs == [] then None
    else if rs[0].videoId == id then Some(rs[0])
    else
      var r := FindRow(rs[1..], id);
      assert forall x :: x in rs[1..] ==> x in rs;
      assert forall x :: x in rs ==> x == rs[0] || x in rs[1..];
      assert forall i :: FirstWith(rs, id, i) ==> i >= 1 && FirstWith(rs[1..], id, i - 1) && rs[1..][i - 1] == rs[i];
      r
  }

  ghost predicate DistinctVideoIds(rs: seq<Row>)
  {
    forall i, j :: 0 <= i < j < |rs| ==> rs[i].videoId != rs[j].videoId
  }

  /** The `reduce`: walk the rows in order and push a row unless the
      accumulator already holds one with its id. */
  function Dedup(rows: seq<Row>): seq<Row>
  {
    if rows == [] then []
    else
      var acc := Dedup(rows[..|rows| - 1]);
      var curr := rows[|rows| - 1];
      if FindRow(acc, curr.videoId).None? then acc + [curr] else acc
  }

  /** The history `reduce`, pushing into an accumulator array. */
  method DedupHistory(rows: seq<Row>) returns (acc: seq<Row>)
    ensures acc == Dedup(rows)
  {
    acc := [];
    var i := 0;
    while i < |rows|
      invariant 0 <= i <= |rows|
      invariant acc == Dedup(rows[..i])
    {
      var curr := rows[i];
      assert rows[..i + 1][..i] == rows[..i];
      if FindRow(acc, curr.videoId).None? {
        acc := acc + [curr];
      }
      i := i + 1;
    }
    assert rows[..|rows|] == rows;
  }

  /** Finding in a list extended at the back: an earlier row wins. */
  lemma {:induction false} FindRowSnoc(rs: seq<Row>, x: Row, id: string)
    ensures FindRow(rs + [x], id) ==
      if FindRow(rs, id).Some? then FindRow(rs, id)
      else if x.videoId == id then Some(x) else None
  {
    if rs != [] {
      assert (rs + [x])[1..] == rs[1..] + [x];
      FindRowSnoc(rs[1..], x, id);
    }
  }

  /** The de-duplicated history holds every id of the input and no other. */
  lemma {:induction false} DedupSameIds(rows: seq<Row>, id: string)
    ensures FindRow(Dedup(rows), id).Some? <==> FindRow(rows, id).Some?
    decreases |rows|
  {
    if rows != [] {
      var init, curr := rows[..|rows| - 1], rows[|rows| - 1];
      assert rows == init + [curr];
      DedupSameIds(init, id);
      FindRowSnoc(init, curr, id);
      FindRowSnoc(Dedup(init), curr, id);
    }
  }

  /** No id occurs twice in the de-duplicated history. */
  lemma {:induction false} DedupDistinct(rows: seq<Row>)
    ensures DistinctVideoIds(Dedup(rows))
    decreases |rows|
  {
    if rows != [] {
      var init, curr := rows[..|rows| - 1], rows[|rows| - 1];
      DedupDistinct(init);
      var acc := Dedup(init);
      if FindRow(acc, curr.videoId).None? {
        var d := acc + [curr];
        forall i, j | 0 <= i < j < |d|
          ensures d[i].videoId != d[j].videoId
        {
          if j == |acc| {
            assert d[i] in acc;
          }
        }
      }
    }
  }

  /** The row kept for an id is the first row with that id in the input;
      with the query's newest-first order that is the latest viewing. */
  lemma {:induction false} DedupKeepsFirst(rows: seq<Row>)
    ensures forall k :: 0 <= k < |Dedup(rows)| ==> FindRow(rows, Dedup(rows)[k].videoId) == Some(Dedup(rows)[k])
    decreases |rows|
  {
    if rows != [] {
      var init, curr := rows[..|rows| - 1], rows[|rows| - 1];
      assert rows == init + [curr];
      DedupKeepsFirst(init);
      var acc := Dedup(init);
      var d := Dedup(rows);
      forall k | 0 <= k < |d|
        ensures FindRow(rows, d[k].videoId) == Some(d[k])
      {
        FindRowSnoc(init, curr, d[k].videoId);
        if k < |acc| {
          assert d[k] == acc[k];
        } else {
          DedupSameIds(init, curr.videoId);
        }
      }
    }
  }

  /** The de-duplicated history keeps the input's order. */
  lemma {:induction false} DedupSubseq(rows: seq<Row>)
    ensures IsSubseq(Dedup(rows), rows)
    decreases |rows|
  {
    if rows != [] {
      var init, curr := rows[..|rows| - 1], rows[|rows| - 1];
      assert rows == init + [curr];
      DedupSubseq(init);
      var acc := Dedup(init);
      if FindRow(acc, curr.videoId).None? {
        SubseqSnocBoth(acc, init, curr);
      } else {
        SubseqSnoc(acc, init, curr);
      }
    }
  }

  /** A history without repeated ids passes through unchanged. */
  lemma {:induction false} DedupOfDistinct(rows: seq<Row>)
    requires DistinctVideoIds(rows)
    ensures Dedup(rows) == rows
    decreases |rows|
  {
    if rows != [] {
      var init, curr := rows[..|rows| - 1], rows[|rows| - 1];
      assert DistinctVideoIds(init);
      DedupOfDistinct(init);
      forall x | x in init
        ensures x.videoId != curr.videoId
      {
        var i :| 0 <= i < |init| && init[i] == x;
        assert rows[i] == x;
      }
      assert rows == init + [curr];
    }
  }

  /** De-duplicating twice is de-duplicating once. */
  /** The de-duplicated history is never longer than the rows it comes from. */
  lemma DedupShorter(rows: seq<Row>)
    ensures |Dedup(rows)| <= |rows|
  {
    DedupSubseq(rows);
    SubseqLength(Dedup(rows), rows);
  }

  lemma DedupIdempotent(rows: seq<Row>)
    ensures Dedup(Dedup(rows)) == Dedup(rows)
  {
    DedupDistinct(rows);
    DedupOfDistinct(Dedup(rows));
  }

  /** The history list the page shows has no video twice. */
  lemma HistoryIdsDistinct(rows: seq<Row>)
    ensures DistinctIds(MapRows(Dedup(rows)))
  {
    DedupDistinct(rows);
  }

  // ---------------------------------------------------------------------
  // Preferences

  datatype PrefKey = Autoplay | ShowComments | ShowRecommendations

  datatype UserPrefs = UserPrefs(autoplay: bool, showComments: bool, showRecommendations: bool)

  function Get(p: UserPrefs, key: PrefKey): bool
  {
    match key
    case Autoplay => p.autoplay
    case ShowComments => p.showComments
    case ShowRecommendations => p.showRecommendations
  }

  /** `{ ...preferences, [key]: value }`: the record differs from `p` at
      `key` only, which now holds `value`. */
  function With(p: UserPrefs, key: PrefKey, value: bool): (q: UserPrefs)
    ensures Get(q, key) == value
    ensures forall other :: other != key ==> Get(q, other) == Get(p, other)
  {
    match key
    case Autoplay => p.(autoplay := value)
    case ShowComments => p.(showComments := value)
    case ShowRecommendations => p.(showRecommendations := value)
  }

  /** The key as the TypeScript property name. */
  function KeyName(key: PrefKey): string
  {
    match key
    case Autoplay => "autoplay"
    case ShowComments => "showComments"
    case ShowRecommendations => "showRecommendations"
  }

  /** `dbKey`: the two camelCase names map to their snake_case column, any
      other name is used as it is. */
  function DbKey(key: PrefKey): string
  {
    var name := KeyName(key);
    if name == "showComments" then "show_comments"
    else if name == "showRecommendations" then "show_recommendations"
    else name
  }

  /** The column each key is written to; distinct keys write distinct
      columns. */
  lemma DbKeyColumns()
    ensures DbKey(Autoplay) == "autoplay"
    ensures DbKey(ShowComments) == "show_comments"
    ensures DbKey(ShowRecommendations) == "show_recommendations"
    ensures forall a, b :: DbKey(a) == DbKey(b) ==> a == b
  {
  }

  /** The stored `user_preferences` row, by column name. */
  type PrefsRow = map<string, bool>

  predicate HasPrefColumns(row: PrefsRow)
  {
    "autoplay" in row && "show_comments" in row && "show_recommendations" in row
  }

  /** Loading a stored row into the page's record. */
  function PrefsFromRow(row: PrefsRow): UserPrefs
    requires HasPrefColumns(row)
  {
    UserPrefs(row["autoplay"], row["show_comments"], row["show_recommendations"])
  }

  /** The update the page sends: one column of one user's row. */
  datatype PrefWrite = PrefWrite(userId: string, column: string, value: bool)

  /** `updatePreference`: without a user nothing changes and nothing is
      sent; with one the record takes the new value and the write names the
      key's column. */
  function UpdatePreference(user: Option<string>, prefs: UserPrefs, key: PrefKey, value: bool): (r: (UserPrefs, Option<PrefWrite>))
    ensures user.None? ==> r == (prefs, None)
    ensures user.Some? ==> r.1 == Some(PrefWrite(user.value, DbKey(key), value))
    ensures user.Some? ==> Get(r.0, key) == value && forall other :: other != key ==> Get(r.0, other) == Get(prefs, other)
  {
    if user.None? then (prefs, None)
    else (With(prefs, key, value), Some(PrefWrite(user.value, DbKey(key), value)))
  }

  /** Applying a write to the stored row. */
  function ApplyWrite(row: PrefsRow, w: PrefWrite): PrefsRow
  {
    row[w.column := w.value]
  }

  /** The record the page shows after an update is the record it would load
      from the updated row: the write lands on the column of the same key. */
  lemma WriteThenReload(user: string, row: PrefsRow, key: PrefKey, value: bool)
    requires HasPrefColumns(row)
    ensures HasPrefColumns(ApplyWrite(row, UpdatePreference(Some(user), PrefsFromRow(row), key, value).1.value))
    ensures PrefsFromRow(ApplyWrite(row, UpdatePreference(Some(user), PrefsFromRow(row), key, value).1.value))
         == UpdatePreference(Some(user), PrefsFromRow(row), key, value).0
  {
    DbKeyColumns();
  }
}
