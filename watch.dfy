/**
 * The watch page (src/pages/Watch.tsx): the video lookup with its
 * not-found branch, the history insert and list check on opening, the
 * recommendation strip, and the two flag toggles it hands to the player.
 */
module WatchPage {
  import opened Wrappers
  import opened Seqs
  import opened Catalog
  import opened Profile
  import opened Backend

  // ---------------------------------------------------------------------
  // Recommendations: mockVideos.filter(v => v.id !== id).slice(0, 6)

  /** The videos of `vs` whose id is not `id`, in order. */
  function Without(vs: seq<Video>, id: string): (r: seq<Video>)
    ensures IsSubseq(r, vs)
    ensures forall v :: v in r <==> v in vs && v.id != id
  {
    if vs == [] then []
    else
      var rest := Without(vs[1..], id);
      assert vs == [vs[0]] + vs[1..];
      if vs[0].id != id then
        assert ([vs[0]] + rest)[1..] == rest;
        [vs[0]] + rest
      else
        rest
  }

  const MaxRecommendations := 6

  /** `vs.filter(v => v.id !== id).slice(0, 6)`: at most six videos of
      `vs` other than the one playing, the first ones in order. */
  function Recommend(vs: seq<Video>, id: string): (r: seq<Video>)
    ensures |r| <= MaxRecommendations
    ensures forall v :: v in r ==> v in vs && v.id != id
    ensures |r| <= |Without(vs, id)| && r == Without(vs, id)[..|r|]
    ensures |r| == MaxRecommendations || r == Without(vs, id)
  {
    var others := Without(vs, id);
    var n := if |others| < MaxRecommendations then |others| else MaxRecommendations;
    assert forall i :: 0 <= i < n ==> others[..n][i] in others;
    others[..n]
  }

  /** The strip under the player, drawn from the fixture. */
  function Recommendations(id: string): seq<Video>
  {
    Recommend(MockVideos, id)
  }

  /** Removing an id no video has changes nothing. */
  lemma {:induction false} WithoutAbsent(vs: seq<Video>, id: string)
    requires forall v :: v in vs ==> v.id != id
    ensures Without(vs, id) == vs
  {
    if vs != [] {
      WithoutAbsent(vs[1..], id);
      assert vs == [vs[0]] + vs[1..];
    }
  }

  /** Removing an id exactly one video has drops exactly that video. */
  lemma {:induction false} WithoutPresent(vs: seq<Video>, i: nat)
    requires DistinctIds(vs) && i < |vs|
    ensures |Without(vs, vs[i].id)| == |vs| - 1
  {
    var id := vs[i].id;
    assert vs == [vs[0]] + vs[1..];
    if i == 0 {
      forall v | v in vs[1..]
        ensures v.id != id
      {
        var j :| 0 <= j < |vs[1..]| && vs[1..][j] == v;
        assert vs[j + 1] == v;
      }
      WithoutAbsent(vs[1..], id);
    } else {
      assert vs[1..][i - 1] == vs[i];
      WithoutPresent(vs[1..], i - 1);
    }
  }

  /** The page of a fixture video always recommends six others. */
  lemma FixtureRecommendations(v: Video)
    requires v in MockVideos
    ensures |Recommendations(v.id)| == MaxRecommendations
  {
    FixtureIdsDistinct();
    var i :| 0 <= i < |MockVideos| && MockVideos[i] == v;
    WithoutPresent(MockVideos, i);
  }

  /** For an id no fixture video has, the strip is the first six fixture
      videos. */
  lemma UnknownIdRecommendations(id: string)
    requires forall v :: v in MockVideos ==> v.id != id
    ensures Recommendations(id) == MockVideos[..MaxRecommendations]
  {
    WithoutAbsent(MockVideos, id);
  }

  // ---------------------------------------------------------------------
  // The page state

  /** What the page renders. */
  datatype Screen = Skeleton | NotFound | Playing(video: Video)

  /** `if (id)`: the route id is present and, since `""` is falsy, non-empty. */
  predicate Routed(id: Option<string>)
  {
    id.Some? && id.value != ""
  }

  class WatchPage {
    var video: Option<Video>
    var loading: bool
    var isFavorite: bool
    var isWatchLater: bool

    /** The initial state: loading, no video, both flags off. */
    constructor()
      ensures video.None? && loading && !isFavorite && !isWatchLater
    {
      video := None;
      loading := true;
      isFavorite := false;
      isWatchLater := false;
    }

    /** The skeleton while loading, then the not-found message or the player. */
    function Screen(): (s: Screen)
      reads this
      ensures s == Skeleton <==> loading
      ensures s == NotFound <==> !loading && video.None?
      ensures s.Playing? ==> video == Some(s.video)
    {
      if loading then Skeleton
      else if video.None? then NotFound
      else Playing(video.value)
    }

    /** The opening effect for route id `id`: an absent or empty id is
        falsy and leaves the page as it is; otherwise look the video up and stop
        loading; when there is a user and the video was found, insert a
        history row and read the two list memberships into the flags. */
    method Open(id: Option<string>, user: Option<string>, store: Store, historyReply: Reply, listsReply: Reply)
      modifies this, store`history
      ensures !Routed(id) ==> video == old(video) && loading == old(loading)
      ensures Routed(id) ==> video == GetVideoById(id.value) && !loading
      ensures Routed(id) && user.Some? && video.Some? && historyReply == Done ==>
        store.history == old(store.history) + [RowFor(user.value, video.value)]
      ensures !(Routed(id) && user.Some? && video.Some? && historyReply == Done) ==> store.history == old(store.history)
      ensures Routed(id) && user.Some? && video.Some? && listsReply == Done ==>
        isFavorite == (Entry(user.value, video.value.id) in store.favorites)
        && isWatchLater == (Entry(user.value, video.value.id) in store.watchLater)
      ensures Routed(id) && user.Some? && video.Some? && listsReply == Refused ==> !isFavorite && !isWatchLater
      ensures !(Routed(id) && user.Some? && video.Some? && listsReply != Threw) ==>
        isFavorite == old(isFavorite) && isWatchLater == old(isWatchLater)
    {
      if Routed(id) {
        var found := GetVideoById(id.value);
        Show(found, user, store, historyReply, listsReply);
      }
    }

    /** The effect once the lookup has answered `found`. A refused
        membership query leaves no data, so both flags go off; a thrown one
        leaves them as they were. */
    method Show(found: Option<Video>, user: Option<string>, store: Store, historyReply: Reply, listsReply: Reply)
      modifies this, store`history
      ensures video == found && !loading
      ensures user.Some? && found.Some? && historyReply == Done ==>
        store.history == old(store.history) + [RowFor(user.value, found.value)]
      ensures !(user.Some? && found.Some? && historyReply == Done) ==> store.history == old(store.history)
      ensures user.Some? && found.Some? && listsReply == Done ==>
        isFavorite == (Entry(user.value, found.value.id) in store.favorites)
        && isWatchLater == (Entry(user.value, found.value.id) in store.watchLater)
      ensures user.Some? && found.Some? && listsReply == Refused ==> !isFavorite && !isWatchLater
      ensures !(user.Some? && found.Some? && listsReply != Threw) ==>
        isFavorite == old(isFavorite) && isWatchLater == old(isWatchLater)
    {
      video := found;
      loading := false;
      if user.Some? && found.Some? {
        if historyReply == Done {
          store.history := store.history + [RowFor(user.value, found.value)];
        }
        var e := Entry(user.value, found.value.id);
        if listsReply == Done {
          isFavorite := e in store.favorites;
          isWatchLater := e in store.watchLater;
        } else if listsReply == Refused {
          isFavorite := false;
          isWatchLater := false;
        }
      }
    }

    /** `onFavoriteToggle`: flip the favourite flag only. */
    method ToggleFavorite()
      modifies this`isFavorite
      ensures isFavorite == !old(isFavorite)
    {
      isFavorite := !isFavorite;
    }

    /** `onWatchLaterToggle`: flip the watch-later flag only. */
    method ToggleWatchLater()
      modifies this`isWatchLater
      ensures isWatchLater == !old(isWatchLater)
    {
      isWatchLater := !isWatchLater;
    }
  }
}
