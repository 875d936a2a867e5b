/**
 * The player (src/components/video/VideoPlayer.tsx): the embed address for
 * the video's provider, and the favourite / watch-later buttons, each of
 * which sets a busy flag, deletes or inserts the (user, video) entry
 * according to the current flag, calls the page's toggle, and clears the
 * busy flag.
 */
module Player {
  import opened Wrappers
  import opened Catalog
  import opened Backend
  import opened WatchPage

  // ---------------------------------------------------------------------
  // getEmbedUrl

  const YoutubePrefix := "https://www.youtube.com/embed/"
  const YoutubeSuffix := "?rel=0&modestbranding=1"
  const VimeoPrefix := "https://player.vimeo.com/video/"

  /** The YouTube embed address for `youtube`, the Vimeo player address for
      any other source; the provider id sits between the fixed prefix and
      (for YouTube) the fixed suffix. */
  function EmbedUrl(v: Video): (url: string)
    ensures v.source == "youtube" ==>
      |url| == |YoutubePrefix| + |v.videoId| + |YoutubeSuffix|
      && url[..|YoutubePrefix|] == YoutubePrefix
      && url[|YoutubePrefix|..|YoutubePrefix| + |v.videoId|] == v.videoId
      && url[|YoutubePrefix| + |v.videoId|..] == YoutubeSuffix
    ensures v.source != "youtube" ==>
      |url| == |VimeoPrefix| + |v.videoId|
      && url[..|VimeoPrefix|] == VimeoPrefix
      && url[|VimeoPrefix|..] == v.videoId
  {
    if v.source == "youtube" then YoutubePrefix + v.videoId + YoutubeSuffix
    else VimeoPrefix + v.videoId
  }

  /** The address determines the provider and the provider id: two videos
      with the same address are both YouTube videos or both not, and have
      the same `videoId`. */
  lemma EmbedUrlInjective(a: Video, b: Video)
    requires EmbedUrl(a) == EmbedUrl(b)
    ensures a.source == "youtube" <==> b.source == "youtube"
    ensures a.videoId == b.videoId
  {
    assert YoutubePrefix[8] == 'w' && VimeoPrefix[8] == 'p';
    assert EmbedUrl(a)[8] == (if a.source == "youtube" then 'w' else 'p');
    assert EmbedUrl(b)[8] == (if b.source == "youtube" then 'w' else 'p');
  }

  // ---------------------------------------------------------------------
  // handleFavorite / handleWatchLater

  /** Which list a button works on. */
  datatype ListKind = Favorites | WatchLater

  /** The externally visible steps of a button press, in order. */
  datatype Step =
    | Busy(list: ListKind, on: bool)
    | Remove(list: ListKind, entry: Entry)
    | Add(list: ListKind, entry: Entry)
    | Flip(list: ListKind)

  /** The steps of one press by a signed-in user: busy on; delete the entry
      when the flag is set, insert it otherwise; the toggle unless the call
      threw; busy off. */
  function PressSteps(list: ListKind, e: Entry, flag: bool, reply: Reply): (steps: seq<Step>)
    ensures |steps| == (if reply == Threw then 3 else 4)
    ensures steps[0] == Busy(list, true) && steps[|steps| - 1] == Busy(list, false)
    ensures steps[1] == (if flag then Remove(list, e) else Add(list, e))
    ensures Flip(list) in steps <==> reply != Threw
  {
    [Busy(list, true), if flag then Remove(list, e) else Add(list, e)]
    + (if reply == Threw then [] else [Flip(list)])
    + [Busy(list, false)]
  }

  /** A list after a delete or insert call with reply `reply`: only a call
      that is applied changes it. */
  function AfterCall(s: set<Entry>, e: Entry, remove: bool, reply: Reply): (r: set<Entry>)
    ensures reply != Done ==> r == s
    ensures reply == Done ==> (e in r <==> !remove)
    ensures forall x :: x != e ==> (x in r <==> x in s)
  {
    if reply != Done then s else if remove then s - {e} else s + {e}
  }

  class VideoPlayer {
    const video: Video
    const user: Option<string>
    const page: WatchPage
    const store: Store
    var addingFavorite: bool
    var addingWatchLater: bool
    var steps: seq<Step>

    constructor(video: Video, user: Option<string>, page: WatchPage, store: Store)
      ensures this.video == video && this.user == user && this.page == page && this.store == store
      ensures !addingFavorite && !addingWatchLater && steps == []
    {
      this.video := video;
      this.user := user;
      this.page := page;
      this.store := store;
      addingFavorite := false;
      addingWatchLater := false;
      steps := [];
    }

    /** The entry a signed-in user's press works on. */
    function Key(): Entry
      reads this
      requires user.Some?
    {
      Entry(user.value, video.id)
    }

    /** `handleFavorite`, the database call ending with `reply`. Without a
        user nothing happens. With one, the entry is deleted when the page's
        flag is set and inserted otherwise, the page's flag flips unless the
        call threw, and the busy flag ends cleared. A flag that matched the
        stored membership still matches it, unless the call was refused. */
    method HandleFavorite(reply: Reply)
      modifies this`addingFavorite, this`steps, store`favorites, page`isFavorite
      ensures user.None? ==>
        addingFavorite == old(addingFavorite) && steps == old(steps)
        && store.favorites == old(store.favorites) && page.isFavorite == old(page.isFavorite)
      ensures user.Some? ==> !addingFavorite
      ensures user.Some? ==> steps == old(steps) + PressSteps(Favorites, Key(), old(page.isFavorite), reply)
      ensures user.Some? ==> store.favorites == AfterCall(old(store.favorites), Key(), old(page.isFavorite), reply)
      ensures user.Some? ==> page.isFavorite == (if reply == Threw then old(page.isFavorite) else !old(page.isFavorite))
      ensures user.Some? && reply != Refused && old(page.isFavorite) == (Key() in old(store.favorites)) ==>
        page.isFavorite == (Key() in store.favorites)
    {
      if user.None? {
        return;
      }
      var e := Entry(user.value, video.id);
      addingFavorite := true;
      steps := steps + [Busy(Favorites, true)];
      var remove := page.isFavorite;
      if remove {
        steps := steps + [Remove(Favorites, e)];
      } else {
        steps := steps + [Add(Favorites, e)];
      }
      store.favorites := AfterCall(store.favorites, e, remove, reply);
      if reply != Threw {
        page.ToggleFavorite();
        steps := steps + [Flip(Favorites)];
      }
      addingFavorite := false;
      steps := steps + [Busy(Favorites, false)];
    }

    /** `handleWatchLater`: the same protocol on the watch-later list. */
    method HandleWatchLater(reply: Reply)
      modifies this`addingWatchLater, this`steps, store`watchLater, page`isWatchLater
      ensures user.None? ==>
        addingWatchLater == old(addingWatchLater) && steps == old(steps)
        && store.watchLater == old(store.watchLater) && page.isWatchLater == old(page.isWatchLater)
      ensures user.Some? ==> !addingWatchLater
      ensures user.Some? ==> steps == old(steps) + PressSteps(WatchLater, Key(), old(page.isWatchLater), reply)
      ensures user.Some? ==> store.watchLater == AfterCall(old(store.watchLater), Key(), old(page.isWatchLater), reply)
      ensures user.Some? ==> page.isWatchLater == (if reply == Threw then old(page.isWatchLater) else !old(page.isWatchLater))
      ensures user.Some? && reply != Refused && old(page.isWatchLater) == (Key() in old(store.watchLater)) ==>
        page.isWatchLater == (Key() in store.watchLater)
    {
      if user.None? {
        return;
      }
      var e := Entry(user.value, video.id);
      addingWatchLater := true;
      steps := steps + [Busy(WatchLater, true)];
      var remove := page.isWatchLater;
      if remove {
        steps := steps + [Remove(WatchLater, e)];
      } else {
        steps := steps + [Add(WatchLater, e)];
      }
      store.watchLater := AfterCall(store.watchLater, e, remove, reply);
      if reply != Threw {
        page.ToggleWatchLater();
        steps := steps + [Flip(WatchLater)];
      }
      addingWatchLater := false;
      steps := steps + [Busy(WatchLater, false)];
    }
  }

  /** A refused call is where the flag and the list part: the page flips its
      flag although the list did not change. */
  lemma RefusedCallDesyncs(s: set<Entry>, e: Entry, flag: bool)
    requires flag == (e in s)
    ensures (!flag) != (e in AfterCall(s, e, flag, Refused))
  {
  }
}
