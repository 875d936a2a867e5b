/**
 * The hosted database as the watch page and the player see it: the
 * favourites and watch-later lists as sets of (user, video) pairs, and the
 * watch history as a list of rows. How a call ends is a parameter.
 */
module Backend {
  import opened Wrappers

  /** A row of the `favorites`, `watch_later` or `watch_history` table as the
      page reads it; the descriptive columns other than the title may be
      null. */
  datatype Row = Row(
    userId: string,
    videoId: string,
    title: string,
    thumbnail: Option<string>,
    channel: Option<string>,
    duration: Option<string>,
    source: Option<string>)

  /** One list membership: a user and a catalog video id. */
  datatype Entry = Entry(userId: string, videoId: string)

  /** How a database call ends: it is applied (`Done`); it comes back with
      an error object and changes nothing (`Refused`, the client library
      resolves rather than throws); or it throws (`Threw`). */
  datatype Reply = Done | Refused | Threw

  class Store {
    var favorites: set<Entry>
    var watchLater: set<Entry>
    var history: seq<Row>

    constructor()
      ensures favorites == {} && watchLater == {} && history == []
    {
      favorites := {};
      watchLater := {};
      history := [];
    }
  }
}
