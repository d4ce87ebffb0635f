/**
 * One poll of the operating system's media-session service, as the
 * session watchers see it. The service's asynchronous calls are not
 * modelled: each poll is given as its result.
 */
module MediaPoll {
  import opened Wrappers
  import opened Wire

  /** A decoded thumbnail image: the bytes the image decoder accepted. */
  datatype Picture = Picture(bytes: seq<Byte>)

  /**
   * A thumbnail stream reference. `image` is what loading it yields:
   * None when opening, reading or decoding the stream raises.
   */
  datatype ThumbnailRef = ThumbnailRef(image: Option<Picture>)

  /**
   * No current session; a session with its properties (the thumbnail
   * reference may be absent); or a failure of the service call.
   */
  datatype Poll =
    | NoSession
    | Session(title: string, artist: string, thumbnail: Option<ThumbnailRef>)
    | QueryFailed

  /** Every poll reports a session that carries a thumbnail. */
  predicate AllSessionsWithThumbnail(polls: seq<Poll>) {
    forall i :: 0 <= i < |polls| ==> polls[i].Session? && polls[i].thumbnail.Some?
  }

  /** Every poll reports a session. */
  predicate AllSessions(polls: seq<Poll>) {
    forall i :: 0 <= i < |polls| ==> polls[i].Session?
  }

  /**
   * Number of polls whose title differs from the title before it, the
   * first compared with `prev` (None before any title was seen).
   */
  function TitleChanges(prev: Option<string>, polls: seq<Poll>): nat
    requires AllSessions(polls)
    decreases |polls|
  {
    if polls == [] then 0
    else (if Some(polls[0].title) != prev then 1 else 0) + TitleChanges(Some(polls[0].title), polls[1..])
  }
}
