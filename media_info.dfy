/**
 * The stand-alone now-playing watcher: it tracks the title and the last
 * loaded thumbnail, without a session flag.
 */
module MediaInfo {
  import opened Wrappers
  import opened MediaPoll

  datatype InfoState = InfoState(title: Option<string>, thumbnail: Option<Picture>)

  const Initial := InfoState(None, None)

  /** The state after one poll, and whether the poll started a thumbnail load. */
  function Step(s: InfoState, poll: Poll): (InfoState, bool) {
    match poll
    case NoSession => (InfoState(None, None), false)
    case QueryFailed => (s.(title := None), false)
    case Session(t, _, thumb) =>
      if Some(t) != s.title then
        var loaded := if thumb.Some? && thumb.value.image.Some? then thumb.value.image else s.thumbnail;
        (InfoState(Some(t), loaded), thumb.Some?)
      else
        (s, false)
  }

  /**
   * Per poll: no session clears title and thumbnail; a failure clears the
   * title and keeps the thumbnail; a repeated title changes nothing and
   * loads nothing; a new title is stored, a load is started exactly when
   * a thumbnail is present, and the thumbnail changes only when it loads.
   */
  lemma StepSpec(s: InfoState, poll: Poll)
    ensures poll.NoSession? ==> Step(s, poll) == (InfoState(None, None), false)
    ensures poll.QueryFailed? ==> Step(s, poll) == (InfoState(None, s.thumbnail), false)
    ensures poll.Session? && Some(poll.title) == s.title ==> Step(s, poll) == (s, false)
    ensures poll.Session? && Some(poll.title) != s.title ==>
      Step(s, poll).0.title == Some(poll.title)
      && (Step(s, poll).1 <==> poll.thumbnail.Some?)
      && Step(s, poll).0.thumbnail == (if poll.thumbnail.Some? && poll.thumbnail.value.image.Some? then poll.thumbnail.value.image else s.thumbnail)
  {
  }

  /** Number of thumbnail loads started over a run of polls. */
  function LoadCount(s: InfoState, polls: seq<Poll>): nat
    decreases |polls|
  {
    if polls == [] then 0
    else
      var (s', loaded) := Step(s, polls[0]);
      (if loaded then 1 else 0) + LoadCount(s', polls[1..])
  }

  /** Over polls that all report a session with a thumbnail, the loads equal the title changes, counted from the stored title. */
  lemma {:induction false} LoadCountIsTitleChanges(s: InfoState, polls: seq<Poll>)
    requires AllSessionsWithThumbnail(polls)
    ensures AllSessions(polls)
    ensures LoadCount(s, polls) == TitleChanges(s.title, polls)
    decreases |polls|
  {
    if polls != [] {
      var (s', _) := Step(s, polls[0]);
      assert s'.title == Some(polls[0].title);
      LoadCountIsTitleChanges(s', polls[1..]);
    }
  }

  /** Without thumbnails nothing is ever loaded, whatever the titles do. */
  lemma {:induction false} NoThumbnailNoLoad(s: InfoState, polls: seq<Poll>)
    requires forall i :: 0 <= i < |polls| ==> !(polls[i].Session? && polls[i].thumbnail.Some?)
    ensures LoadCount(s, polls) == 0
    decreases |polls|
  {
    if polls != [] {
      var (s', _) := Step(s, polls[0]);
      NoThumbnailNoLoad(s', polls[1..]);
    }
  }

  /** The watcher object. */
  class Media {
    var currentMediaTitle: Option<string>
    var currentMediaThumbnail: Option<Picture>
    /** Number of thumbnail loads started. */
    ghost var thumbnailLoads: nat

    function State(): InfoState
      reads this
    {
      InfoState(currentMediaTitle, currentMediaThumbnail)
    }

    constructor ()
      ensures State() == Initial && thumbnailLoads == 0
    {
      currentMediaTitle := None;
      currentMediaThumbnail := None;
      thumbnailLoads := 0;
    }

    /** Loads a thumbnail: on success it becomes the current one and true is returned; on failure nothing changes. */
    method LoadThumbnail(thumb: ThumbnailRef) returns (ok: bool)
      modifies this`currentMediaThumbnail, this`thumbnailLoads
      ensures ok == thumb.image.Some?
      ensures currentMediaThumbnail == if ok then thumb.image else old(currentMediaThumbnail)
      ensures thumbnailLoads == old(thumbnailLoads) + 1
    {
      thumbnailLoads := thumbnailLoads + 1;
      if thumb.image.Some? {
        currentMediaThumbnail := thumb.image;
        return true;
      }
      return false;
    }

    /** One poll of the watcher. */
    method SessionHandler(poll: Poll)
      modifies this
      ensures State() == Step(old(State()), poll).0
      ensures thumbnailLoads == old(thumbnailLoads) + (if Step(old(State()), poll).1 then 1 else 0)
    {
      match poll {
        case NoSession =>
          currentMediaTitle := None;
          currentMediaThumbnail := None;
        case Session(title, artist, thumbnail) =>
          if Some(title) != currentMediaTitle {
            currentMediaTitle := Some(title);
            if thumbnail.Some? {
              var success := LoadThumbnail(thumbnail.value);
            }
          }
        case QueryFailed =>
          currentMediaTitle := None;
      }
    }
  }
}
