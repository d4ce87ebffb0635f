/**
 * The bridge: the now-playing watcher with its thumbnail, the translation
 * of device commands into media-key presses, and one iteration each of
 * the link supervisor and the command reader. The keyboard is a sink
 * whose presses are logged.
 */
module SessionManager {
  import opened Wrappers
  import opened MediaPoll
  import opened SerialLink
  import opened Text

  /** The media keys the bridge presses. */
  datatype Key = MediaPlayPause | MediaNext | MediaPrevious | MediaVolumeMute | MediaVolumeUp | MediaVolumeDown

  /** Number of presses a volume command is turned into. */
  const VolumeBurst := 5

  /** The closed command map: the key a token stands for, if any. */
  function CommandKey(data: string): Option<Key> {
    if data == "PLAY" then Some(MediaPlayPause)
    else if data == "SKIP_NEXT" then Some(MediaNext)
    else if data == "SKIP_PREV" then Some(MediaPrevious)
    else if data == "MUTE" then Some(MediaVolumeMute)
    else if data == "VOL_UP" then Some(MediaVolumeUp)
    else if data == "VOL_DOWN" then Some(MediaVolumeDown)
    else None
  }

  predicate IsVolumeToken(data: string) {
    data == "VOL_UP" || data == "VOL_DOWN"
  }

  /** `n` presses of `k`. */
  function Repeat(k: Key, n: nat): (r: seq<Key>)
    ensures |r| == n && forall i :: 0 <= i < n ==> r[i] == k
  {
    if n == 0 then [] else [k] + Repeat(k, n - 1)
  }

  /** The presses one command produces: a burst for volume, one press otherwise, none for an unknown token. */
  function KeyPresses(data: string): seq<Key> {
    match CommandKey(data)
    case None => []
    case Some(k) => if IsVolumeToken(data) then Repeat(k, VolumeBurst) else [k]
  }

  /** The command table: which presses each token yields, and that any other token yields none. */
  lemma KeyPressesTable(data: string)
    ensures data == "PLAY" ==> KeyPresses(data) == [MediaPlayPause]
    ensures data == "SKIP_NEXT" ==> KeyPresses(data) == [MediaNext]
    ensures data == "SKIP_PREV" ==> KeyPresses(data) == [MediaPrevious]
    ensures data == "MUTE" ==> KeyPresses(data) == [MediaVolumeMute]
    ensures data == "VOL_UP" ==> KeyPresses(data) == [MediaVolumeUp, MediaVolumeUp, MediaVolumeUp, MediaVolumeUp, MediaVolumeUp]
    ensures data == "VOL_DOWN" ==> KeyPresses(data) == [MediaVolumeDown, MediaVolumeDown, MediaVolumeDown, MediaVolumeDown, MediaVolumeDown]
    ensures data !in {"PLAY", "SKIP_NEXT", "SKIP_PREV", "MUTE", "VOL_UP", "VOL_DOWN"} ==> KeyPresses(data) == []
  {
    var r := Repeat(MediaVolumeUp, 5);
    assert r == [MediaVolumeUp, MediaVolumeUp, MediaVolumeUp, MediaVolumeUp, MediaVolumeUp];
    var d := Repeat(MediaVolumeDown, 5);
    assert d == [MediaVolumeDown, MediaVolumeDown, MediaVolumeDown, MediaVolumeDown, MediaVolumeDown];
  }

  /**
   * Reader and dispatcher together: every token of the command map passes
   * the reader's validation, so each reaches the keyboard; ALIVE and
   * lines embedding a command (such as "XMUTEX") pass or fail validation
   * but press nothing.
   */
  lemma {:induction false} MappedTokensAccepted(data: string)
    requires CommandKey(data).Some?
    ensures IsValidCommand(data)
  {
    if data == "PLAY" {
      assert OccursAt(data, ValidCommands[0], 0) && Contains(data, ValidCommands[0]);
    } else if data == "SKIP_NEXT" {
      assert OccursAt(data, ValidCommands[1], 0) && Contains(data, ValidCommands[1]);
    } else if data == "SKIP_PREV" {
      assert OccursAt(data, ValidCommands[2], 0) && Contains(data, ValidCommands[2]);
    } else if data == "MUTE" {
      assert OccursAt(data, ValidCommands[3], 0) && Contains(data, ValidCommands[3]);
    } else {
      assert OccursAt(data, ValidCommands[4], 0) && Contains(data, ValidCommands[4]);
    }
  }

  /** The watcher's state: the stored title, the last loaded thumbnail, and the session flag. */
  datatype WatchState = WatchState(title: Option<string>, thumbnail: Option<Picture>, sessionFlag: bool)

  const Initial := WatchState(None, None, false)

  /** The state after one poll, and whether that poll started a thumbnail load. */
  function Step(s: WatchState, poll: Poll): (WatchState, bool) {
    match poll
    case NoSession => (WatchState(None, None, false), false)
    case QueryFailed => (s.(title := None), false)
    case Session(t, _, thumb) =>
      if Some(t) != s.title then
        var loaded := if thumb.Some? && thumb.value.image.Some? then thumb.value.image else s.thumbnail;
        (WatchState(Some(t), loaded, true), thumb.Some?)
      else
        (s.(sessionFlag := true), false)
  }

  /** While no session is flagged there is no stored title; every step keeps this. */
  predicate FlagCoversTitle(s: WatchState) {
    !s.sessionFlag ==> s.title == None
  }

  lemma StepKeepsFlagCoversTitle(s: WatchState, poll: Poll)
    requires FlagCoversTitle(s)
    ensures FlagCoversTitle(Step(s, poll).0)
  {
  }

  /**
   * Per poll: no session clears title and thumbnail and the flag; a
   * failure clears only the title; a new title is stored (even if the
   * thumbnail fails to load) and a load is started exactly when a
   * thumbnail is present, the stored thumbnail becoming the loaded image
   * exactly when the load succeeds; a repeated title changes nothing and loads nothing.
   */
  lemma StepSpec(s: WatchState, poll: Poll)
    requires FlagCoversTitle(s)
    ensures poll.NoSession? ==> Step(s, poll) == (WatchState(None, None, false), false)
    ensures poll.QueryFailed? ==>
      Step(s, poll).0 == WatchState(None, s.thumbnail, s.sessionFlag) && !Step(s, poll).1
    ensures poll.Session? && s.title == Some(poll.title) ==> Step(s, poll) == (s, false)
    ensures poll.Session? && s.title != Some(poll.title) ==>
      Step(s, poll).0.title == Some(poll.title) && Step(s, poll).0.sessionFlag
      && (Step(s, poll).1 <==> poll.thumbnail.Some?)
      && Step(s, poll).0.thumbnail ==
        (if poll.thumbnail.Some? && poll.thumbnail.value.image.Some? then poll.thumbnail.value.image else s.thumbnail)
  {
  }

  /** The indices (counted from `base`) of the polls that start a thumbnail load. */
  function LoadsFrom(s: WatchState, polls: seq<Poll>, base: nat): seq<nat>
    decreases |polls|
  {
    if polls == [] then []
    else
      var (s', loaded) := Step(s, polls[0]);
      (if loaded then [base] else []) + LoadsFrom(s', polls[1..], base + 1)
  }

  /** Poll `i`'s title differs from the one before it (the first poll is compared with `first`). */
  predicate TitleChangedAt(first: Option<string>, polls: seq<Poll>, i: nat)
    requires AllSessions(polls) && i < |polls|
  {
    Some(polls[i].title) != (if i == 0 then first else Some(polls[i - 1].title))
  }

  /**
   * Over polls that all report a session with a thumbnail, loads happen
   * exactly at the polls whose title differs from the previous one.
   */
  lemma {:induction false} LoadsAtTitleChanges(s: WatchState, polls: seq<Poll>, base: nat)
    requires AllSessionsWithThumbnail(polls)
    ensures AllSessions(polls)
    ensures forall k :: k in LoadsFrom(s, polls, base) <==>
      base <= k < base + |polls| && TitleChangedAt(s.title, polls, k - base)
    decreases |polls|
  {
    if polls != [] {
      var (s', loaded) := Step(s, polls[0]);
      assert s'.title == Some(polls[0].title);
      var rest := polls[1..];
      LoadsAtTitleChanges(s', rest, base + 1);
      forall j | 0 < j < |polls|
        ensures TitleChangedAt(s'.title, rest, j - 1) == TitleChangedAt(s.title, polls, j)
      {
      }
    }
  }

  /** The example run: titles A, A, B, B, B, A load thumbnails at polls 0, 2 and 5 only. */
  lemma LoadsExample(a: string, b: string, th: ThumbnailRef)
    requires a != b
    ensures var A, B := Session(a, "", Some(th)), Session(b, "", Some(th));
      LoadsFrom(Initial, [A, A, B, B, B, A], 0) == [0, 2, 5]
  {
    var A, B := Session(a, "", Some(th)), Session(b, "", Some(th));
    var polls := [A, A, B, B, B, A];
    LoadsAtTitleChanges(Initial, polls, 0);
    var r := LoadsFrom(Initial, polls, 0);
    assert forall k :: k in r <==> k in [0, 2, 5];
    LoadsIncreasing(Initial, polls, 0);
    SortedSameElements(r, [0, 2, 5]);
  }

  /** Load indices come out strictly increasing and within range. */
  lemma {:induction false} LoadsIncreasing(s: WatchState, polls: seq<Poll>, base: nat)
    ensures forall i :: 0 <= i < |LoadsFrom(s, polls, base)| ==> base <= LoadsFrom(s, polls, base)[i] < base + |polls|
    ensures forall i, j :: 0 <= i < j < |LoadsFrom(s, polls, base)| ==> LoadsFrom(s, polls, base)[i] < LoadsFrom(s, polls, base)[j]
    decreases |polls|
  {
    if polls != [] {
      var (s', loaded) := Step(s, polls[0]);
      LoadsIncreasing(s', polls[1..], base + 1);
    }
  }

  /** Two strictly increasing sequences with the same elements are equal. */
  lemma {:induction false} SortedSameElements(a: seq<nat>, b: seq<nat>)
    requires forall i, j :: 0 <= i < j < |a| ==> a[i] < a[j]
    requires forall i, j :: 0 <= i < j < |b| ==> b[i] < b[j]
    requires forall k :: k in a <==> k in b
    ensures a == b
  {
    assert a != [] ==> a[0] in b;
    assert b != [] ==> b[0] in a;
    if a != [] && b != [] {
      assert a[0] == b[0] by {
        assert a[0] in b && b[0] in a;
      }
      assert forall k :: k in a[1..] <==> k in b[1..] by {
        forall k
          ensures k in a[1..] <==> k in b[1..]
        {
          if k in a[1..] {
            assert k in a && k != a[0];
          }
          if k in b[1..] {
            assert k in b && k != b[0];
          }
        }
      }
      SortedSameElements(a[1..], b[1..]);
    }
  }

  /** The bridge object: now-playing state, the keyboard's press log, and the serial link. */
  class Media {
    var currentSessionFlg: bool
    var currentMediaTitle: Option<string>
    var currentMediaThumbnail: Option<Picture>
    /** Every key pressed, in order. */
    var presses: seq<Key>
    const serialHandler: SerialConnection
    /** Number of thumbnail loads started. */
    ghost var thumbnailLoads: nat

    function State(): WatchState
      reads this
    {
      WatchState(currentMediaTitle, currentMediaThumbnail, currentSessionFlg)
    }

    ghost predicate Valid()
      reads this, serialHandler
    {
      FlagCoversTitle(State()) && serialHandler.Valid()
    }

    constructor ()
      ensures Valid() && State() == Initial && presses == [] && thumbnailLoads == 0
      ensures fresh(serialHandler) && !serialHandler.connected && serialHandler.written == []
      ensures serialHandler.comPort == None && serialHandler.ser == None && serialHandler.openAttempts == []
    {
      currentSessionFlg := false;
      currentMediaTitle := None;
      currentMediaThumbnail := None;
      presses := [];
      thumbnailLoads := 0;
      serialHandler := new SerialConnection();
    }

    /** Loads a thumbnail: on success it becomes the current one and true is returned; on failure nothing changes. */
    method LoadThumbnail(thumb: ThumbnailRef) returns (ok: bool)
      modifies this`currentMediaThumbnail, this`thumbnailLoads
      ensures ok == thumb.image.Some?
      ensures currentMediaThumbnail == if ok then thumb.image else old(currentMediaThumbnail)
      ensures thumbnailLoads == old(thumbnailLoads) + 1
    {
      thumbnailLoads := thumbnailLoads + 1;
      if thumb.image.Some? {
        currentMediaThumbnail := thumb.image;
        return true;
      }
      return false;
    }

    /** One poll of the now-playing watcher. */
    method SessionHandler(poll: Poll)
      requires Valid()
      modifies this`currentSessionFlg, this`currentMediaTitle, this`currentMediaThumbnail, this`thumbnailLoads
      ensures Valid()
      ensures State() == Step(old(State()), poll).0
      ensures thumbnailLoads == old(thumbnailLoads) + (if Step(old(State()), poll).1 then 1 else 0)
    {
      match poll {
        case QueryFailed =>
          currentMediaTitle := None;
        case NoSession =>
          currentMediaTitle := None;
          currentMediaThumbnail := None;
          if currentSessionFlg {
            currentSessionFlg := false;
          }
        case Session(title, artist, thumbnail) =>
          currentSessionFlg := true;
          if Some(title) != currentMediaTitle {
            currentMediaTitle := Some(title);
            if thumbnail.Some? {
              var success := LoadThumbnail(thumbnail.value);
            }
          }
      }
    }

    /** Presses the keys a command stands for: a burst of five for volume, one otherwise, none for other tokens. */
    method HandleCommand(data: string)
      modifies this`presses
      ensures presses == old(presses) + KeyPresses(data)
    {
      match CommandKey(data) {
        case None =>
        case Some(key) =>
          if IsVolumeToken(data) {
            for n := 0 to VolumeBurst
              invariant presses == old(presses) + Repeat(key, n)
            {
              presses := presses + [key];
              assert Repeat(key, n + 1) == Repeat(key, n) + [key] by {
                RepeatSnoc(key, n);
              }
            }
          } else {
            presses := presses + [key];
          }
      }
    }

    /**
     * One iteration of the link supervisor. Connected: nothing happens.
     * Disconnected: connect, and if that succeeds ping; a failed ping
     * drops the link again. An undecodable reply escapes the heartbeat
     * and ends the supervisor (`crashed`), leaving the link flagged connected.
     */
    method SerialInitStep(ports: seq<PortInfo>, refused: set<string>, writeFails: bool, trace: seq<Inbound>, window: nat)
      returns (crashed: bool)
      requires Valid()
      modifies serialHandler
      ensures Valid()
      ensures old(serialHandler.connected) ==> !crashed && unchanged(serialHandler)
      ensures !old(serialHandler.connected) ==>
        var didOpen := FirstOpenable(FindEsp32Ports(ports), refused).Some?;
        var heartbeat := AwaitAlive(trace, 0, window);
        crashed == (didOpen && !writeFails && heartbeat == DecodeErrorRaised)
        && serialHandler.connected == (didOpen && !writeFails && heartbeat != Returned(false))
        && serialHandler.written == old(serialHandler.written) + (if didOpen && !writeFails then [HeartbeatPing] else [])
      ensures !old(serialHandler.connected) ==>
        var cands := FindEsp32Ports(ports);
        var found := FirstOpenable(cands, refused);
        (found.Some? ==>
          serialHandler.comPort == Some(cands[found.value]) && serialHandler.ser == Some(Handle(cands[found.value], true))
          && serialHandler.openAttempts == old(serialHandler.openAttempts) + cands[..found.value + 1])
        && (found.None? ==>
          serialHandler.comPort == old(serialHandler.comPort) && serialHandler.ser == Closed(old(serialHandler.ser))
          && serialHandler.openAttempts == old(serialHandler.openAttempts) + cands)
    {
      crashed := false;
      if !serialHandler.connected {
        var success := serialHandler.StartConnection(ports, refused);
        if success {
          var check := serialHandler.CheckConnection(writeFails, trace, window);
          if check == DecodeErrorRaised {
            return true;
          }
          if !check.alive {
            serialHandler.connected := false;
          }
        }
      }
    }

    /** One iteration of the command reader: read only while connected, dispatch only what was received. */
    method SerialReaderStep(poll: Inbound)
      requires Valid()
      modifies this`presses, serialHandler`connected
      ensures Valid()
      ensures !old(serialHandler.connected) ==> presses == old(presses) && serialHandler.connected == old(serialHandler.connected)
      ensures old(serialHandler.connected) ==>
        serialHandler.connected == !poll.PortError?
        && presses == old(presses) + (match Received(poll) case Some(d) => KeyPresses(d) case None => [])
    {
      if serialHandler.connected {
        var data := serialHandler.ReadSerialData(poll);
        if data.Some? && data.value != "" {
          HandleCommand(data.value);
        } else if data.Some? {
          assert IsValidCommand(data.value);
          ValidCommandNonEmpty(data.value);
          assert false;
        }
      }
    }
  }

  lemma {:induction false} RepeatSnoc(k: Key, n: nat)
    ensures Repeat(k, n + 1) == Repeat(k, n) + [k]
  {
    if n > 0 {
      RepeatSnoc(k, n - 1);
    }
  }
}
