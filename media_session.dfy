/**
 * The threaded now-playing watcher: it tracks title, artist and a
 * "session present" flag. Its thread, event loop and stop signal are not
 * modelled; each call of the handler is one poll.
 */
module MediaSession {
  import opened Wrappers
  import opened MediaPoll

  datatype SessionState = SessionState(title: Option<string>, artist: Option<string>, flag: bool)

  const Initial := SessionState(None, None, false)

  /** The state after one poll. */
  function Step(s: SessionState, poll: Poll): SessionState {
    match poll
    case NoSession => if s.flag then SessionState(None, None, false) else s
    case QueryFailed => SessionState(None, None, false)
    case Session(t, a, _) => if Some(t) != s.title then SessionState(Some(t), Some(a), true) else s
  }

  /** The state after a run of polls. */
  function Run(s: SessionState, polls: seq<Poll>): SessionState
    decreases |polls|
  {
    if polls == [] then s else Run(Step(s, polls[0]), polls[1..])
  }

  /** The flag is set exactly when a title is stored, and a title is stored exactly with an artist. */
  predicate Consistent(s: SessionState) {
    s.flag == s.title.Some? && s.flag == s.artist.Some?
  }

  /**
   * Per poll: no session with the flag set clears all three; no session
   * with the flag clear changes nothing; a failure clears all three; a new
   * title stores title and artist and sets the flag; a repeated title
   * changes nothing, not even a different artist.
   */
  lemma StepSpec(s: SessionState, poll: Poll)
    ensures poll.NoSession? && s.flag ==> Step(s, poll) == Initial
    ensures poll.NoSession? && !s.flag ==> Step(s, poll) == s
    ensures poll.QueryFailed? ==> Step(s, poll) == Initial
    ensures poll.Session? && Some(poll.title) != s.title ==>
      Step(s, poll) == SessionState(Some(poll.title), Some(poll.artist), true)
    ensures poll.Session? && Some(poll.title) == s.title ==> Step(s, poll) == s
  {
  }

  /** Every step keeps the state consistent. */
  lemma StepConsistent(s: SessionState, poll: Poll)
    requires Consistent(s)
    ensures Consistent(Step(s, poll))
  {
  }

  /** From the initial state, every run of polls leaves the state consistent: flag clear means no title and no artist. */
  lemma {:induction false} RunConsistent(s: SessionState, polls: seq<Poll>)
    requires Consistent(s)
    ensures Consistent(Run(s, polls))
    ensures !Run(s, polls).flag ==> Run(s, polls).title == None && Run(s, polls).artist == None
    decreases |polls|
  {
    if polls != [] {
      StepConsistent(s, polls[0]);
      RunConsistent(Step(s, polls[0]), polls[1..]);
    }
  }

  /** Running polls one after another is stepping through them. */
  lemma {:induction false} RunSnoc(s: SessionState, polls: seq<Poll>, p: Poll)
    ensures Run(s, polls + [p]) == Step(Run(s, polls), p)
    decreases |polls|
  {
    if polls == [] {
      assert polls + [p] == [p];
    } else {
      assert (polls + [p])[1..] == polls[1..] + [p];
      RunSnoc(Step(s, polls[0]), polls[1..], p);
    }
  }

  /** Repeated empty polls are idempotent: a second one changes nothing. */
  lemma {:induction false} NoSessionIdempotent(s: SessionState, polls: seq<Poll>)
    ensures Run(s, polls + [NoSession, NoSession]) == Run(s, polls + [NoSession])
  {
    assert polls + [NoSession, NoSession] == (polls + [NoSession]) + [NoSession];
    RunSnoc(s, polls + [NoSession], NoSession);
    RunSnoc(s, polls, NoSession);
  }

  /** After a run from a consistent state that ends in a session poll, that poll's title is stored and the flag is set. */
  lemma {:induction false} LastSessionTitle(s: SessionState, polls: seq<Poll>, t: string, a: string, th: Option<ThumbnailRef>)
    requires Consistent(s)
    ensures Run(s, polls + [Session(t, a, th)]).title == Some(t)
    ensures Run(s, polls + [Session(t, a, th)]).flag
  {
    RunSnoc(s, polls, Session(t, a, th));
    RunConsistent(s, polls);
  }

  /** The watcher object. */
  class MediaWatcher {
    var currentSessionFlag: bool
    var title: Option<string>
    var artist: Option<string>

    function State(): SessionState
      reads this
    {
      SessionState(title, artist, currentSessionFlag)
    }

    ghost predicate Valid()
      reads this
    {
      Consistent(State())
    }

    constructor ()
      ensures Valid() && State() == Initial
    {
      currentSessionFlag := false;
      title := None;
      artist := None;
    }

    /** One poll of the handler. */
    method AsyncSessionHandler(poll: Poll)
      requires Valid()
      modifies this
      ensures Valid()
      ensures State() == Step(old(State()), poll)
    {
      match poll {
        case NoSession =>
          if currentSessionFlag {
            currentSessionFlag := false;
            title := None;
            artist := None;
          }
        case Session(t, a, _) =>
          if Some(t) != title {
            title := Some(t);
            artist := Some(a);
            currentSessionFlag := true;
          }
        case QueryFailed =>
          currentSessionFlag := false;
          title := None;
          artist := None;
      }
    }
  }
}
