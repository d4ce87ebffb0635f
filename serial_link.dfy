/**
 * The serial link manager: finds the device among the enumerated serial
 * ports, opens the first one that opens, pings it, and reads validated
 * command lines from it. Opening a port, `in_waiting` and `readline` are
 * hardware; here they are inputs: the port enumeration, the set of ports
 * whose open raises `SerialException`, and a trace of what each read
 * attempt observes.
 */
module SerialLink {
  import opened Wrappers
  import opened Wire
  import opened Text

  /** Marker a hardware id must contain for its port to be a candidate. */
  const UsbMarker := "USB"
  /** Accepted inbound vocabulary; matched by substring, so "VOL" admits VOL_UP and VOL_DOWN. */
  const ValidCommands: seq<string> := ["PLAY", "SKIP_NEXT", "SKIP_PREV", "MUTE", "VOL"]
  const HeartbeatPing := "PING\n"
  const HeartbeatReply := "ALIVE"

  /** One entry of the port enumeration: (device, description, hardware id). */
  datatype PortInfo = PortInfo(device: string, desc: string, hwid: string)

  predicate IsCandidate(p: PortInfo) {
    Contains(p.hwid, UsbMarker)
  }

  /** The devices of the enumerated ports whose hardware id contains the marker, in enumeration order. */
  function FindEsp32Ports(ports: seq<PortInfo>): (r: seq<string>)
    ensures |r| <= |ports|
  {
    if ports == [] then []
    else (if IsCandidate(ports[0]) then [ports[0].device] else []) + FindEsp32Ports(ports[1..])
  }

  /** Nothing else gets in: every device in the result is that of an enumerated port with the marker. */
  lemma {:induction false} FindEsp32PortsSound(ports: seq<PortInfo>, d: string)
    requires d in FindEsp32Ports(ports)
    ensures exists p :: p in ports && IsCandidate(p) && p.device == d
  {
    if !(IsCandidate(ports[0]) && ports[0].device == d) {
      FindEsp32PortsSound(ports[1..], d);
      var p :| p in ports[1..] && IsCandidate(p) && p.device == d;
      assert p in ports;
    }
  }

  /** Filtering distributes over concatenation: the candidates keep the enumeration order. */
  lemma {:induction false} FindEsp32PortsAppend(a: seq<PortInfo>, b: seq<PortInfo>)
    ensures FindEsp32Ports(a + b) == FindEsp32Ports(a) + FindEsp32Ports(b)
  {
    if a == [] {
      assert a + b == b;
    } else {
      var head := if IsCandidate(a[0]) then [a[0].device] else [];
      assert (a + b)[0] == a[0] && (a + b)[1..] == a[1..] + b;
      assert FindEsp32Ports(a + b) == head + FindEsp32Ports(a[1..] + b);
      FindEsp32PortsAppend(a[1..], b);
      assert FindEsp32Ports(a) == head + FindEsp32Ports(a[1..]);
    }
  }

  /** No candidate is lost: every enumerated port with the marker is in the result. */
  lemma {:induction false} FindEsp32PortsComplete(ports: seq<PortInfo>, p: PortInfo)
    requires p in ports && IsCandidate(p)
    ensures p.device in FindEsp32Ports(ports)
  {
    if ports[0] != p {
      FindEsp32PortsComplete(ports[1..], p);
    }
  }

  /** A serial handle: the port it was opened on and whether it is still open. */
  datatype Handle = Handle(port: string, isOpen: bool)

  predicate IsOpen(h: Option<Handle>) {
    h.Some? && h.value.isOpen
  }

  /** The handle after `close()` when it was open; an absent or closed handle is left as it is. */
  function Closed(h: Option<Handle>): (r: Option<Handle>)
    ensures !IsOpen(r)
    ensures r.Some? <==> h.Some?
    ensures h.Some? ==> r.value.port == h.value.port
  {
    if h.Some? then Some(h.value.(isOpen := false)) else None
  }

  /** Index of the first candidate whose open does not raise; None when every one of them raises. */
  function FirstOpenable(cands: seq<string>, refused: set<string>): (r: Option<nat>)
    ensures r.Some? ==> r.value < |cands| && cands[r.value] !in refused
    ensures r.Some? ==> forall j :: 0 <= j < r.value ==> cands[j] in refused
    ensures r.None? ==> forall j :: 0 <= j < |cands| ==> cands[j] in refused
  {
    if cands == [] then None
    else if cands[0] !in refused then Some(0)
    else match FirstOpenable(cands[1..], refused)
      case None => None
      case Some(i) => Some(i + 1)
  }

  /** The first candidate that is not refused is the one `FirstOpenable` finds. */
  lemma {:induction false} FirstOpenableIs(cands: seq<string>, refused: set<string>, k: nat)
    requires k < |cands| && cands[k] !in refused
    requires forall j :: 0 <= j < k ==> cands[j] in refused
    ensures FirstOpenable(cands, refused) == Some(k)
  {
    if k > 0 {
      assert cands[0] in refused;
      assert cands[1..][k - 1] == cands[k];
      FirstOpenableIs(cands[1..], refused, k - 1);
    }
  }

  /**
   * The loop of `start_connection`: tries each candidate in order and
   * stops at the first whose open does not raise.
   */
  method TryPorts(cands: seq<string>, refused: set<string>) returns (found: Option<nat>)
    ensures found == FirstOpenable(cands, refused)
  {
    var k := 0;
    while k < |cands|
      invariant 0 <= k <= |cands|
      invariant forall j :: 0 <= j < k ==> cands[j] in refused
    {
      if cands[k] !in refused {
        FirstOpenableIs(cands, refused, k);
        return Some(k);
      }
      k := k + 1;
    }
    return None;
  }

  /** What one read attempt observes: nothing waiting, a line, or a `SerialException`. */
  datatype Inbound = Quiet | Arrived(line: RawLine) | PortError

  /** The observation of poll `i`; once the trace is exhausted nothing more arrives. */
  function PollAt(trace: seq<Inbound>, i: nat): Inbound {
    if i < |trace| then trace[i] else Quiet
  }

  /**
   * How `check_connection` ends: it returns a boolean, or the
   * `UnicodeDecodeError` of an undecodable line escapes it (only
   * `SerialException` is caught there).
   */
  datatype CheckResult = Returned(alive: bool) | DecodeErrorRaised

  /** The heartbeat wait from poll `i` on, with `window` polls in all before giving up. */
  function AwaitAlive(trace: seq<Inbound>, i: nat, window: nat): CheckResult
    decreases window - i
  {
    if i >= window then Returned(false)
    else match PollAt(trace, i)
      case Quiet => AwaitAlive(trace, i + 1, window)
      case PortError => Returned(false)
      case Arrived(Undecodable) => DecodeErrorRaised
      case Arrived(Text(s)) =>
        if Strip(s) == HeartbeatReply then Returned(true) else AwaitAlive(trace, i + 1, window)
  }

  /** A poll that lets the heartbeat wait go on: nothing waiting, or a decodable line other than ALIVE. */
  predicate Passes(p: Inbound) {
    p.Quiet? || (p.Arrived? && p.line.Text? && !LineIs(p.line, HeartbeatReply))
  }

  /** A poll that ends the heartbeat wait with success: a line equal to ALIVE after strip. */
  predicate IsAliveLine(p: Inbound) {
    p.Arrived? && LineIs(p.line, HeartbeatReply)
  }

  /** Success means an ALIVE line arrived within the window, and every earlier poll let the wait go on. */
  lemma {:induction false} AwaitAliveSound(trace: seq<Inbound>, i: nat, window: nat) returns (k: nat)
    requires AwaitAlive(trace, i, window) == Returned(true)
    ensures i <= k < window && IsAliveLine(PollAt(trace, k))
    ensures forall j :: i <= j < k ==> Passes(PollAt(trace, j))
    decreases window - i
  {
    if IsAliveLine(PollAt(trace, i)) {
      k := i;
    } else {
      k := AwaitAliveSound(trace, i + 1, window);
    }
  }

  /** Conversely, an ALIVE line within the window after polls that let the wait go on means success. */
  lemma {:induction false} AwaitAliveComplete(trace: seq<Inbound>, i: nat, k: nat, window: nat)
    requires i <= k < window && IsAliveLine(PollAt(trace, k))
    requires forall j :: i <= j < k ==> Passes(PollAt(trace, j))
    ensures AwaitAlive(trace, i, window) == Returned(true)
    decreases k - i
  {
    if i < k {
      var p := PollAt(trace, i);
      assert Passes(p);
      assert AwaitAlive(trace, i, window) == AwaitAlive(trace, i + 1, window);
      AwaitAliveComplete(trace, i + 1, k, window);
    }
  }

  /** Polls past the end of the trace are quiet, so a window longer than the trace cannot invent an ALIVE. */
  lemma {:induction false} AwaitAliveNeedsLine(trace: seq<Inbound>, i: nat, window: nat)
    requires |trace| <= i
    ensures AwaitAlive(trace, i, window) == Returned(false)
    decreases window - i
  {
    if i < window {
      AwaitAliveNeedsLine(trace, i + 1, window);
    }
  }

  /** An inbound line is accepted when some valid command occurs in it. */
  predicate IsValidCommand(data: string) {
    exists c :: c in ValidCommands && Contains(data, c)
  }

  /** What `read_serial_data` returns for one poll of an open handle. */
  function Received(poll: Inbound): Option<string> {
    match poll
    case Arrived(Text(s)) => if IsValidCommand(Strip(s)) then Some(Strip(s)) else None
    case _ => None
  }

  /** Only a decodable line is ever returned, stripped and unchanged otherwise, and exactly when it is valid. */
  lemma ReceivedSpec(poll: Inbound)
    ensures Received(poll).Some? <==> poll.Arrived? && poll.line.Text? && IsValidCommand(Strip(poll.line.s))
    ensures Received(poll).Some? ==> Received(poll).value == Strip(poll.line.s)
  {
  }

  /** An accepted line is never empty, so the reader's truthiness test always dispatches it. */
  lemma ValidCommandNonEmpty(data: string)
    requires IsValidCommand(data)
    ensures |data| >= 3
  {
    var c :| c in ValidCommands && Contains(data, c);
  }

  /** The substring rule: VOL_UP and VOL_DOWN pass through VOL, as does any line embedding a command. */
  lemma ValidationAccepts()
    ensures IsValidCommand("PLAY") && IsValidCommand("VOL_UP") && IsValidCommand("VOL_DOWN")
    ensures IsValidCommand("XMUTEX")
  {
    assert OccursAt("PLAY", "PLAY", 0) && Contains("PLAY", ValidCommands[0]);
    assert OccursAt("VOL_UP", "VOL", 0) && Contains("VOL_UP", ValidCommands[4]);
    assert OccursAt("VOL_DOWN", "VOL", 0) && Contains("VOL_DOWN", ValidCommands[4]);
    assert OccursAt("XMUTEX", "MUTE", 1) && Contains("XMUTEX", ValidCommands[3]);
  }

  /** FOO, the heartbeat reply ALIVE and the empty line contain no command and are dropped. */
  lemma ValidationRejects()
    ensures !IsValidCommand("FOO") && !IsValidCommand("ALIVE") && !IsValidCommand("")
  {
    NoCommandStart("FOO");
    NoCommandStart("ALIVE");
    NoCommandStart("");
  }

  /** A line in which no command's first letter stands where that command could start contains no command. */
  lemma NoCommandStart(data: string)
    requires forall i :: 0 <= i < |data| ==> data[i] !in {'P', 'S', 'M'}
    requires forall i :: 0 <= i <= |data| - 3 ==> data[i] != 'V'
    ensures !IsValidCommand(data)
  {
    forall c | c in ValidCommands
      ensures !Contains(data, c)
    {
      FirstLetterAbsent(data, c);
    }
  }

  /** A string cannot contain `c` if `c`'s first letter stands nowhere `c` could start. */
  lemma FirstLetterAbsent(data: string, c: string)
    requires |c| > 0
    requires forall i :: 0 <= i <= |data| - |c| ==> data[i] != c[0]
    ensures !Contains(data, c)
  {
    forall i | 0 <= i <= |data| - |c|
      ensures !OccursAt(data, c, i)
    {
      assert data[i..i + |c|][0] == data[i];
    }
  }

  /** The serial link: the open handle, the port it is on, and the `connected` flag. */
  class SerialConnection {
    var comPort: Option<string>
    var ser: Option<Handle>
    var connected: bool
    /** Every write made on the handle, in order. */
    var written: seq<string>
    /** Every port an open was attempted on, in order. */
    ghost var openAttempts: seq<string>

    /** While connected the handle is open and on the recorded port. */
    ghost predicate Valid()
      reads this
    {
      connected ==> IsOpen(ser) && comPort == Some(ser.value.port)
    }

    constructor ()
      ensures Valid()
      ensures comPort == None && ser == None && !connected
      ensures written == [] && openAttempts == []
    {
      comPort := None;
      ser := None;
      connected := false;
      written := [];
      openAttempts := [];
    }

    /**
     * Closes any open handle, then tries the candidate ports in order and
     * keeps the first that opens; later candidates are never tried.
     */
    method StartConnection(ports: seq<PortInfo>, refused: set<string>) returns (ok: bool)
      requires Valid()
      modifies this
      ensures Valid() && written == old(written)
      ensures ok == FirstOpenable(FindEsp32Ports(ports), refused).Some?
      ensures ok ==> var cands, i := FindEsp32Ports(ports), FirstOpenable(FindEsp32Ports(ports), refused).value;
        connected && comPort == Some(cands[i]) && ser == Some(Handle(cands[i], true))
        && openAttempts == old(openAttempts) + cands[..i + 1]
      ensures !ok ==>
        !connected && comPort == old(comPort) && ser == Closed(old(ser))
        && openAttempts == old(openAttempts) + FindEsp32Ports(ports)
    {
      if IsOpen(ser) {
        ser := Closed(ser);
      }
      var cands := FindEsp32Ports(ports);
      if cands == [] {
        connected := false;
        return false;
      }
      var found := TryPorts(cands, refused);
      if found.None? {
        openAttempts := openAttempts + cands;
        connected := false;
        return false;
      }
      var port := cands[found.value];
      openAttempts := openAttempts + cands[..found.value + 1];
      ser := Some(Handle(port, true));
      comPort := Some(port);
      connected := true;
      return true;
    }

    /**
     * The heartbeat: without an open handle it fails at once and writes
     * nothing; otherwise it writes PING (a failing write returns false)
     * and waits up to `window` polls for ALIVE. It never touches `connected`.
     */
    method CheckConnection(writeFails: bool, trace: seq<Inbound>, window: nat) returns (r: CheckResult)
      requires Valid()
      modifies this`written
      ensures Valid()
      ensures !IsOpen(ser) ==> r == Returned(false) && written == old(written)
      ensures IsOpen(ser) && writeFails ==> r == Returned(false) && written == old(written)
      ensures IsOpen(ser) && !writeFails ==>
        r == AwaitAlive(trace, 0, window) && written == old(written) + [HeartbeatPing]
    {
      if !IsOpen(ser) {
        return Returned(false);
      }
      if writeFails {
        return Returned(false);
      }
      written := written + [HeartbeatPing];
      var i := 0;
      while i < window
        invariant AwaitAlive(trace, i, window) == AwaitAlive(trace, 0, window)
        decreases window - i
      {
        match PollAt(trace, i) {
          case Quiet =>
          case PortError =>
            return Returned(false);
          case Arrived(Undecodable) =>
            return DecodeErrorRaised;
          case Arrived(Text(s)) =>
            if Strip(s) == HeartbeatReply {
              return Returned(true);
            }
        }
        i := i + 1;
      }
      return Returned(false);
    }

    /**
     * One read: nothing without an open handle; a port error drops the
     * link; an undecodable line is dropped and leaves the link alone; a
     * decoded line is returned stripped when it is valid.
     */
    method ReadSerialData(poll: Inbound) returns (r: Option<string>)
      requires Valid()
      modifies this`connected
      ensures Valid()
      ensures r == (if IsOpen(ser) then Received(poll) else None)
      ensures connected == (old(connected) && !(IsOpen(ser) && poll.PortError?))
    {
      if !IsOpen(ser) {
        return None;
      }
      match poll
      case Quiet =>
        r := None;
      case PortError =>
        connected := false;
        r := None;
      case Arrived(Undecodable) =>
        r := None;
      case Arrived(Text(s)) =>
        r := ValidateLine(Strip(s));
    }
  }

  /** The validation loop: the line is returned unchanged when some valid command occurs in it. */
  method ValidateLine(data: string) returns (r: Option<string>)
    ensures r.Some? <==> IsValidCommand(data)
    ensures r.Some? ==> r.value == data
  {
    var k := 0;
    while k < |ValidCommands|
      invariant 0 <= k <= |ValidCommands|
      invariant forall j :: 0 <= j < k ==> !Contains(data, ValidCommands[j])
    {
      if Contains(data, ValidCommands[k]) {
        return Some(data);
      }
      k := k + 1;
    }
    return None;
  }
}
