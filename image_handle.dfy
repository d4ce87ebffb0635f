/**
 * The image transfer to the display: a 4-byte little-endian length, a
 * wait for the line "A", the whole payload in one write, a wait for the
 * line "D", then close. The serial port is a trace of the lines it
 * delivers; the function's effect is the sequence of events on the port.
 * Both waits loop until their line comes, so a trace that runs out first
 * leaves the transfer stalled in that wait.
 */
module ImageHandle {
  import opened Wrappers
  import opened Wire
  import opened Text

  const AckLine := "A"
  const DoneLine := "D"
  /** `struct.pack("<I", n)` needs n below this. */
  const U32Limit := 0x1_0000_0000

  function Pow256(k: nat): (r: nat)
    ensures r > 0
  {
    if k == 0 then 1 else 256 * Pow256(k - 1)
  }

  /** The `width` low-order bytes of `n`, least significant first. */
  function EncodeLE(n: nat, width: nat): (r: seq<Byte>)
    ensures |r| == width
  {
    if width == 0 then [] else [n % 256] + EncodeLE(n / 256, width - 1)
  }

  /** The number whose little-endian bytes are `b`. */
  function DecodeLE(b: seq<Byte>): (n: nat)
    ensures n < Pow256(|b|)
  {
    if b == [] then 0
    else
      var rest := DecodeLE(b[1..]);
      assert rest <= Pow256(|b| - 1) - 1;
      assert 256 * rest <= 256 * Pow256(|b| - 1) - 256;
      b[0] + 256 * rest
  }

  /** Decoding the encoding gives the number back, whenever it fits the width. */
  lemma {:induction false} DecodeEncode(n: nat, width: nat)
    requires n < Pow256(width)
    ensures DecodeLE(EncodeLE(n, width)) == n
  {
    if width > 0 {
      DivBelowPow(n, width);
      DecodeEncode(n / 256, width - 1);
      var e := EncodeLE(n, width);
      assert e[1..] == EncodeLE(n / 256, width - 1);
    }
  }

  lemma DivBelowPow(n: nat, width: nat)
    requires width > 0 && n < Pow256(width)
    ensures n / 256 < Pow256(width - 1)
  {
  }

  /** Encoding the decoded number gives the bytes back. */
  lemma {:induction false} EncodeDecode(b: seq<Byte>)
    ensures EncodeLE(DecodeLE(b), |b|) == b
  {
    if b != [] {
      var x := DecodeLE(b[1..]);
      assert DecodeLE(b) == b[0] + 256 * x;
      assert (b[0] + 256 * x) % 256 == b[0];
      assert (b[0] + 256 * x) / 256 == x;
      EncodeDecode(b[1..]);
    }
  }

  /** `struct.pack("<I", n)`: four bytes when n fits in 32 bits, an error otherwise. */
  function PackU32(n: nat): (r: Option<seq<Byte>>)
    ensures r.Some? <==> n < U32Limit
    ensures r.Some? ==> |r.value| == 4 && DecodeLE(r.value) == n
  {
    if n < U32Limit then
      DecodeEncode(n, 4);
      Some(EncodeLE(n, 4))
    else None
  }

  /** What happens on the port, in order. */
  datatype Event = Write(bytes: seq<Byte>) | ReadLine(line: RawLine) | Close

  /**
   * How the transfer ends: the port does not open, the size does not
   * fit the prefix (both raise), the input runs out in the first or in
   * the second wait, or the done line is read and the port closed.
   */
  datatype Outcome = OpenFailed | SizeError | StalledAwaitingAck | StalledAwaitingDone | Completed

  /** Index of the first line equal to `token` after decode and strip; None when there is none. */
  function FirstMatch(lines: seq<RawLine>, token: string): (r: Option<nat>)
    ensures r.Some? ==> r.value < |lines| && LineIs(lines[r.value], token)
    ensures r.Some? ==> forall j :: 0 <= j < r.value ==> !LineIs(lines[j], token)
    ensures r.None? ==> forall j :: 0 <= j < |lines| ==> !LineIs(lines[j], token)
  {
    if lines == [] then None
    else if LineIs(lines[0], token) then Some(0)
    else match FirstMatch(lines[1..], token)
      case None => None
      case Some(i) => Some(i + 1)
  }

  /** Reading each of `lines` in turn. */
  function Reads(lines: seq<RawLine>): (r: seq<Event>)
    ensures |r| == |lines| && forall i :: 0 <= i < |lines| ==> r[i] == ReadLine(lines[i])
  {
    seq(|lines|, i requires 0 <= i < |lines| => ReadLine(lines[i]))
  }

  /** The size prefix written first. */
  function SizePrefix(image: seq<Byte>): seq<Byte> {
    EncodeLE(|image|, 4)
  }

  /** The events and outcome of one transfer of `image` while the port delivers `lines`. */
  function Transfer(image: seq<Byte>, lines: seq<RawLine>, portOpens: bool): (seq<Event>, Outcome) {
    if !portOpens then ([], OpenFailed)
    else if |image| >= U32Limit then ([], SizeError)
    else match FirstMatch(lines, AckLine)
      case None => ([Write(SizePrefix(image))] + Reads(lines), StalledAwaitingAck)
      case Some(i) =>
        var done := AwaitDone(lines[i + 1..]);
        ([Write(SizePrefix(image))] + Reads(lines[..i + 1]) + [Write(image)] + done.0, done.1)
  }

  /** The events and outcome once the payload is written and `rest` is still to come. */
  function AwaitDone(rest: seq<RawLine>): (seq<Event>, Outcome) {
    match FirstMatch(rest, DoneLine)
    case None => (Reads(rest), StalledAwaitingDone)
    case Some(j) => (Reads(rest[..j + 1]) + [Close], Completed)
  }

  /**
   * Reads lines from `from` on until one equals `token` after decode and
   * strip; undecodable and other lines are skipped. `next` is the position
   * after the last line read.
   */
  method AwaitLine(lines: seq<RawLine>, from: nat, token: string) returns (next: nat, found: bool)
    requires from <= |lines|
    ensures from <= next <= |lines|
    ensures found <==> FirstMatch(lines[from..], token).Some?
    ensures found ==> next == from + FirstMatch(lines[from..], token).value + 1
    ensures !found ==> next == |lines|
  {
    next := from;
    found := false;
    while next < |lines| && !found
      invariant from <= next <= |lines|
      invariant found ==> next > from && FirstMatch(lines[from..], token) == Some(next - 1 - from)
      invariant !found ==> forall j :: from <= j < next ==> !LineIs(lines[j], token)
    {
      var line := lines[next];
      next := next + 1;
      if line.Text? && Strip(line.s) == token {
        found := true;
      }
    }
    if !found {
      assert forall j :: 0 <= j < |lines[from..]| ==> !LineIs(lines[from..][j], token);
    }
  }

  /** Sends `image`: size prefix, wait for "A", payload, wait for "D", close. */
  method SendImageToEsp32(image: seq<Byte>, lines: seq<RawLine>, portOpens: bool)
    returns (trace: seq<Event>, outcome: Outcome)
    ensures (trace, outcome) == Transfer(image, lines, portOpens)
  {
    if !portOpens {
      return [], OpenFailed;
    }
    var size := PackU32(|image|);
    if size.None? {
      return [], SizeError;
    }
    assert size.value == SizePrefix(image);
    trace := [Write(size.value)];

    var acked, ack := AwaitLine(lines, 0, AckLine);
    assert lines[0..] == lines;
    trace := trace + Reads(lines[..acked]);
    if !ack {
      assert lines[..acked] == lines;
      return trace, StalledAwaitingAck;
    }
    ghost var i := acked - 1;
    assert FirstMatch(lines, AckLine) == Some(i) && lines[i + 1..] == lines[acked..];

    trace := trace + [Write(image)];
    var tail;
    tail, outcome := AwaitDoneThenClose(lines, acked);
    trace := trace + tail;
  }

  /** After the payload: waits for "D" from `from` on, then closes the port. */
  method AwaitDoneThenClose(lines: seq<RawLine>, from: nat) returns (tail: seq<Event>, outcome: Outcome)
    requires from <= |lines|
    ensures (tail, outcome) == AwaitDone(lines[from..])
  {
    var finished, done := AwaitLine(lines, from, DoneLine);
    tail := Reads(lines[from..finished]);
    if !done {
      assert lines[from..finished] == lines[from..];
      return tail, StalledAwaitingDone;
    }
    ghost var j := finished - from - 1;
    assert lines[from..finished] == lines[from..][..j + 1];
    tail := tail + [Close];
    return tail, Completed;
  }

  /** The bytes written, in order. */
  function Writes(trace: seq<Event>): seq<seq<Byte>> {
    if trace == [] then []
    else (if trace[0].Write? then [trace[0].bytes] else []) + Writes(trace[1..])
  }

  lemma {:induction false} WritesAppend(a: seq<Event>, b: seq<Event>)
    ensures Writes(a + b) == Writes(a) + Writes(b)
  {
    if a == [] {
      assert a + b == b;
    } else {
      assert (a + b)[1..] == a[1..] + b;
      WritesAppend(a[1..], b);
    }
  }

  lemma {:induction false} WritesOfReads(lines: seq<RawLine>)
    ensures Writes(Reads(lines)) == []
  {
    if lines != [] {
      assert Reads(lines)[1..] == Reads(lines[1..]);
      WritesOfReads(lines[1..]);
    }
  }

  /** After the payload nothing more is written. */
  lemma AwaitDoneWrites(rest: seq<RawLine>)
    ensures Writes(AwaitDone(rest).0) == []
  {
    match FirstMatch(rest, DoneLine)
    case None =>
      WritesOfReads(rest);
    case Some(j) =>
      WritesAppend(Reads(rest[..j + 1]), [Close]);
      WritesOfReads(rest[..j + 1]);
      assert Writes([Close]) == [];
  }

  /**
   * The writes are exactly: nothing when the port does not open or the
   * size does not fit; the prefix alone while waiting for "A"; otherwise
   * the prefix followed by the whole payload in one write.
   */
  lemma TransferWrites(image: seq<Byte>, lines: seq<RawLine>, portOpens: bool)
    ensures Transfer(image, lines, portOpens).1 in {OpenFailed, SizeError} ==>
      Writes(Transfer(image, lines, portOpens).0) == []
    ensures Transfer(image, lines, portOpens).1 == StalledAwaitingAck ==>
      Writes(Transfer(image, lines, portOpens).0) == [SizePrefix(image)]
    ensures Transfer(image, lines, portOpens).1 in {StalledAwaitingDone, Completed} ==>
      Writes(Transfer(image, lines, portOpens).0) == [SizePrefix(image), image]
  {
    if portOpens && |image| < U32Limit {
      var head := [Write(SizePrefix(image))];
      assert Writes(head) == [SizePrefix(image)];
      match FirstMatch(lines, AckLine)
      case None =>
        WritesAppend(head, Reads(lines));
        WritesOfReads(lines);
      case Some(i) =>
        var r1 := Reads(lines[..i + 1]);
        var done := AwaitDone(lines[i + 1..]);
        WritesAppend(head, r1);
        WritesOfReads(lines[..i + 1]);
        WritesAppend(head + r1, [Write(image)]);
        assert Writes([Write(image)]) == [image];
        WritesAppend(head + r1 + [Write(image)], done.0);
        AwaitDoneWrites(lines[i + 1..]);
    }
  }

  /** The payload is sent exactly when the port opens, the size fits, and some line equals "A". */
  lemma PayloadNeedsAck(image: seq<Byte>, lines: seq<RawLine>, portOpens: bool)
    ensures Transfer(image, lines, portOpens).1 in {StalledAwaitingDone, Completed} <==>
      portOpens && |image| < U32Limit && exists i :: 0 <= i < |lines| && LineIs(lines[i], AckLine)
  {
    if portOpens && |image| < U32Limit && FirstMatch(lines, AckLine).None? {
      assert forall i :: 0 <= i < |lines| ==> !LineIs(lines[i], AckLine);
    }
  }

  /** The transfer completes exactly when some "A" line is followed, later, by some "D" line. */
  lemma CompletedIff(image: seq<Byte>, lines: seq<RawLine>, portOpens: bool)
    ensures Transfer(image, lines, portOpens).1 == Completed <==>
      portOpens && |image| < U32Limit
      && exists i, j :: 0 <= i < j < |lines| && LineIs(lines[i], AckLine) && LineIs(lines[j], DoneLine)
  {
    if portOpens && |image| < U32Limit {
      match FirstMatch(lines, AckLine)
      case None =>
      case Some(a) =>
        var rest := lines[a + 1..];
        match FirstMatch(rest, DoneLine)
        case Some(d) =>
          assert LineIs(lines[a + 1 + d], DoneLine);
        case None =>
          forall i, j | 0 <= i < j < |lines| && LineIs(lines[i], AckLine)
            ensures !LineIs(lines[j], DoneLine)
          {
            assert rest[j - a - 1] == lines[j];
          }
    }
  }

  /** After the payload: only reads, and a close only as the last event, straight after a "D" line. */
  lemma AwaitDoneOrder(rest: seq<RawLine>)
    ensures forall k :: 0 <= k < |AwaitDone(rest).0| ==> !AwaitDone(rest).0[k].Write?
    ensures forall k :: 0 <= k < |AwaitDone(rest).0| && AwaitDone(rest).0[k].Close? ==>
      k == |AwaitDone(rest).0| - 1 && k >= 1
      && AwaitDone(rest).0[k - 1].ReadLine? && LineIs(AwaitDone(rest).0[k - 1].line, DoneLine)
  {
  }

  /** The trace of a transfer that got past the acknowledgment, cut at the payload write. */
  lemma TransferSplit(image: seq<Byte>, lines: seq<RawLine>, i: nat)
    requires |image| < U32Limit && FirstMatch(lines, AckLine) == Some(i)
    ensures |Reads(lines[..i + 1])| == i + 1
    ensures Transfer(image, lines, true).0 ==
      [Write(SizePrefix(image))] + Reads(lines[..i + 1]) + [Write(image)] + AwaitDone(lines[i + 1..]).0
  {
    var done := AwaitDone(lines[i + 1..]);
    assert Transfer(image, lines, true) ==
      ([Write(SizePrefix(image))] + Reads(lines[..i + 1]) + [Write(image)] + done.0, done.1);
  }

  /** The size prefix is the first event of any transfer that does anything. */
  lemma TransferStartsWithPrefix(image: seq<Byte>, lines: seq<RawLine>, portOpens: bool)
    ensures Transfer(image, lines, portOpens).0 != [] ==>
      Transfer(image, lines, portOpens).0[0] == Write(SizePrefix(image))
  {
  }

  /** Every write after the first is the payload, straight after reading an "A" line. */
  lemma TransferWritesAfterAck(image: seq<Byte>, lines: seq<RawLine>, portOpens: bool, k: nat)
    requires 0 < k < |Transfer(image, lines, portOpens).0|
    ensures Transfer(image, lines, portOpens).0[k].Write? ==>
      Transfer(image, lines, portOpens).0[k] == Write(image)
      && Transfer(image, lines, portOpens).0[k - 1].ReadLine?
      && LineIs(Transfer(image, lines, portOpens).0[k - 1].line, AckLine)
  {
    var trace := Transfer(image, lines, portOpens).0;
    if portOpens && |image| < U32Limit {
      match FirstMatch(lines, AckLine)
      case None =>
        assert trace[k] == Reads(lines)[k - 1];
      case Some(i) =>
        TransferSplit(image, lines, i);
        var done := AwaitDone(lines[i + 1..]).0;
        if k < i + 2 {
          assert trace[k] == Reads(lines[..i + 1])[k - 1];
        } else if k > i + 2 {
          AwaitDoneOrder(lines[i + 1..]);
          assert trace[k] == done[k - i - 3];
        }
    }
  }

  /**
   * A close is the last event, comes straight after reading a "D" line,
   * and by then both the prefix and the payload are written.
   */
  lemma TransferCloseAfterDone(image: seq<Byte>, lines: seq<RawLine>, portOpens: bool, k: nat)
    requires k < |Transfer(image, lines, portOpens).0|
    ensures Transfer(image, lines, portOpens).0[k].Close? ==>
      k == |Transfer(image, lines, portOpens).0| - 1 && k >= 3
      && Transfer(image, lines, portOpens).0[k - 1].ReadLine?
      && LineIs(Transfer(image, lines, portOpens).0[k - 1].line, DoneLine)
      && Writes(Transfer(image, lines, portOpens).0) == [SizePrefix(image), image]
  {
    var trace := Transfer(image, lines, portOpens).0;
    if portOpens && |image| < U32Limit && k > 0 {
      match FirstMatch(lines, AckLine)
      case None =>
        assert trace[k] == Reads(lines)[k - 1];
      case Some(i) =>
        TransferSplit(image, lines, i);
        var done := AwaitDone(lines[i + 1..]).0;
        if k < i + 3 {
          if k < i + 2 {
            assert trace[k] == Reads(lines[..i + 1])[k - 1];
          }
        } else {
          TailCloseAfterDone(image, lines, i, k);
        }
    }
  }

  /** `TransferCloseAfterDone` for an index past the payload write. */
  lemma TailCloseAfterDone(image: seq<Byte>, lines: seq<RawLine>, i: nat, k: nat)
    requires |image| < U32Limit && FirstMatch(lines, AckLine) == Some(i)
    requires i + 3 <= k < |Transfer(image, lines, true).0|
    ensures Transfer(image, lines, true).0[k].Close? ==>
      k == |Transfer(image, lines, true).0| - 1
      && Transfer(image, lines, true).0[k - 1].ReadLine?
      && LineIs(Transfer(image, lines, true).0[k - 1].line, DoneLine)
      && Writes(Transfer(image, lines, true).0) == [SizePrefix(image), image]
  {
    var trace := Transfer(image, lines, true).0;
    var done := AwaitDone(lines[i + 1..]).0;
    TransferSplit(image, lines, i);
    AwaitDoneOrder(lines[i + 1..]);
    assert trace[k] == done[k - i - 3];
    if trace[k].Close? {
      assert trace[k - 1] == done[k - i - 4];
      TransferWrites(image, lines, true);
    }
  }

  /** The acknowledgment is matched by equality, not containment: a line "ACK" is not an "A" and stalls the transfer. */
  lemma AckIsExact(image: seq<Byte>)
    requires |image| < U32Limit
    ensures Transfer(image, [Text("ACK\n"), Undecodable, Text("D\n")], true).1 == StalledAwaitingAck
  {
    assert "ACK" + "\n" == "ACK\n" && "D" + "\n" == "D\n";
    StripLine("ACK", "\n");
    StripLine("D", "\n");
    var l1 := [Text("ACK\n"), Undecodable, Text("D\n")];
    assert forall i :: 0 <= i < |l1| ==> !LineIs(l1[i], AckLine);
    PayloadNeedsAck(image, l1, true);
  }

  /** Surrounding whitespace is stripped before the comparison, so " A\r\n" acknowledges. */
  lemma AckMayBePadded(image: seq<Byte>)
    requires |image| < U32Limit
    ensures Transfer(image, [Text("ACK\n"), Undecodable, Text(" A\r\n"), Text("D\n")], true).1 == Completed
  {
    assert "D" + "\n" == "D\n";
    StripLine("D", "\n");
    assert TrimStart(" A\r\n") == "A\r\n";
    assert "A" + "\r\n" == "A\r\n";
    TrimEndSuffix("A", "\r\n");
    var l2 := [Text("ACK\n"), Undecodable, Text(" A\r\n"), Text("D\n")];
    assert LineIs(l2[2], AckLine) && LineIs(l2[3], DoneLine);
    CompletedIff(image, l2, true);
  }

  /** The separators U+001C..U+001F are whitespace to `strip()`: "A" followed by U+001F acknowledges. */
  lemma AckWithSeparator(image: seq<Byte>)
    requires |image| < U32Limit
    ensures Transfer(image, [Text("A\U{001F}\n"), Text("D\n")], true).1 == Completed
  {
    assert "A" + "\U{001F}\n" == "A\U{001F}\n" && "D" + "\n" == "D\n";
    StripLine("A", "\U{001F}\n");
    StripLine("D", "\n");
    var l := [Text("A\U{001F}\n"), Text("D\n")];
    assert LineIs(l[0], AckLine) && LineIs(l[1], DoneLine);
    CompletedIff(image, l, true);
  }
}
