# ESP32 media bridge — a Dafny model

The bridge runs on a desktop. It watches the operating system's
now-playing media session and drives a small ESP32 display over a serial
line. It also turns command lines sent back by the device (play/pause,
skip, mute, volume) into media-key presses. This project models the
device side of the bridge and proves properties of that model:

- the serial link manager (`SerialConnection` in `pyserial.py`): port
  discovery, connect, the PING/ALIVE heartbeat and the validated command
  reader;
- the bridge object (`Media` in `media_session_manager.py`): the
  now-playing watcher with its thumbnail, the command-to-key map, and one
  iteration each of the link supervisor (`serial_init`) and the command
  reader (`serial_reader`);
- the two other now-playing watchers: `_async_session_handler` in
  `media_session.py` (title, artist and a session flag), and
  `session_handler` / `load_thumbnail` in `get_media_info_class.py`;
- the image transfer `send_image_to_esp32` in `image_handle.py`. It
  sends a 4-byte little-endian length, waits for the line `A`, writes the
  payload, waits for the line `D`, then closes the port.

Hardware and the media service become inputs:

- the port enumeration is a `seq<PortInfo>`;
- the ports whose open raises `SerialException` are a set `refused`;
- what each read attempt observes is a trace of `Inbound` values
  (nothing waiting, a line, or a `SerialException`);
- a line is either decoded text, with its terminator, or `Undecodable`
  (its `.decode()` raises);
- each media-service poll is given as its result (`Poll`);
- the keyboard is a log of pressed keys;
- the image transfer's port is the list of lines it delivers, and its
  effect is the list of events on the port.

Modules:

| module | file | models |
|---|---|---|
| `Wrappers`, `Wire` | `wrappers.dfy`, `wire.dfy` | `Option`; bytes and raw lines |
| `Text` | `text.dfy` | Python's `str.strip()` and `in` on strings |
| `SerialLink` | `serial_link.dfy` | `pyserial.py` |
| `MediaPoll` | `media_poll.dfy` | one poll of the media-session service |
| `SessionManager` | `session_manager.dfy` | `media_session_manager.py` |
| `MediaSession` | `media_session.dfy` | `media_session.py` |
| `MediaInfo` | `media_info.dfy` | `get_media_info_class.py` |
| `ImageHandle` | `image_handle.dfy` | `image_handle.py` |

Behaviour of the code worth knowing:

- The acknowledgment and completion markers are matched by equality
  after `strip()`: the line must be exactly `A` (or `D`) once surrounding
  whitespace is removed. `ImageHandle.AckIsExact` shows that a line `ACK`
  does not acknowledge.
- Both waits in `send_image_to_esp32` loop until their line arrives.
  When the delivered lines run out first, the transfer stays in that wait
  (`StalledAwaitingAck`, `StalledAwaitingDone`).
- The image transfer opens its own port, `COM7`. It does not use the
  link that `SerialConnection` manages.
- `check_connection` catches only `SerialException`. An undecodable
  heartbeat reply raises `UnicodeDecodeError` out of it
  (`DecodeErrorRaised`). That error ends the `serial_init` loop
  (`crashed` in `SessionManager.Media.SerialInitStep`), and the link
  stays flagged connected.
- A valid inbound command is one in which a valid command occurs as a
  substring, so `VOL` admits `VOL_UP` and `VOL_DOWN`, and `MUTE` admits
  `XMUTEX`.
  Only the exact tokens of the command map press keys.

## Model

| member | source | states |
|---|---|---|
| SerialLink.FindEsp32Ports | pyserial.py:17-21 | discovery yields at most one device per enumerated port |
| SerialLink.FindEsp32PortsSound | pyserial.py:20 | every discovered device is the device of an enumerated port whose hardware id contains "USB" |
| SerialLink.FindEsp32PortsComplete | pyserial.py:20 | every enumerated port whose hardware id contains "USB" is discovered |
| SerialLink.FindEsp32PortsAppend | pyserial.py:20 | discovery distributes over concatenation, so candidates keep enumeration order |
| SerialLink.Closed | pyserial.py:25-26 | closing leaves no open handle and keeps the handle's port; an absent handle stays absent |
| SerialLink.FirstOpenable | pyserial.py:34-50 | the chosen candidate opens, and every earlier candidate raised; None only when every candidate raises |
| SerialLink.FirstOpenableIs | pyserial.py:34-50 | the first candidate that opens is exactly the one chosen |
| SerialLink.TryPorts | pyserial.py:34-50 | the try-each-port loop returns the first candidate whose open does not raise, or None |
| SerialLink.SerialConnection.constructor | pyserial.py:8-15 | starts with no port, no handle, not connected, nothing written |
| SerialLink.SerialConnection.StartConnection | pyserial.py:23-53 | closes any open handle, tries candidates in order until one opens, and succeeds exactly when one does. On success: connected, on that port, open, and no later candidate attempted. On failure: not connected, port unchanged, every candidate attempted |
| SerialLink.SerialConnection.CheckConnection | pyserial.py:55-81 | without an open handle, or when the write fails: false, with no write. Otherwise PING is written and the result is the heartbeat wait; `connected` is never touched |
| SerialLink.AwaitAlive | pyserial.py:68-77 | reference definition of the heartbeat wait: a quiet poll or a non-ALIVE line waits on, ALIVE returns true, a port error returns false, an undecodable line raises, the end of the window returns false |
| SerialLink.AwaitAliveSound | pyserial.py:68-77 | a successful heartbeat means an ALIVE line came within the window, and every earlier poll was quiet or a decodable non-ALIVE line |
| SerialLink.AwaitAliveComplete | pyserial.py:68-77 | conversely, such an ALIVE line within the window makes the heartbeat succeed |
| SerialLink.AwaitAliveNeedsLine | pyserial.py:69-77 | with no line left in the trace, the heartbeat fails however long the window |
| SerialLink.SerialConnection.ReadSerialData | pyserial.py:83-110 | no handle gives None. A port error drops the link and gives None. An undecodable line gives None and keeps the link. A decoded line is returned stripped exactly when it is valid |
| SerialLink.ValidateLine | pyserial.py:93-102 | the validation loop returns the line unchanged exactly when some valid command occurs in it |
| SerialLink.Received | pyserial.py:88-102 | reference definition of one read of an open handle: the stripped line when it decodes and is valid, None otherwise |
| SerialLink.ReceivedSpec | pyserial.py:88-102 | only decodable lines are returned, stripped, and exactly when valid |
| SerialLink.ValidCommandNonEmpty | pyserial.py:93-97 | an accepted line has at least three characters, so it is never falsy |
| SerialLink.ValidationAccepts | pyserial.py:13 | PLAY, VOL_UP, VOL_DOWN and XMUTEX are accepted through substring matching |
| SerialLink.ValidationRejects | pyserial.py:93-102 | FOO, ALIVE and the empty line are rejected |
| SerialLink.NoCommandStart | pyserial.py:93-97 | a line where no command's first letter stands at a possible start contains no command |
| Text.Strip | pyserial.py:90 | reference definition of `str.strip()`: drops leading, then trailing, characters for which `str.isspace()` holds |
| Text.Contains | pyserial.py:94 | reference definition of `sub in s`: `sub` occurs at some position of `s` |
| Text.StripSpec | pyserial.py:90 | `strip()` keeps a contiguous middle with no whitespace at either end and cuts only whitespace |
| Text.StripLine | pyserial.py:71 | stripping a trimmed text plus its line terminator gives back the text |
| SessionManager.CommandKey | media_session_manager.py:166-176 | reference definition of the command map: the key of each of the six tokens, None for any other |
| SessionManager.KeyPresses | media_session_manager.py:175-181 | reference definition of the presses of one command: five of the key for the volume tokens, one otherwise, none for unmapped tokens |
| SessionManager.Repeat | media_session_manager.py:178-179 | n presses of one key |
| SessionManager.KeyPressesTable | media_session_manager.py:165-181 | the command map: one press for PLAY, SKIP_NEXT, SKIP_PREV and MUTE; five presses for VOL_UP and VOL_DOWN; none for any other token |
| SessionManager.MappedTokensAccepted | media_session_manager.py:166-173 | every token of the command map passes the reader's validation |
| SessionManager.Step | media_session_manager.py:61-99 | reference definition of one watcher poll: the new title, thumbnail and flag, and whether a thumbnail load starts |
| SessionManager.StepSpec | media_session_manager.py:61-99 | no session clears title, thumbnail and flag. A failure clears only the title. A new title is stored, and a load starts exactly when a thumbnail is present; the thumbnail becomes the loaded image exactly when the load succeeds, and is kept otherwise. A repeated title changes nothing |
| SessionManager.StepKeepsFlagCoversTitle | media_session_manager.py:61-99 | every poll keeps "flag clear implies no stored title" |
| SessionManager.LoadsFrom | media_session_manager.py:23-29 | reference definition of the polls in a run of the session timer that start a thumbnail load |
| SessionManager.LoadsAtTitleChanges | media_session_manager.py:82-91 | over sessions with thumbnails, loads happen exactly at the polls whose title differs from the one before |
| SessionManager.LoadsIncreasing | media_session_manager.py:82-91 | load positions are strictly increasing and within the run |
| SessionManager.LoadsExample | media_session_manager.py:82-91 | titles A, A, B, B, B, A load at polls 0, 2 and 5 only |
| SessionManager.Media.constructor | media_session_manager.py:13-20 | no title, no thumbnail, flag clear, and a fresh unconnected link with no port, no handle, nothing written and no open attempted |
| SessionManager.Media.LoadThumbnail | media_session_manager.py:31-59 | true exactly when the thumbnail loads; it then becomes current, otherwise the current one is kept |
| SessionManager.Media.SessionHandler | media_session_manager.py:61-99 | one poll moves the state as `Step` says, counts one load exactly when `Step` starts one, and keeps the flag invariant |
| SessionManager.Media.HandleCommand | media_session_manager.py:165-181 | appends exactly the presses of the command map to the key log |
| SessionManager.Media.SerialInitStep | media_session_manager.py:147-155 | connected: nothing changes. Disconnected: connected afterwards exactly when a port opens, the ping is written and the heartbeat does not return false. The loop crashes exactly when the heartbeat raises the decode error |
| SessionManager.Media.SerialReaderStep | media_session_manager.py:157-163 | reads only while connected. A port error drops the link. Exactly the presses of the received command are added |
| MediaSession.Step | media_session.py:64-92 | reference definition of one handler call: the new title, artist and flag |
| MediaSession.Run | media_session.py:54-62 | reference definition of a run of handler calls, one poll after another |
| MediaSession.StepSpec | media_session.py:64-92 | no session with the flag set clears all three; with it clear changes nothing. A failure clears all three. A new title stores title and artist and sets the flag. A repeated title changes nothing |
| MediaSession.StepConsistent | media_session.py:64-92 | each poll keeps "flag set iff a title is stored iff an artist is stored" |
| MediaSession.RunConsistent | media_session.py:64-92 | that consistency holds after any run of polls |
| MediaSession.NoSessionIdempotent | media_session.py:70-76 | a second empty poll changes nothing |
| MediaSession.LastSessionTitle | media_session.py:81-84 | after a run ending in a session poll, that poll's title is stored and the flag is set |
| MediaSession.MediaWatcher.constructor | media_session.py:7-13 | no title, no artist, flag clear |
| MediaSession.MediaWatcher.AsyncSessionHandler | media_session.py:64-92 | one poll moves the fields as `Step` says and keeps them consistent |
| MediaInfo.Step | get_media_info_class.py:54-89 | reference definition of one watcher poll: the new title and thumbnail, and whether a thumbnail load starts |
| MediaInfo.LoadCount | get_media_info_class.py:16-22 | reference definition of the number of thumbnail loads over a run of polls |
| MediaInfo.StepSpec | get_media_info_class.py:54-89 | no session clears title and thumbnail. A failure clears the title. A repeated title changes nothing. A new title is stored, and a load starts exactly when a thumbnail is present |
| MediaInfo.LoadCountIsTitleChanges | get_media_info_class.py:72-85 | over sessions with thumbnails, the number of loads equals the number of title changes |
| MediaInfo.NoThumbnailNoLoad | get_media_info_class.py:80-85 | without thumbnails nothing is loaded, whatever the titles do |
| MediaInfo.Media.constructor | get_media_info_class.py:10-14 | no title and no thumbnail |
| MediaInfo.Media.LoadThumbnail | get_media_info_class.py:24-52 | true exactly when the thumbnail loads; it then becomes current, otherwise the current one is kept |
| MediaInfo.Media.SessionHandler | get_media_info_class.py:54-89 | one poll moves the fields as `Step` says and counts one load exactly when `Step` starts one |
| ImageHandle.EncodeLE | image_handle.py:25 | the encoding has exactly the requested width |
| ImageHandle.DecodeLE | image_handle.py:25 | a decoded value fits in as many bytes as were read |
| ImageHandle.DecodeEncode | image_handle.py:25 | decoding the little-endian encoding of a value that fits gives the value back |
| ImageHandle.EncodeDecode | image_handle.py:25 | encoding a decoded byte string gives the bytes back |
| ImageHandle.PackU32 | image_handle.py:24-25 | the size packs exactly when below 2^32, into four bytes that decode back to the size |
| ImageHandle.FirstMatch | image_handle.py:29-37 | the position found is a line equal to the marker after strip, with none before it; None when no line is |
| ImageHandle.AwaitLine | image_handle.py:29-37 | the wait loop stops just after the first line equal to the marker, or reads every line when none is |
| ImageHandle.AwaitDoneThenClose | image_handle.py:44-53 | after the payload, the wait for "D" and the close produce the events and outcome `AwaitDone` gives |
| ImageHandle.SendImageToEsp32 | image_handle.py:17-53 | the events on the port and the outcome are those of `Transfer` |
| ImageHandle.TransferWrites | image_handle.py:25-40 | nothing is written when the port does not open or the size does not fit. Only the prefix is written while waiting for "A". Otherwise the prefix and then the whole payload |
| ImageHandle.PayloadNeedsAck | image_handle.py:29-40 | the payload is written exactly when the port opens, the size fits and some line equals "A" |
| ImageHandle.CompletedIff | image_handle.py:29-53 | the transfer completes exactly when an "A" line is followed later by a "D" line |
| ImageHandle.TransferStartsWithPrefix | image_handle.py:24-25 | the size prefix is the first event of any transfer that does anything |
| ImageHandle.TransferWritesAfterAck | image_handle.py:29-40 | every later write is the payload, straight after reading an "A" line |
| ImageHandle.TransferCloseAfterDone | image_handle.py:44-53 | a close is the last event, straight after a "D" line, with both prefix and payload written |
| ImageHandle.AckIsExact | image_handle.py:31-32 | "ACK" does not acknowledge: the transfer stays stalled awaiting "A" |
| ImageHandle.AckMayBePadded | image_handle.py:31-32 | " A\r\n" acknowledges, because it is stripped before the comparison |
| ImageHandle.AckWithSeparator | image_handle.py:31-32 | "A" followed by the separator U+001F acknowledges, because `strip()` removes the separators U+001C..U+001F |
| ImageHandle.Transfer | image_handle.py:17-53 | reference definition of one transfer: no events when the port does not open or the size does not fit; else the prefix, the lines read up to the first "A" line (all of them when none), then the payload and `AwaitDone` |
| ImageHandle.AwaitDone | image_handle.py:44-53 | reference definition after the payload: the lines read up to the first "D" line and then a close, or all lines and a stall |

## Left out

- The Windows media-session service, its asynchronous calls and the stream reads of `load_thumbnail` are replaced by their results. A poll is a `Poll` value, and a thumbnail is its decoded image or `None` when loading raises.
- The image decoder, the card rendering (`thumbnail_to_jpg`, JPEG encoding) and `img.show()` are not part of this model. A picture is its bytes.
- Timing is left out: `asyncio.sleep`, the one-second and 0.1-second loop periods, the five-second heartbeat window (a number of polls here), the serial read timeout and the two-second settle in the image transfer.
- The endless loops of `session_timer_start`, `serial_init` and `serial_reader` are modelled one iteration at a time. The thread, the event loop and the stop event of `media_session.py` are left out, as is `main`.
- Concurrency between the watcher, the link supervisor, the command reader and the image transfer is not modelled. Each operation runs alone.
- The fixed baud rate 115200 and the port name `COM7` do not affect the modelled behaviour and are not represented.
- `setRTS`, `setDTR`, `reset_input_buffer`, the serial framing parameters and all logging and printing are not modelled.
- `volume_change_accept`, the volume potentiometer, the keyboard listener's `on_press` and the commented-out loops are not part of the core and are left out.
- The keyboard is a log of pressed keys. Press and release are one entry.
- SerialLink.SerialConnection.StartConnection: whether a port's open raises is fixed per port name for one call, and opening is otherwise side-effect free.
- The two wait loops of `send_image_to_esp32` are modelled by one method, `ImageHandle.AwaitLine`, used for both.
- A bare `except: pass` around each wait in `send_image_to_esp32` is modelled by skipping undecodable lines. A `SerialException` inside the waits is not modelled, since the trace delivers lines only.
- An exception from `serial.Serial(...)` in `send_image_to_esp32` is modelled as the `OpenFailed` outcome with no events. In the code it propagates to the caller.
- SessionManager.Media.SessionHandler: a failure is modelled only where it raises before line 81 of `media_session_manager.py`, in the session request or the property query. A raise after line 81 is not modelled: one while reading the properties, or a `UnicodeEncodeError` from the print at line 87. In the code it would leave the session flag set and the title None.
- ImageHandle.SendImageToEsp32: every write succeeds in the model. In the code a `SerialException` from the prefix write (line 25) or the payload write (line 40) propagates out of `send_image_to_esp32` and leaves the port open. The model has no outcome for this.
- ImageHandle.Transfer: for the same reason, the reference definition has no outcome for a failing prefix or payload write.
- MediaInfo.Media.LoadThumbnail: the model does not capture a load that stores the image and then fails. In `get_media_info_class.py` the image is stored at line 43 before `img.show()` at line 44. When `show()` raises (for example on a stream cut off by the 5,000,000-byte buffer), the method returns False with the new thumbnail already stored. In the model a failed load always keeps the old thumbnail.
