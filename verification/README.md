# Guitar Hero Live controller driver — Dafny model

This project models the core of `GuitarHeroHIDDriver`, the macOS IOKit driver
for a Guitar Hero Live guitar controller. The driver watches for a HID gamepad
and tracks whether one is connected. It gathers the controller's input
reports into frames of 27 bytes and publishes two values from each frame:

- the button bitmask, taken from byte 0;
- the strum-bar position, which is byte 4 read as a signed byte.

The driver is modelled as an immutable state record
`State(isConnected, buttonState, axisState, inputBuffer)`. The three IOKit
callbacks become pure transitions on it:

- `Matched` models `deviceMatchingCallback`.
- `Removed` models `deviceRemovalCallback`.
- `Report` models `inputReportCallback`.

A session is a sequence of events, and `Run` folds a session over the state.

- `bytes.dfy` (module `Bytes`) defines Swift's `UInt8` and `Int8` as newtypes. It also models the two's-complement conversion `Int8(bitPattern:)` and its inverse.
- `driver.dfy` (module `Driver`) defines the state record, the initial state, frame decoding and the three callbacks.
- `session.dfy` (module `Session`) defines event sequences. It proves the buffer invariant over whole sessions and connects the connection flag to the session's last lifecycle event. It also shows that lifecycle events do not affect decoding, and it proves how a byte stream is cut into frames when delivered one byte per report.

The framing policy is the one the driver code implements:

1. Each non-empty report is appended to the buffer.
2. Once the buffer holds at least 27 bytes, bytes 0 and 4 of the whole buffer are decoded.
3. The buffer is then cleared. Any bytes past the 27th are thrown away.

The code has no "reject a short report" error. It also has no filter or sentinel on the axis value. The model has neither.

This policy has two consequences that may surprise a reader:

- Bytes after the 27th in an overlong buffer are thrown away, not carried into the next frame.
- A partial report followed by a complete one is decoded from the accumulated buffer, which begins with the partial report. The buttons always come from the partial report; the strum byte comes from it only when it holds at least 5 bytes.

`Session.DecodesAccumulatedBuffer` and `Driver.DecodeReadsOnlyOffsets` state these consequences.

## Model

| member | source | states |
|---|---|---|
| Bytes.Int8FromBitPattern | GuitarHeroHIDDriverIOKit/GuitarHeroHIDDriver.swift:110 | The signed reading of a byte shares its bit pattern, so it is congruent to the byte modulo 256. It is negative exactly when the byte is 128 or more. |
| Bytes.BitPattern | GuitarHeroHIDDriverIOKit/GuitarHeroHIDDriver.swift:110 | The unsigned bit pattern of a signed byte is congruent to it modulo 256. Reading that pattern back as signed gives the original value. |
| Bytes.BitPatternUnique | GuitarHeroHIDDriverIOKit/GuitarHeroHIDDriver.swift:110 | Any signed byte that shares a byte's bit pattern is the value `Int8(bitPattern:)` returns. So the reading is `b` when `b < 128` and `b - 256` otherwise, always within -128..127. |
| Bytes.BitPatternRoundTrip | GuitarHeroHIDDriverIOKit/GuitarHeroHIDDriver.swift:110 | Reading a byte as signed and converting it back gives the same byte. |
| Driver.Init | GuitarHeroHIDDriverIOKit/GuitarHeroHIDDriver.swift:16-25 | A new driver is disconnected, with buttons 0, strum 0 and an empty accumulation buffer, so the buffer invariant holds from the start. |
| Driver.Decode | GuitarHeroHIDDriverIOKit/GuitarHeroHIDDriver.swift:107-110 | A buffer decodes exactly when it holds at least 27 bytes. The button mask is byte 0 and the strum value has byte 4 as its bit pattern. |
| Driver.DecodeFrame | GuitarHeroHIDDriverIOKit/GuitarHeroHIDDriver.swift:107-110 | A 27-byte frame built from a (buttons, strum) pair decodes back to that pair. |
| Driver.DecodeReadsOnlyOffsets | GuitarHeroHIDDriverIOKit/GuitarHeroHIDDriver.swift:107-110 | Decoding a complete buffer reads only bytes 0 and 4. Other bytes and any bytes past the 27th have no effect. |
| Driver.Matched | GuitarHeroHIDDriverIOKit/GuitarHeroHIDDriver.swift:57-71 | A match sets `isConnected`. It does not touch the buttons, the axis or the buffer. A second match while connected changes nothing. |
| Driver.Removed | GuitarHeroHIDDriverIOKit/GuitarHeroHIDDriver.swift:74-86 | A removal clears `isConnected` and keeps the last buttons, axis and buffer. A removal while disconnected changes nothing. |
| Driver.Report | GuitarHeroHIDDriverIOKit/GuitarHeroHIDDriver.swift:89-132 | An empty report changes nothing. A report that leaves the buffer under 27 bytes only appends to it. A report that brings the buffer to 27 bytes or more publishes the decoding of the whole buffer and clears it. The connection flag never changes, and the buffer stays under 27 bytes. |
| Driver.ReportForgetsPriorValues | GuitarHeroHIDDriverIOKit/GuitarHeroHIDDriver.swift:112-122 | The "write only if different" guards cannot be observed in the driver's state. After a completing report, the buttons and axis do not depend on their earlier values. |
| Driver.FullReportIdempotent | GuitarHeroHIDDriverIOKit/GuitarHeroHIDDriver.swift:104-130 | Feeding a complete report twice into an empty buffer leaves the same state as feeding it once. |
| Session.Step | GuitarHeroHIDDriverIOKit/GuitarHeroHIDDriver.swift:57-132 | A report never changes the connection flag. A match or removal never changes the buttons, the axis or the buffer. Every event keeps the buffer under 27 bytes. |
| Session.Run | GuitarHeroHIDDriverIOKit/GuitarHeroHIDDriver.swift:89-132 | Across any session, the buffer stays under 27 bytes between events. A session made only of reports leaves the connection flag as it was. |
| Session.RunAppend | GuitarHeroHIDDriverIOKit/GuitarHeroHIDDriver.swift:57-132 | Delivering one batch of events and then another gives the same state as delivering the two batches joined in order. |
| Session.ReachableValid | GuitarHeroHIDDriverIOKit/GuitarHeroHIDDriver.swift:23-25 | From a new driver, every session leaves fewer than 27 bytes in the buffer. |
| Session.RunConnection | GuitarHeroHIDDriverIOKit/GuitarHeroHIDDriver.swift:65-68 | After a session, `isConnected` reflects the session's last lifecycle event: true for a match, false for a removal. With no lifecycle event, the starting flag is kept. |
| Session.ConnectedFromInit | GuitarHeroHIDDriverIOKit/GuitarHeroHIDDriver.swift:17 | A new driver is connected exactly when the session's last lifecycle event was a match. |
| Session.ReportsIgnoreConnection | GuitarHeroHIDDriverIOKit/GuitarHeroHIDDriver.swift:89-132 | Reports are decoded the same way whether or not the driver is flagged connected. |
| Session.LifecycleDoesNotDisturbDecoding | GuitarHeroHIDDriverIOKit/GuitarHeroHIDDriver.swift:65-68 | After any session, the buttons, axis and buffer equal those from the session's reports alone, with matches and removals taken out. |
| Session.ByteStreamFraming | GuitarHeroHIDDriverIOKit/GuitarHeroHIDDriver.swift:103-130 | Fed one byte per report into an empty buffer, a stream is cut into consecutive 27-byte frames. The buffer holds the bytes after the last whole frame. The published values are that frame's decoding, or the starting values if no frame has completed. |
| Session.WholeReportsDecodeLast | GuitarHeroHIDDriverIOKit/GuitarHeroHIDDriver.swift:103-130 | If every report holds at least 27 bytes and the buffer starts empty, each report is decoded on its own. The session ends with an empty buffer and the last report's values. |
| Session.StrumUpScenario | GuitarHeroHIDDriverIOKit/GuitarHeroHIDDriver.swift:107-122 | A new driver gets a match, then a report with byte 0 = 0x01 and byte 4 = 0xFF. It ends connected, with buttons 1, strum -1 and an empty buffer. |
| Session.DisconnectKeepsLastValues | GuitarHeroHIDDriverIOKit/GuitarHeroHIDDriver.swift:82-85 | A removal at any point of a session keeps the last decoded values and any partially buffered frame. |
| Session.DecodesAccumulatedBuffer | GuitarHeroHIDDriverIOKit/GuitarHeroHIDDriver.swift:104-110 | Decoding reads the accumulated buffer, not the latest report alone. After a short report and then a complete one, the buffer is empty and the published pair is the decoding of both joined. The buttons are the short report's first byte. The strum byte is the short report's fifth byte when it has one, and otherwise the completing report's byte at offset 4 minus the short report's length. |

## Left out

- HID manager setup is platform I/O plumbing, so it is not modelled (`GuitarHeroHIDDriver.swift:32-54`). This covers the gamepad matching dictionary, run-loop scheduling and opening the manager.
- Opaque `Unmanaged` context pointers and the nil-context guards are foreign-pointer mechanics. The model has no context to lose, so they are not modelled.
- The 256-byte report buffer that the matching callback allocates and registers is also foreign-pointer mechanics, so it is not modelled.
- `DispatchQueue.main.async` marshalling is left out. The model applies each event at once, in the order delivered. The driver writes `isConnected` asynchronously on the main queue, but the model does not capture that interleaving.
- Writes to the `@Published` properties are not modelled as notifications. The driver skips a same-value write to `buttonState` or `axisState`, so observers see no emission for it. The model records only the resulting values, where the skipped write makes no difference.
- `statusMessage` and its text are left out because they are UI strings. The `print` logging, including the "button pressed" and "strum bar moved" messages, is left out as well.
- The SwiftUI view and the app entry point are UI. The view's reinitialize button re-runs HID manager setup and sends no removal event, so the model has no reinitialize event.
- The model has no malformed-report error and no axis sentinel or allow-set filter, because the driver code has neither. The driver buffers short reports and accepts every axis value.
