/** A driver session: the sequence of events the HID manager delivers, one at
    a time and in order, and what the driver state is after all of them. */
module Session {
  import opened Bytes
  import opened Driver

  /** The three callbacks the HID manager can invoke. */
  datatype Event =
    | DeviceMatched
    | DeviceRemoved
    | ReportReceived(bytes: seq<UInt8>)

  /** Dispatches one event to its callback. */
  function Step(s: State, e: Event): (t: State)
    ensures e.ReportReceived? ==> t.isConnected == s.isConnected
    ensures !e.ReportReceived? ==>
      t.buttonState == s.buttonState && t.axisState == s.axisState &&
      t.inputBuffer == s.inputBuffer
    ensures Valid(s) ==> Valid(t)
  {
    match e
    case DeviceMatched => Matched(s)
    case DeviceRemoved => Removed(s)
    case ReportReceived(bytes) => Report(s, bytes)
  }

  /** The state after delivering `es` in order, starting from `s`. */
  function Run(s: State, es: seq<Event>): (t: State)
    ensures Valid(s) ==> Valid(t)
    ensures (forall i :: 0 <= i < |es| ==> es[i].ReportReceived?) ==>
      t.isConnected == s.isConnected
    decreases |es|
  {
    if es == [] then s else Run(Step(s, es[0]), es[1..])
  }

  /** Delivering two batches one after the other is delivering their
      concatenation. */
  lemma {:induction false} RunAppend(s: State, a: seq<Event>, b: seq<Event>)
    ensures Run(s, a + b) == Run(Run(s, a), b)
    decreases |a|
  {
    if a == [] {
      assert a + b == b;
    } else {
      assert (a + b)[1..] == a[1..] + b;
      RunAppend(Step(s, a[0]), a[1..], b);
    }
  }

  /** Every state reachable from a fresh driver keeps its buffer short of a
      complete report. */
  lemma ReachableValid(es: seq<Event>)
    ensures Valid(Run(Init(), es))
    ensures |Run(Init(), es).inputBuffer| < ExpectedReportSize
  {
  }

  // ---------------------------------------------------------------------
  // Connection lifecycle

  /** The latest lifecycle event of `es`, read from the end: `Some(true)` for a
      match, `Some(false)` for a removal, `None` when there is neither. */
  function LastLifecycle(es: seq<Event>): Option<bool>
    decreases |es|
  {
    if es == [] then None
    else
      match es[|es| - 1]
      case DeviceMatched => Some(true)
      case DeviceRemoved => Some(false)
      case ReportReceived(_) => LastLifecycle(es[..|es| - 1])
  }

  /** After a session the driver is connected exactly when the latest
      lifecycle event was a match; without one it keeps its starting flag.
      Reports never move the flag. */
  lemma {:induction false} RunConnection(s: State, es: seq<Event>)
    ensures Run(s, es).isConnected ==
      (match LastLifecycle(es) case Some(c) => c case None => s.isConnected)
    decreases |es|
  {
    if es != [] {
      var p := es[..|es| - 1];
      var e := es[|es| - 1];
      assert es == p + [e];
      RunAppend(s, p, [e]);
      RunConnection(s, p);
    }
  }

  /** A fresh driver reports itself connected exactly when the latest
      lifecycle event of the session was a match. */
  lemma ConnectedFromInit(es: seq<Event>)
    ensures Run(Init(), es).isConnected <==> LastLifecycle(es) == Some(true)
  {
    RunConnection(Init(), es);
  }

  // ---------------------------------------------------------------------
  // Decoding does not depend on the connection flag

  /** The reports of `es`, in order. */
  function Reports(es: seq<Event>): (rs: seq<Event>)
    ensures forall i :: 0 <= i < |rs| ==> rs[i].ReportReceived?
    decreases |es|
  {
    if es == [] then []
    else if es[0].ReportReceived? then [es[0]] + Reports(es[1..])
    else Reports(es[1..])
  }

  /** Reports are decoded the same way whatever the connection flag says. */
  lemma {:induction false} ReportsIgnoreConnection(s: State, c: bool, rs: seq<Event>)
    requires forall i :: 0 <= i < |rs| ==> rs[i].ReportReceived?
    ensures Run(s.(isConnected := c), rs) == Run(s, rs).(isConnected := c)
    decreases |rs|
  {
    if rs != [] {
      assert rs[0].ReportReceived?;
      ReportsIgnoreConnection(Step(s, rs[0]), c, rs[1..]);
    }
  }

  /** Matches and removals neither feed nor flush the decoder: the buttons,
      strum axis and buffer after a session are those produced by its reports
      alone. */
  lemma {:induction false} LifecycleDoesNotDisturbDecoding(s: State, es: seq<Event>)
    ensures Run(s, es).buttonState == Run(s, Reports(es)).buttonState
    ensures Run(s, es).axisState == Run(s, Reports(es)).axisState
    ensures Run(s, es).inputBuffer == Run(s, Reports(es)).inputBuffer
    decreases |es|
  {
    if es != [] {
      var t := Step(s, es[0]);
      LifecycleDoesNotDisturbDecoding(t, es[1..]);
      if es[0].ReportReceived? {
        assert Reports(es) == [es[0]] + Reports(es[1..]);
        assert ([es[0]] + Reports(es[1..]))[1..] == Reports(es[1..]);
      } else {
        assert t == s.(isConnected := t.isConnected);
        ReportsIgnoreConnection(s, t.isConnected, Reports(es[1..]));
      }
    }
  }

  // ---------------------------------------------------------------------
  // Framing across reports

  /** A byte stream delivered one byte per report. */
  function Bytewise(stream: seq<UInt8>): (es: seq<Event>)
    ensures |es| == |stream|
    ensures forall i :: 0 <= i < |es| ==> es[i] == ReportReceived([stream[i]])
  {
    seq(|stream|, i requires 0 <= i < |stream| => ReportReceived([stream[i]]))
  }

  /** Where the last whole frame of an `n`-byte stream ends. */
  function FrameEnd(n: nat): (k: nat)
    ensures k <= n && n - k < ExpectedReportSize
    ensures k % ExpectedReportSize == 0
  {
    n - n % ExpectedReportSize
  }

  /** One more byte either completes the pending frame or extends it. */
  lemma FrameEndNext(n: nat)
    ensures n + 1 - FrameEnd(n) == ExpectedReportSize ==> FrameEnd(n + 1) == n + 1
    ensures n + 1 - FrameEnd(n) < ExpectedReportSize ==> FrameEnd(n + 1) == FrameEnd(n)
  {
  }

  /** Delivered one byte at a time, a stream is cut into consecutive frames of
      the expected size: the buffer holds the bytes after the last whole
      frame, and the published state is the decoding of that last frame (or
      the starting values when no frame has completed yet). */
  lemma {:induction false} ByteStreamFraming(s: State, stream: seq<UInt8>)
    requires s.inputBuffer == []
    ensures var t := Run(s, Bytewise(stream));
      var k := FrameEnd(|stream|);
      && t.inputBuffer == stream[k..]
      && (k == 0 ==> t.buttonState == s.buttonState && t.axisState == s.axisState)
      && (k > 0 ==> Decode(stream[k - ExpectedReportSize..k]) == Some(Sample(t.buttonState, t.axisState)))
    decreases |stream|
  {
    if stream != [] {
      var n := |stream| - 1;
      var p := stream[..n];
      var b := stream[n];
      assert Bytewise(stream) == Bytewise(p) + [ReportReceived([b])];
      RunAppend(s, Bytewise(p), [ReportReceived([b])]);
      ByteStreamFraming(s, p);
      var u := Run(s, Bytewise(p));
      var kp := FrameEnd(n);
      FrameEndNext(n);
      assert u.inputBuffer + [b] == stream[kp..n + 1];
      assert Run(s, Bytewise(stream)) == Report(u, [b]);
      if kp > 0 {
        assert stream[kp - ExpectedReportSize..kp] == p[kp - ExpectedReportSize..kp];
      }
    }
  }

  /** When every report carries at least a whole frame, each is decoded on its
      own: after the session the buffer is empty and the published state is
      the decoding of the last report. */
  lemma {:induction false} WholeReportsDecodeLast(s: State, frames: seq<seq<UInt8>>)
    requires s.inputBuffer == []
    requires |frames| > 0
    requires forall i :: 0 <= i < |frames| ==> |frames[i]| >= ExpectedReportSize
    ensures var t := Run(s, seq(|frames|, i requires 0 <= i < |frames| => ReportReceived(frames[i])));
      && t.inputBuffer == []
      && Decode(frames[|frames| - 1]) == Some(Sample(t.buttonState, t.axisState))
    decreases |frames|
  {
    var es := seq(|frames|, i requires 0 <= i < |frames| => ReportReceived(frames[i]));
    var t := Step(s, es[0]);
    assert frames[0] != [] && s.inputBuffer + frames[0] == frames[0];
    if |frames| > 1 {
      var rest := frames[1..];
      assert es[1..] == seq(|rest|, i requires 0 <= i < |rest| => ReportReceived(rest[i]));
      WholeReportsDecodeLast(t, rest);
    }
  }

  // ---------------------------------------------------------------------
  // Scenarios

  /** Starting from a fresh driver, the controller connects and sends a
      complete report with buttons 0x01 and strum byte 0xFF: the driver shows
      buttons 1 and strum -1. */
  lemma StrumUpScenario()
    ensures var f := Frame(Sample(1, -1));
      && f[ButtonOffset] == 0x01 && f[StrumOffset] == 0xFF
      && Run(Init(), [DeviceMatched, ReportReceived(f)]) == State(true, 1, -1, [])
  {
    var f := Frame(Sample(1, -1));
    DecodeFrame(Sample(1, -1));
    assert f[StrumOffset] == BitPattern(-1);
    var m := Step(Init(), DeviceMatched);
    assert Run(Init(), [DeviceMatched, ReportReceived(f)]) == Run(m, [ReportReceived(f)]);
    assert Run(m, [ReportReceived(f)]) == Run(Report(m, f), []);
  }

  /** A controller unplugged at any point of a session keeps its last decoded
      values and whatever partial frame it had buffered. */
  lemma DisconnectKeepsLastValues(s: State, es: seq<Event>)
    ensures var u := Run(s, es);
      var t := Run(s, es + [DeviceRemoved]);
      && !t.isConnected
      && t.buttonState == u.buttonState && t.axisState == u.axisState
      && t.inputBuffer == u.inputBuffer
  {
    RunAppend(s, es, [DeviceRemoved]);
  }

  /** The decoded bytes come from the accumulated buffer, which begins with
      the short report: its first byte becomes the buttons, and the strum
      byte is its own fifth byte when it has one, else the byte of the
      completing report that lands at offset 4 of the buffer. */
  lemma DecodesAccumulatedBuffer(s: State, head: seq<UInt8>, f: seq<UInt8>)
    requires s.inputBuffer == []
    requires 0 < |head| < ExpectedReportSize && |f| >= ExpectedReportSize
    ensures var t := Run(s, [ReportReceived(head), ReportReceived(f)]);
      && t.inputBuffer == []
      && Decode(head + f) == Some(Sample(t.buttonState, t.axisState))
      && t.buttonState == head[ButtonOffset]
      && (|head| > StrumOffset ==> BitPattern(t.axisState) == head[StrumOffset])
      && (|head| <= StrumOffset ==> BitPattern(t.axisState) == f[StrumOffset - |head|])
  {
    var u := Step(s, ReportReceived(head));
    assert u.inputBuffer == head;
    assert Run(s, [ReportReceived(head), ReportReceived(f)]) == Run(u, [ReportReceived(f)]);
    assert Run(u, [ReportReceived(f)]) == Report(u, f);
    assert (head + f)[ButtonOffset] == head[ButtonOffset];
    if |head| > StrumOffset {
      assert (head + f)[StrumOffset] == head[StrumOffset];
    } else {
      assert (head + f)[StrumOffset] == f[StrumOffset - |head|];
    }
  }
}
