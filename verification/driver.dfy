/** The observable state of `GuitarHeroHIDDriver` and the three callbacks the
    HID manager drives it with, recast as pure transitions on an immutable
    state record. */
module Driver {
  import opened Bytes

  /** Size of one complete input report from the controller. */
  const ExpectedReportSize: nat := 27

  /** Offset of the button bitmask within a report. */
  const ButtonOffset: nat := 0

  /** Offset of the strum-bar byte within a report. */
  const StrumOffset: nat := 4

  datatype Option<T> = None | Some(value: T)

  /** The driver's published fields and its accumulation buffer. */
  datatype State = State(
    isConnected: bool,
    buttonState: UInt8,
    axisState: Int8,
    inputBuffer: seq<UInt8>)

  /** One decoded frame: the button bitmask and the signed strum-bar reading. */
  datatype Sample = Sample(button: UInt8, strum: Int8)

  /** The state a freshly constructed driver starts in: disconnected, no
      buttons, strum bar at rest, nothing buffered. */
  function Init(): (s: State)
    ensures !s.isConnected && s.buttonState == 0 && s.axisState == 0
    ensures Valid(s) && s.inputBuffer == []
  {
    State(false, 0, 0, [])
  }

  /** Between events the buffer never holds a complete report: one that
      reaches the expected size is decoded and cleared at once. */
  predicate Valid(s: State) {
    |s.inputBuffer| < ExpectedReportSize
  }

  /** Decodes an accumulated buffer once it holds a complete report. Bytes
      past the expected size are never looked at. */
  function Decode(buffer: seq<UInt8>): (r: Option<Sample>)
    ensures r.Some? <==> |buffer| >= ExpectedReportSize
    ensures r.Some? ==> r.value.button == buffer[ButtonOffset]
    ensures r.Some? ==> BitPattern(r.value.strum) == buffer[StrumOffset]
  {
    if |buffer| < ExpectedReportSize then None
    else Some(Sample(buffer[ButtonOffset], Int8FromBitPattern(buffer[StrumOffset])))
  }

  /** A complete report carrying `sample`, with every other byte zero. */
  function Frame(sample: Sample): (f: seq<UInt8>)
    ensures |f| == ExpectedReportSize
  {
    seq(ExpectedReportSize, i =>
      if i == ButtonOffset then sample.button
      else if i == StrumOffset then BitPattern(sample.strum)
      else 0)
  }

  /** Decoding a frame built from a sample gives back that sample. */
  lemma DecodeFrame(sample: Sample)
    ensures Decode(Frame(sample)) == Some(sample)
  {
    var f := Frame(sample);
    assert f[StrumOffset] == BitPattern(sample.strum);
    BitPatternRoundTrip(f[StrumOffset]);
  }

  /** Two complete buffers that agree on the button and strum bytes decode
      alike, whatever else they hold and however long they are. */
  lemma DecodeReadsOnlyOffsets(a: seq<UInt8>, b: seq<UInt8>)
    requires |a| >= ExpectedReportSize && |b| >= ExpectedReportSize
    requires a[ButtonOffset] == b[ButtonOffset] && a[StrumOffset] == b[StrumOffset]
    ensures Decode(a) == Decode(b)
  {
  }

  /** `deviceMatchingCallback`: the controller appeared. */
  function Matched(s: State): (t: State)
    ensures t.isConnected
    ensures t.buttonState == s.buttonState && t.axisState == s.axisState
    ensures t.inputBuffer == s.inputBuffer
    ensures s.isConnected ==> t == s
  {
    s.(isConnected := true)
  }

  /** `deviceRemovalCallback`: the controller went away; the last decoded
      values stay readable. */
  function Removed(s: State): (t: State)
    ensures !t.isConnected
    ensures t.buttonState == s.buttonState && t.axisState == s.axisState
    ensures t.inputBuffer == s.inputBuffer
    ensures !s.isConnected ==> t == s
  {
    s.(isConnected := false)
  }

  /** `inputReportCallback`: a report of `bytes` arrived. An empty report is
      ignored; otherwise the bytes are appended to the buffer, and once the
      buffer holds a complete report it is decoded into the published state
      (each field written only when it differs) and cleared. */
  function Report(s: State, bytes: seq<UInt8>): (t: State)
    ensures t.isConnected == s.isConnected
    ensures |bytes| == 0 ==> t == s
    ensures |bytes| > 0 && |s.inputBuffer| + |bytes| < ExpectedReportSize ==>
      t == s.(inputBuffer := s.inputBuffer + bytes)
    ensures |bytes| > 0 && |s.inputBuffer| + |bytes| >= ExpectedReportSize ==>
      t.inputBuffer == [] &&
      Decode(s.inputBuffer + bytes) == Some(Sample(t.buttonState, t.axisState))
    ensures (|bytes| > 0 || Valid(s)) ==> Valid(t)
  {
    if |bytes| == 0 then s
    else
      var buffer := s.inputBuffer + bytes;
      match Decode(buffer)
      case None => s.(inputBuffer := buffer)
      case Some(sample) =>
        var button := if sample.button != s.buttonState then sample.button else s.buttonState;
        var axis := if sample.strum != s.axisState then sample.strum else s.axisState;
        s.(buttonState := button, axisState := axis, inputBuffer := [])
  }

  /** The decoded fields after a completing report do not depend on what the
      driver held before: the change guards leave no trace in the driver state. */
  lemma ReportForgetsPriorValues(s: State, u: State, bytes: seq<UInt8>)
    requires s.inputBuffer == u.inputBuffer
    requires |bytes| > 0 && |s.inputBuffer| + |bytes| >= ExpectedReportSize
    ensures Report(s, bytes).buttonState == Report(u, bytes).buttonState
    ensures Report(s, bytes).axisState == Report(u, bytes).axisState
  {
  }

  /** A complete report fed twice to an empty buffer leaves the same state as
      feeding it once. */
  lemma FullReportIdempotent(s: State, bytes: seq<UInt8>)
    requires s.inputBuffer == []
    requires |bytes| >= ExpectedReportSize
    ensures Report(Report(s, bytes), bytes) == Report(s, bytes)
  {
  }
}
