/** The hand-off slot between the PipeWire worker and the stream consumer.

    Every access happens under one lock, so the protocol is a transition system whose steps are the
    locked sections: the two stream callbacks, the pump loop's checks, and the consumer's poll. The
    class implements the steps; the lemmas are about every interleaving of them. */
module FrameSlot {
  import opened Prelude
  import opened ByteText
  import opened PixelConversion

  /** What the lock guards, and whether the worker is still pumping. */
  datatype Slot = Slot(layout: Option<PixelLayout>, width: nat, height: nat, latest: Option<seq<byte>>,
                       isFresh: bool, error: Option<string>, running: bool)

  const InitialSlot: Slot := Slot(None, 0, 0, None, false, None, true)

  const MODIFIER_INVALID: nat := 0xFFFF_FFFF_FFFF_FFFF

  /** A `param_changed` callback: anything but a parsable `Format` param is irrelevant. */
  datatype FormatEvent = Irrelevant | Format(modifier: nat, layout: Option<PixelLayout>, width: nat, height: nat)

  /** What `process` finds in the queue. */
  datatype Buffer =
    | NoBuffer
    | NoPlanes
    | Corrupted
    | Chunk(offset: nat, size: nat, stride: int, mapped: Option<seq<byte>>)

  /** What one poll of `next_frame` comes to; a delivered frame is what is handed to the encoder. */
  datatype Answer = Failed(e: string) | Delivered(width: nat, height: nat, bytes: seq<byte>) | Rejected | Empty

  datatype Step = ParamChanged(ev: FormatEvent) | Process(buf: Buffer) | PumpCheck(shutdown: bool) | PumpFailure | Poll(answer: Answer)

  // ----- The steps -----

  function OnParam(s: Slot, ev: FormatEvent): Slot {
    match ev
    case Irrelevant => s
    case Format(modifier, layout, w, h) =>
      if modifier != 0 && modifier != MODIFIER_INVALID then s.(error := Some("non-linear video modifier"))
      else if layout.None? then s.(error := Some("unsupported video format"))
      else s.(layout := layout, width := w, height := h)
  }

  /** The plane a chunk names inside its mapping. */
  function Plane(buf: Buffer): Option<seq<byte>>
    requires buf.Chunk? && buf.mapped.Some?
  {
    if buf.offset + buf.size <= |buf.mapped.value| then Some(buf.mapped.value[buf.offset..buf.offset + buf.size]) else None
  }

  /** This buffer decodes to `out` in state `s`. */
  ghost predicate Decodes(s: Slot, buf: Buffer, out: seq<byte>) {
    && s.error.None? && s.layout.Some?
    && buf.Chunk? && buf.size > 0 && buf.mapped.Some? && Plane(buf).Some?
    && Rejection(|Plane(buf).value|, s.width, s.height, buf.stride).None?
    && Converted(Plane(buf).value, s.width, s.height, buf.stride, s.layout.value, out)
  }

  /** This buffer leaves the state alone: an error is pending, no format is known yet, or there is
      nothing usable in it. */
  predicate Passes(s: Slot, buf: Buffer) {
    s.error.Some? || s.layout.None? || buf.NoBuffer? || buf.Corrupted? || (buf.Chunk? && buf.size == 0)
  }

  ghost predicate OnProcess(s: Slot, buf: Buffer, s': Slot) {
    if Passes(s, buf) then s' == s
    else if exists out :: Decodes(s, buf, out) then
      exists out :: Decodes(s, buf, out) && s' == s.(latest := Some(out), isFresh := true)
    else s'.error.Some? && s' == s.(error := s'.error)
  }

  /** `ImageBuffer::from_raw` takes any buffer that is large enough. */
  predicate Encodable(width: nat, height: nat, bytes: seq<byte>) {
    |bytes| >= height * (4 * width)
  }

  function OnPoll(s: Slot): (Slot, Answer) {
    if s.error.Some? then (s.(error := None), Failed(s.error.value))
    else if s.isFresh then
      (s.(isFresh := false, latest := None),
       if s.latest.Some? && Encodable(s.width, s.height, s.latest.value) then Delivered(s.width, s.height, s.latest.value) else Rejected)
    else (s, Empty)
  }

  ghost predicate Moves(s: Slot, step: Step, s': Slot) {
    match step
    case ParamChanged(ev) => s.running && s' == OnParam(s, ev)
    case Process(buf) => s.running && OnProcess(s, buf, s')
    case PumpCheck(shutdown) => s.running && s' == s.(running := !shutdown && s.error.None?)
    case PumpFailure => s.running && s' == s.(error := Some("pipewire main loop iterate failed"), running := false)
    case Poll(answer) => (s', answer) == OnPoll(s)
  }

  /** A format change with a linear modifier and a known layout sets exactly the layout, the width and
      the height; any other leaves them and reports an error. */
  lemma FormatTaken(s: Slot, modifier: nat, layout: Option<PixelLayout>, w: nat, h: nat)
    ensures var s' := OnParam(s, Format(modifier, layout, w, h));
            && s'.latest == s.latest && s'.isFresh == s.isFresh && s'.running == s.running
            && (if (modifier == 0 || modifier == 0xFFFF_FFFF_FFFF_FFFF) && layout.Some?
                then s'.layout == layout && s'.width == w && s'.height == h && s'.error == s.error
                else s'.layout == s.layout && s'.width == s.width && s'.height == s.height && s'.error.Some?)
  {
  }

  /** A plane is the `size` bytes of its mapping from `offset` on, when the mapping holds them. */
  lemma PlaneExact(buf: Buffer)
    requires buf.Chunk? && buf.mapped.Some?
    ensures Plane(buf).Some? <==> buf.offset + buf.size <= |buf.mapped.value|
    ensures Plane(buf).Some? ==>
              |Plane(buf).value| == buf.size
              && forall i :: 0 <= i < buf.size ==> Plane(buf).value[i] == buf.mapped.value[buf.offset + i]
  {
  }

  /** A usable buffer whose plane does not convert, has no plane, or is not mapped raises an error and
      leaves the frame alone; one that converts becomes the newest frame; any other changes nothing. */
  lemma ProcessOutcome(s: Slot, buf: Buffer, s': Slot)
    requires OnProcess(s, buf, s') && s.error.None?
    ensures var usable := s.layout.Some? && (buf.NoPlanes? || (buf.Chunk? && buf.size > 0));
            var converts := usable && buf.Chunk? && buf.mapped.Some? && buf.offset + buf.size <= |buf.mapped.value|
                            && Rejection(buf.size, s.width, s.height, buf.stride).None?;
            && (!usable ==> s' == s)
            && (usable && s'.error.None? ==> converts && s'.isFresh && s'.latest.Some?)
            && (usable && !converts ==> s'.error.Some? && s'.latest == s.latest && s'.isFresh == s.isFresh)
  {
    if buf.Chunk? && buf.mapped.Some? {
      PlaneExact(buf);
    }
  }

  /** The worker stops at its next check exactly when it is told to or an error is pending. */
  lemma PumpStopsIff(s: Slot, shutdown: bool, s': Slot)
    requires Moves(s, PumpCheck(shutdown), s')
    ensures s'.running <==> !shutdown && s.error.None?
    ensures s'.(running := true) == s
  {
  }

  // ----- History -----

  /** One decoded frame with the dimensions it was decoded at. */
  datatype Frame = Frame(bytes: seq<byte>, width: nat, height: nat)

  /** The slot with everything decoded and the positions taken by the consumer, in order. */
  datatype World = World(slot: Slot, decoded: seq<Frame>, taken: seq<nat>)

  const InitialWorld: World := World(InitialSlot, [], [])

  ghost predicate Next(w: World, step: Step, w': World) {
    && Moves(w.slot, step, w'.slot)
    && w'.decoded == w.decoded + (if step.Process? && !Passes(w.slot, step.buf) && w'.slot.error.None?
                                  then [Frame(if w'.slot.latest.Some? then w'.slot.latest.value else [], w.slot.width, w.slot.height)] else [])
    && w'.taken == w.taken + (if step.Poll? && w.slot.error.None? && w.slot.isFresh && |w.decoded| > 0 then [|w.decoded| - 1] else [])
  }

  ghost predicate Increasing(s: seq<nat>) {
    forall i, j :: 0 <= i < j < |s| ==> s[i] < s[j]
  }

  /** The slot is fresh exactly when it holds a frame, that frame is the newest decoded one and has not
      been taken; every decoded frame has the size of its own dimensions; frames are taken in strictly
      increasing order. */
  ghost predicate Inv(w: World) {
    && (w.slot.isFresh <==> w.slot.latest.Some?)
    && (w.slot.isFresh ==> |w.decoded| > 0 && w.decoded[|w.decoded| - 1].bytes == w.slot.latest.value)
    && (forall i :: 0 <= i < |w.decoded| ==> |w.decoded[i].bytes| == w.decoded[i].height * (4 * w.decoded[i].width))
    && Increasing(w.taken) && (forall i :: 0 <= i < |w.taken| ==> w.taken[i] < |w.decoded|)
    && (w.slot.isFresh && |w.taken| > 0 ==> w.taken[|w.taken| - 1] < |w.decoded| - 1)
  }

  lemma StepKeeps(w: World, step: Step, w': World)
    requires Inv(w) && Next(w, step, w')
    ensures Inv(w')
  {
    match step
    case Process(buf) => ProcessKeeps(w, buf, w');
    case Poll(answer) => PollKeeps(w, answer, w');
    case _ => assert w'.decoded == w.decoded && w'.taken == w.taken;
  }

  lemma ProcessKeeps(w: World, buf: Buffer, w': World)
    requires Inv(w) && Next(w, Process(buf), w')
    ensures Inv(w')
  {
    assert w'.taken == w.taken;
    if !Passes(w.slot, buf) && w'.slot.error.None? {
      var out :| Decodes(w.slot, buf, out) && w'.slot == w.slot.(latest := Some(out), isFresh := true);
      assert w'.decoded == w.decoded + [Frame(out, w.slot.width, w.slot.height)];
    } else {
      assert w'.decoded == w.decoded;
    }
  }

  lemma PollKeeps(w: World, answer: Answer, w': World)
    requires Inv(w) && Next(w, Poll(answer), w')
    ensures Inv(w')
  {
    assert w'.decoded == w.decoded;
    if w.slot.error.None? && w.slot.isFresh {
      assert w'.taken == w.taken + [|w.decoded| - 1];
    } else {
      assert w'.taken == w.taken;
    }
  }

  /** What a poll answers, given the invariant: a pending error once; else a frame exactly when one is
      fresh, and then the newest decoded frame, later than every frame taken before. */
  lemma PollAnswers(w: World, answer: Answer, w': World)
    requires Inv(w) && Next(w, Poll(answer), w')
    ensures answer.Failed? <==> w.slot.error.Some?
    ensures answer.Delivered? || answer.Rejected? <==> w.slot.error.None? && w.slot.isFresh
    ensures answer.Delivered? || answer.Rejected? ==> w'.taken == w.taken + [|w.decoded| - 1] && !w'.slot.isFresh
    ensures !(answer.Delivered? || answer.Rejected?) ==> w'.taken == w.taken
    ensures answer.Delivered? ==>
              && |w.decoded| > 0 && answer.bytes == w.decoded[|w.decoded| - 1].bytes
              && answer.width == w.slot.width && answer.height == w.slot.height
  {
  }

  /** A frame is delivered exactly when the current dimensions need no more bytes than the frame has,
      and what is delivered has exactly 4·w·h bytes when and only when they need as many; so it has
      with the dimensions unchanged since decoding. */
  lemma DeliveredIff(w: World, answer: Answer, w': World)
    requires Inv(w) && Next(w, Poll(answer), w') && w.slot.error.None? && w.slot.isFresh
    ensures var f := w.decoded[|w.decoded| - 1];
            && (answer.Delivered? <==> w.slot.height * (4 * w.slot.width) <= f.height * (4 * f.width))
            && (answer.Delivered? ==>
                  (|answer.bytes| == answer.height * (4 * answer.width)
                   <==> w.slot.height * (4 * w.slot.width) == f.height * (4 * f.width)))
            && (f.width == w.slot.width && f.height == w.slot.height ==>
                  answer == Delivered(f.width, f.height, f.bytes) && |answer.bytes| == f.height * (4 * f.width))
  {
  }

  // ----- Runs -----

  ghost predicate IsRun(run: seq<World>, steps: seq<Step>) {
    && |run| == |steps| + 1 && run[0] == InitialWorld
    && forall i :: 0 <= i < |steps| ==> StepAt(run, steps, i)
  }

  ghost predicate StepAt(run: seq<World>, steps: seq<Step>, i: nat)
    requires i < |steps| && |run| == |steps| + 1
  {
    Next(run[i], steps[i], run[i + 1])
  }

  /** The invariant holds throughout every interleaving of worker and consumer steps. */
  lemma {:induction false} EveryRunKeepsInvariant(run: seq<World>, steps: seq<Step>, i: nat)
    requires IsRun(run, steps) && i < |run|
    ensures Inv(run[i])
  {
    if i > 0 {
      EveryRunKeepsInvariant(run, steps, i - 1);
      assert StepAt(run, steps, i - 1);
      StepKeeps(run[i - 1], steps[i - 1], run[i]);
    }
  }

  /** History only grows, and a stopped worker stays stopped and decodes nothing. */
  lemma {:induction false} RunMonotone(run: seq<World>, steps: seq<Step>, i: nat, j: nat)
    requires IsRun(run, steps) && i <= j < |run|
    ensures run[i].decoded <= run[j].decoded && run[i].taken <= run[j].taken
    ensures !run[i].slot.running ==> !run[j].slot.running && run[j].decoded == run[i].decoded
    decreases j
  {
    if i < j {
      RunMonotone(run, steps, i, j - 1);
      assert StepAt(run, steps, j - 1);
    }
  }

  /** After the worker stops, at most one more frame is taken, and none once the slot is empty. */
  lemma {:induction false} AtMostOneFrameAfterStop(run: seq<World>, steps: seq<Step>, i: nat, j: nat)
    requires IsRun(run, steps) && i <= j < |run| && !run[i].slot.running
    ensures |run[j].taken| <= |run[i].taken| + if run[i].slot.isFresh then 1 else 0
    ensures run[j].slot.isFresh ==> run[i].slot.isFresh && |run[j].taken| == |run[i].taken|
    decreases j
  {
    if i < j {
      AtMostOneFrameAfterStop(run, steps, i, j - 1);
      RunMonotone(run, steps, i, j - 1);
      assert StepAt(run, steps, j - 1);
    }
  }

  /** Only a format change touches the dimensions. */
  lemma {:induction false} DimensionsKept(run: seq<World>, steps: seq<Step>, i: nat, j: nat)
    requires IsRun(run, steps) && i <= j < |run| && forall k :: i <= k < j ==> !steps[k].ParamChanged?
    ensures run[j].slot.width == run[i].slot.width && run[j].slot.height == run[i].slot.height
    decreases j
  {
    if i < j {
      DimensionsKept(run, steps, i, j - 1);
      assert StepAt(run, steps, j - 1);
    }
  }

  /** With no format change since the newest frame was decoded, a poll that finds it and no error hands
      it over at the dimensions it was decoded at, with exactly 4·w·h bytes: step `i` decoded the frame
      and step `j` polls. */
  lemma DeliveredSizeOnRun(run: seq<World>, steps: seq<Step>, i: nat, j: nat)
    requires IsRun(run, steps) && i < j < |steps| && steps[i].Process? && steps[j].Poll?
    requires |run[i + 1].decoded| == |run[i].decoded| + 1 && |run[j].decoded| == |run[i + 1].decoded|
    requires forall k :: i < k < j ==> !steps[k].ParamChanged?
    requires run[j].slot.error.None? && run[j].slot.isFresh
    ensures var f := run[j].decoded[|run[j].decoded| - 1];
            && f == run[i + 1].decoded[|run[i].decoded|]
            && steps[j].answer == Delivered(f.width, f.height, f.bytes) && |f.bytes| == f.height * (4 * f.width)
  {
    assert StepAt(run, steps, i) && StepAt(run, steps, j);
    RunMonotone(run, steps, i + 1, j);
    EveryRunKeepsInvariant(run, steps, j);
    DimensionsKept(run, steps, i + 1, j);
    DeliveredIff(run[j], steps[j].answer, run[j + 1]);
  }

  /** The delivered size is not promised across a renegotiation: there is a run that decodes a frame at
      2x1, renegotiates, and hands it out as a 1x1 frame of eight bytes. */
  lemma RenegotiationDeliversOtherSize() returns (run: seq<World>, steps: seq<Step>, out: seq<byte>)
    ensures IsRun(run, steps) && |steps| == 4
    ensures steps[3] == Poll(Delivered(1, 1, out)) && |out| == 8
  {
    out := seq(8, _ => 0);
    var buf := Chunk(0, 8, 0, Some(out));
    steps := [ParamChanged(Format(0, Some(Rgba), 2, 1)), Process(buf), ParamChanged(Format(0, Some(Rgba), 1, 1)), Poll(Delivered(1, 1, out))];
    var w1 := InitialWorld.(slot := InitialSlot.(layout := Some(Rgba), width := 2, height := 1));
    var w2 := World(w1.slot.(latest := Some(out), isFresh := true), [Frame(out, 2, 1)], []);
    var w3 := w2.(slot := w2.slot.(width := 1));
    run := [InitialWorld, w1, w2, w3, World(w3.slot.(latest := None, isFresh := false), w3.decoded, [0])];
    assert out[0..8] == out;
    assert RowDone(out, out, 2, 8, Rgba, 0);
    assert Decodes(w1.slot, buf, out);
    assert StepAt(run, steps, 0) && StepAt(run, steps, 1) && StepAt(run, steps, 2) && StepAt(run, steps, 3);
  }

  // ----- The implementation -----

  class PwStreamState {
    var layout: Option<PixelLayout>
    var width: nat
    var height: nat
    var latest: Option<seq<byte>>
    var isFresh: bool
    var error: Option<string>
    var running: bool

    function State(): Slot
      reads this
    {
      Slot(layout, width, height, latest, isFresh, error, running)
    }

    constructor ()
      ensures State() == InitialSlot
    {
      layout, width, height, latest, isFresh, error, running := None, 0, 0, None, false, None, true;
    }

    /** The `param_changed` callback. */
    method FormatChanged(ev: FormatEvent)
      requires running
      modifies this
      ensures Moves(old(State()), ParamChanged(ev), State())
    {
      match ev
      case Irrelevant =>
      case Format(modifier, negotiated, w, h) =>
        if modifier != 0 && modifier != MODIFIER_INVALID {
          error := Some("non-linear video modifier");
          return;
        }
        match negotiated
        case Some(l) => layout, width, height := Some(l), w, h;
        case None => error := Some("unsupported video format");
    }

    /** The `process` callback. */
    method BufferReady(buf: Buffer)
      requires running
      modifies this
      ensures Moves(old(State()), Process(buf), State())
    {
      if error.Some? || layout.None? {
        return;
      }
      match buf
      case NoBuffer =>
      case Corrupted =>
      case NoPlanes => error := Some("pipewire buffer with no data planes");
      case Chunk(offset, size, stride, mapped) =>
        if size == 0 {
          return;
        }
        if mapped.None? {
          error := Some("unmapped pipewire buffer");
          return;
        }
        var plane := Plane(buf);
        if plane.None? {
          error := Some("chunk range outside mapped plane");
          return;
        }
        var rgba := ConvertFrame(plane.value, width, height, stride, layout.value);
        match rgba
        case Ok(out) =>
          assert Decodes(old(State()), buf, out);
          latest, isFresh := Some(out), true;
        case Err(_) => error := Some("frame decode");
    }

    /** One pass of the consumer's polling loop. */
    method PollOnce() returns (answer: Answer)
      modifies this
      ensures Moves(old(State()), Poll(answer), State())
    {
      if error.Some? {
        answer := Failed(error.value);
        error := None;
        return;
      }
      if !isFresh {
        return Empty;
      }
      isFresh := false;
      var rgba := latest;
      latest := None;
      if rgba.None? || !Encodable(width, height, rgba.value) {
        return Rejected;
      }
      return Delivered(width, height, rgba.value);
    }

    /** The pump loop's exit checks. */
    method CheckPump(shutdown: bool)
      requires running
      modifies this
      ensures Moves(old(State()), PumpCheck(shutdown), State())
    {
      if shutdown || error.Some? {
        running := false;
      }
    }
  }
}
