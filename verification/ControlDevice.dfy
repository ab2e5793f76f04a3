/** The control device of the display driver: the keyboard ring and the display aperture behind one device object. */
module ControlDevice {
  import opened Helpers
  import opened Records
  import opened KeyboardRing
  import opened Display
  import KeyLedger

  const IOCTL_PRESENT: bv32 := 0x0022a000
  const IOCTL_GET_KEYBOARD: bv32 := 0x00222004

  datatype Status = Success | BufferTooSmall | InvalidDeviceRequest

  /** The kernel's copy routine. */
  method RtlCopyMemory(destination: array<bv8>, at: nat, source: seq<bv8>)
    requires at + |source| <= destination.Length
    modifies destination
    ensures destination[..] == old(destination[..at]) + source + old(destination[at + |source|..])
  {
    forall i | 0 <= i < |source| {
      destination[at + i] := source[i];
    }
  }

  class ControlExtension {
    const frameBuffer: array<bv32>
    const keyboardRing: array<Record>
    var keyboardReadIndex: nat
    var keyboardWriteIndex: nat

    ghost var history: seq<Record>  // every record ever queued
    ghost var writes: seq<int>      // the index of every word ever written to the aperture, in order

    ghost predicate Valid()
      reads this`keyboardReadIndex, this`keyboardWriteIndex, this`history, keyboardRing
    {
      && frameBuffer.Length == APERTURE_WORDS && frameBuffer as object != keyboardRing
      && View().Valid()
      && IsSuffix(Pending(), history)
    }

    ghost function View(): Cells
      reads this`keyboardReadIndex, this`keyboardWriteIndex, keyboardRing
    {
      Cells(keyboardRing[..], keyboardReadIndex, keyboardWriteIndex)
    }

    ghost function Pending(): seq<Record>
      requires View().Valid()
      reads this`keyboardReadIndex, this`keyboardWriteIndex, keyboardRing
    {
      View().Contents()
    }

    ghost function Capacity(): nat
      requires keyboardRing.Length > 0
    {
      keyboardRing.Length - 1
    }

    constructor (aperture: array<bv32>, ring: array<Record>)
      requires aperture.Length == APERTURE_WORDS && ring.Length > 0 && aperture as object != ring
      ensures Valid() && Pending() == [] && history == [] && writes == []
      ensures frameBuffer == aperture && keyboardRing == ring
    {
      frameBuffer, keyboardRing := aperture, ring;
      keyboardReadIndex, keyboardWriteIndex := 0, 0;
      history, writes := [], [];
    }

    /** Opening the device discards what is pending; closing it does nothing. */
    method CreateClose(isCreate: bool)
      requires Valid()
      modifies this`keyboardReadIndex
      ensures Valid() && Pending() == if isCreate then [] else old(Pending())
    {
      if isCreate {
        keyboardReadIndex := keyboardWriteIndex;
      }
    }

    /** One iteration of the queueing loop: a full ring gives up its oldest record. */
    method QueueOne(record: Record)
      requires View().Valid()
      modifies this`keyboardReadIndex, this`keyboardWriteIndex, keyboardRing
      ensures View() == old(View()).Put(record)
    {
      var next := (keyboardWriteIndex + 1) % keyboardRing.Length;
      if next == keyboardReadIndex {
        keyboardReadIndex := (keyboardReadIndex + 1) % keyboardRing.Length;
      }
      keyboardRing[keyboardWriteIndex] := record;
      keyboardWriteIndex := next;
    }

    /** Queues a batch of any length. */
    method QueueKeyboard(records: seq<Record>)
      requires Valid()
      modifies this`keyboardReadIndex, this`keyboardWriteIndex, this`history, keyboardRing
      ensures Valid() && history == old(history) + records
      ensures Pending() == Enqueue(Capacity(), old(Pending()), records)
    {
      hide Cells.Put, Cells.Contents, Enqueue;
      ghost var pending := Pending();
      NothingEnqueued(Capacity(), pending, records);
      for index := 0 to |records|
        invariant View().Valid() && history == old(history)
        invariant Pending() == Enqueue(Capacity(), pending, records[..index])
      {
        hide LastOf;
        ghost var before := View();
        assert |before.slots| - 1 == Capacity();
        QueueContinues(before, pending, records, index);
        QueueOne(records[index]);
        assert View() == before.Put(records[index]);
      }
      hide LastOf;
      assert records[..|records|] == records;
      SuffixAfterQueue(history, pending, records, Capacity());
      history := history + records;
    }

    /** `taken` of the records that were pending have been moved to the output buffer. */
    ghost predicate Draining(output: array<bv8>, pending: seq<Record>, before: seq<bv8>, taken: nat)
      reads this`keyboardReadIndex, this`keyboardWriteIndex, keyboardRing, output
    {
      && View().Valid()
      && taken <= |pending| && RECORD_BYTES * taken <= |before|
      && Pending() == pending[taken..]
      && output[..] == Copied(pending, taken, before)
    }

    /** One iteration of the draining loop. */
    method DrainOne(output: array<bv8>, written: nat,
                    ghost pending: seq<Record>, ghost before: seq<bv8>, ghost taken: nat)
      requires Draining(output, pending, before, taken) && output as object != keyboardRing
      requires keyboardReadIndex != keyboardWriteIndex
      requires written == RECORD_BYTES * taken && written + RECORD_BYTES <= |before|
      modifies this`keyboardReadIndex, output
      ensures Draining(output, pending, before, taken + 1)
    {
      DrainContinues(View(), pending, taken);
      CopiedOneMore(pending, taken, before);
      ghost var rest := View().Take();
      RtlCopyMemory(output, written, Encode(keyboardRing[keyboardReadIndex]));
      keyboardReadIndex := (keyboardReadIndex + 1) % keyboardRing.Length;
      assert View() == rest;
    }

    /** Copies the oldest pending records to the output buffer, which is not part of the device, and removes them. */
    method DrainKeyboard(output: array<bv8>, capacity: nat) returns (written: nat)
      requires Valid() && capacity <= output.Length && output as object != keyboardRing
      modifies this`keyboardReadIndex, output
      ensures Valid()
      ensures var count := DrainCount(|old(Pending())|, capacity);
              && written == RECORD_BYTES * count
              && output[..] == EncodeAll(old(Pending())[..count]) + old(output[..])[written..]
              && Pending() == old(Pending())[count..]
    {
      ghost var pending, before, taken := Pending(), output[..], 0;
      written := 0;
      Copied0(pending, before);
      while keyboardReadIndex != keyboardWriteIndex && written + RECORD_BYTES <= capacity
        invariant Draining(output, pending, before, taken)
        invariant written == RECORD_BYTES * taken <= capacity
        decreases |pending| - taken
      {
        DrainOne(output, written, pending, before, taken);
        written, taken := written + RECORD_BYTES, taken + 1;
      }
      DrainStops(|pending|, taken, capacity);
      SuffixAfterDrain(history, pending, taken);
    }

    /** The first `done` words show the target, the others are as they were, and these were the writes. */
    ghost predicate Progress(target: seq<bv32>, before: seq<bv32>, log: seq<int>, done: nat)
      reads this`writes, frameBuffer
    {
      && |target| == |before| == frameBuffer.Length && done <= frameBuffer.Length
      && frameBuffer[..] == Overlay(target, before, done)
      && writes == log + UpTo(done)
    }

    /** One store to the aperture. */
    method Store(index: ULONG, pixel: bv32, ghost target: seq<bv32>, ghost before: seq<bv32>, ghost log: seq<int>)
      requires Progress(target, before, log, index as int)
      requires index as int < frameBuffer.Length && target[index as int] == pixel
      modifies this`writes, frameBuffer
      ensures Progress(target, before, log, index as int + 1)
    {
      frameBuffer[index] := pixel;
      writes := writes + [index as int];
    }

    /** The four stores of one source pixel in one display row. */
    method StoreFour(index: ULONG, pixel: bv32, ghost target: seq<bv32>, ghost before: seq<bv32>, ghost log: seq<int>)
      requires Progress(target, before, log, index as int)
      requires index as int + 3 < DISPLAY_WORDS <= frameBuffer.Length
      requires forall k | index as int <= k < index as int + 4 :: target[k] == pixel
      modifies this`writes, frameBuffer
      ensures Progress(target, before, log, index as int + 4)
    {
      Store(index + 0, pixel, target, before, log);
      Store(index + 1, pixel, target, before, log);
      Store(index + 2, pixel, target, before, log);
      Store(index + 3, pixel, target, before, log);
    }

    /** Shows the frame in the source buffer. Every display word is written, in ascending order, exactly once. */
    method PresentFrame(source: array<bv8>)
      requires Valid() && FRAME_BYTES <= source.Length && source as object != frameBuffer
      modifies this`writes, frameBuffer
      ensures Valid()
      ensures frameBuffer[..] == Presented(old(frameBuffer[..]), Frame(source[..]))
      ensures ShowsFrame(frameBuffer[..], source[..])
      ensures frameBuffer[1280 * 800..] == old(frameBuffer[1280 * 800..])
      ensures writes == old(writes) + UpTo(DISPLAY_WORDS)
    {
      ghost var before, log, bytes := frameBuffer[..], writes, source[..];
      ghost var target := Presented(before, Frame(bytes));
      assert Overlay(target, before, 0) == before && UpTo(0) == [];
      hide Presented, Frame, Overlay, UpTo, ShowsFrame;
      var sourceY: ULONG := 0;
      while sourceY < 200
        invariant sourceY <= 200
        invariant Progress(target, before, log, 5120 * sourceY as int)
      {
        var scaleY: ULONG := 0;
        while scaleY < 4
          invariant scaleY <= 4
          invariant Progress(target, before, log, 5120 * sourceY as int + 1280 * scaleY as int)
        {
          PresentRow(source, sourceY, scaleY, target, before, log);
          scaleY := scaleY + 1;
        }
        sourceY := sourceY + 1;
      }
      PresentedIsOverlay(before, Frame(bytes));
      BytesAreShown(before, bytes);
      PresentedTail(before, Frame(bytes));
    }

    /** The innermost loop: one display row of one source row. */
    method PresentRow(source: array<bv8>, sourceY: ULONG, scaleY: ULONG,
                      ghost target: seq<bv32>, ghost before: seq<bv32>, ghost log: seq<int>)
      requires FRAME_BYTES <= source.Length && source as object != frameBuffer
      requires |before| == frameBuffer.Length == APERTURE_WORDS
      requires target == Presented(before, Frame(source[..]))
      requires sourceY < 200 && scaleY < 4
      requires Progress(target, before, log, 5120 * sourceY as int + 1280 * scaleY as int)
      modifies this`writes, frameBuffer
      ensures Progress(target, before, log, 5120 * sourceY as int + 1280 * scaleY as int + 1280)
    {
      hide Presented, Frame, SwapRedBlue, Overlay, UpTo, Word;
      var destination: ULONG := (sourceY * 4 + scaleY) * 1280;
      var sourceRow: ULONG := sourceY * 320;
      var sourceX: ULONG := 0;
      while sourceX < 320
        invariant sourceX <= 320
        invariant Progress(target, before, log, (destination + sourceX * 4) as int)
      {
        var o := (sourceRow + sourceX) as int * 4;
        var rgba := Word(source[o], source[o + 1], source[o + 2], source[o + 3]);
        var pixel := SwapRedBlue(rgba);
        var destinationX: ULONG := sourceX * 4;
        ShownByFour(before, source[..], sourceX as int, sourceY as int, scaleY as int, pixel);
        StoreFour(destination + destinationX, pixel, target, before, log);
        sourceX := sourceX + 1;
      }
    }

    /** Dispatches one device-control request. Input and output share the system buffer. */
    method DeviceControl(code: bv32, system: array?<bv8>, inputLength: nat, outputLength: nat)
      returns (status: Status, information: nat)
      requires Valid()
      requires system != null ==> inputLength <= system.Length && outputLength <= system.Length
      requires system != null ==> system as object != keyboardRing && system as object != frameBuffer
      modifies this`keyboardReadIndex, this`writes, frameBuffer, system
      ensures Valid()
      ensures var buffer := if system == null then None else Some(old(system[..]));
              var request := Request(code, buffer, inputLength, outputLength);
              var (aperture, pending, answer) := Serve(old(frameBuffer[..]), old(Pending()), request);
              && frameBuffer[..] == aperture && Pending() == pending
              && status == answer.status && information == |answer.output|
              && (system != null ==> system[..] == answer.output + old(system[..])[|answer.output|..])
    {
      if code == IOCTL_GET_KEYBOARD {
        if system == null || outputLength < RECORD_BYTES {
          return BufferTooSmall, 0;
        }
        information := DrainKeyboard(system, outputLength);
        return Success, information;
      }
      if code != IOCTL_PRESENT {
        return InvalidDeviceRequest, 0;
      }
      if system == null || inputLength < FRAME_BYTES {
        return BufferTooSmall, 0;
      }
      PresentFrame(system);
      return Success, 0;
    }
  }

  /** Display pixel (x, y) has the red, green and blue bytes of pixel (x / 4, y / 4) of the source. */
  ghost predicate ShowsBytes(aperture: seq<bv32>, source: seq<bv8>, x: nat, y: nat)
    requires |aperture| == APERTURE_WORDS && FRAME_BYTES <= |source| && x < 1280 && y < 800
  {
    var o := 4 * (y / 4 * 320 + x / 4);
    && o + 3 < |source|
    && aperture[y * 1280 + x] == ((source[o] as bv32) << 16) | ((source[o + 1] as bv32) << 8) | (source[o + 2] as bv32)
  }

  ghost predicate ShowsFrame(aperture: seq<bv32>, source: seq<bv8>)
    requires |aperture| == APERTURE_WORDS && FRAME_BYTES <= |source|
  {
    forall x: nat, y: nat | x < 1280 && y < 800 :: ShowsBytes(aperture, source, x, y)
  }

  lemma BytesAreShown(aperture: seq<bv32>, source: seq<bv8>)
    requires |aperture| == APERTURE_WORDS && FRAME_BYTES <= |source|
    ensures ShowsFrame(Presented(aperture, Frame(source)), source)
  {
    hide Presented, Frame;
    forall x: nat, y: nat | x < 1280 && y < 800 ensures ShowsBytes(Presented(aperture, Frame(source)), source, x, y) {
      BytesOnDisplay(aperture, source, x, y);
    }
  }

  /** The four display words of one row that show one source word. */
  lemma ShownByFour(aperture: seq<bv32>, bytes: seq<bv8>, sourceX: nat, sourceY: nat, scaleY: nat, pixel: bv32)
    requires |aperture| == APERTURE_WORDS && FRAME_BYTES <= |bytes|
    requires sourceX < 320 && sourceY < 200 && scaleY < 4
    requires pixel == SwapRedBlue(WordAt(bytes, sourceY * 320 + sourceX))
    ensures var shown, first := Presented(aperture, Frame(bytes)), (sourceY * 4 + scaleY) * 1280 + sourceX * 4;
            forall k | first <= k < first + 4 :: shown[k] == pixel
  {
    var shown, first := Presented(aperture, Frame(bytes)), (sourceY * 4 + scaleY) * 1280 + sourceX * 4;
    forall k | first <= k < first + 4 ensures shown[k] == pixel {
      ShownByOne(aperture, bytes, sourceX, sourceY, scaleY, k - first);
    }
  }

  lemma ShownByOne(aperture: seq<bv32>, bytes: seq<bv8>, sourceX: nat, sourceY: nat, scaleY: nat, scaleX: nat)
    requires |aperture| == APERTURE_WORDS && FRAME_BYTES <= |bytes|
    requires sourceX < 320 && sourceY < 200 && scaleY < 4 && scaleX < 4
    ensures Presented(aperture, Frame(bytes))[(sourceY * 4 + scaleY) * 1280 + sourceX * 4 + scaleX] ==
            SwapRedBlue(WordAt(bytes, sourceY * 320 + sourceX))
  {
    var x, y := sourceX * 4 + scaleX, sourceY * 4 + scaleY;
    assert ShownIndex(x, y) == sourceY * 320 + sourceX;
    PresentedPixel(aperture, Frame(bytes), x, y);
  }

  ghost predicate IsSuffix(s: seq<Record>, of: seq<Record>) { |s| <= |of| && s == of[|of| - |s|..] }

  lemma SuffixAfterQueue(history: seq<Record>, pending: seq<Record>, batch: seq<Record>, capacity: nat)
    requires IsSuffix(pending, history)
    ensures IsSuffix(Enqueue(capacity, pending, batch), history + batch)
  {
  }

  /** A draining loop stops after the number of records that both are pending and fit. */
  lemma DrainStops(pending: nat, taken: nat, capacity: nat)
    requires taken <= pending && RECORD_BYTES * taken <= capacity
    requires taken == pending || RECORD_BYTES * taken + RECORD_BYTES > capacity
    ensures taken == DrainCount(pending, capacity)
  {
  }

  lemma SuffixAfterDrain(history: seq<Record>, pending: seq<Record>, count: nat)
    requires IsSuffix(pending, history) && count <= |pending|
    ensures IsSuffix(pending[count..], history)
  {
  }

  /** An output buffer after `taken` records have been copied over what it held. */
  ghost function Copied(pending: seq<Record>, taken: nat, before: seq<bv8>): seq<bv8>
    requires taken <= |pending| && RECORD_BYTES * taken <= |before|
  {
    EncodeAll(pending[..taken]) + before[RECORD_BYTES * taken..]
  }

  lemma Copied0(pending: seq<Record>, before: seq<bv8>)
    ensures Copied(pending, 0, before) == before
  {
  }

  lemma CopiedOneMore(pending: seq<Record>, taken: nat, before: seq<bv8>)
    requires taken < |pending| && RECORD_BYTES * taken + RECORD_BYTES <= |before|
    ensures var now, at := Copied(pending, taken, before), RECORD_BYTES * taken;
            now[..at] + Encode(pending[taken]) + now[at + RECORD_BYTES..] == Copied(pending, taken + 1, before)
  {
    assert pending[..taken + 1][..taken] == pending[..taken];
  }

  /** The words of `before` with the first `done` replaced, one after the other, by those of `target`. */
  ghost function Overlay(target: seq<bv32>, before: seq<bv32>, done: nat): (r: seq<bv32>)
    requires done <= |target| == |before|
    ensures |r| == |before|
  {
    if done == 0 then before else Overlay(target, before, done - 1)[done - 1 := target[done - 1]]
  }

  lemma {:induction false} OverlayAll(target: seq<bv32>, before: seq<bv32>, done: nat)
    requires done <= |target| == |before|
    ensures Overlay(target, before, done) == target[..done] + before[done..]
  {
    if done > 0 {
      OverlayAll(target, before, done - 1);
    }
  }

  /** Presenting is overlaying the whole display. */
  lemma PresentedIsOverlay(aperture: seq<bv32>, frame: seq<bv32>)
    requires |aperture| == APERTURE_WORDS && |frame| == FRAME_WORDS
    ensures Overlay(Presented(aperture, frame), aperture, DISPLAY_WORDS) == Presented(aperture, frame)
  {
    hide Presented;
    var target := Presented(aperture, frame);
    OverlayAll(target, aperture, DISPLAY_WORDS);
    PresentedTail(aperture, frame);
    assert target[..DISPLAY_WORDS] + target[DISPLAY_WORDS..] == target;
  }

  ghost function UpTo(n: nat): (r: seq<int>)
    ensures |r| == n && forall i | 0 <= i < n :: r[i] == i
  {
    if n == 0 then [] else UpTo(n - 1) + [n - 1]
  }

  // ---- The device as a function from requests to answers ----

  datatype Request = Request(code: bv32, buffer: Option<seq<bv8>>, inputLength: nat, outputLength: nat) {
    ghost predicate Valid() {
      buffer.Some? ==> inputLength <= |buffer.value| && outputLength <= |buffer.value|
    }

    predicate Accepted() { code == IOCTL_PRESENT && buffer.Some? && FRAME_BYTES <= inputLength }
  }

  datatype Answer = Answer(status: Status, output: seq<bv8>)

  function Serve(aperture: seq<bv32>, pending: seq<Record>, r: Request): (seq<bv32>, seq<Record>, Answer)
    requires |aperture| == APERTURE_WORDS && r.Valid()
  {
    if r.code == IOCTL_GET_KEYBOARD then
      if r.buffer.None? || r.outputLength < RECORD_BYTES then (aperture, pending, Answer(BufferTooSmall, []))
      else
        var count := DrainCount(|pending|, r.outputLength);
        (aperture, pending[count..], Answer(Success, EncodeAll(pending[..count])))
    else if r.code != IOCTL_PRESENT then (aperture, pending, Answer(InvalidDeviceRequest, []))
    else if r.buffer.None? || r.inputLength < FRAME_BYTES then (aperture, pending, Answer(BufferTooSmall, []))
    else (Presented(aperture, Frame(r.buffer.value)), pending, Answer(Success, []))
  }

  /** What a run of requests leaves in the aperture and pending, and what it answers. */
  function ServeAll(aperture: seq<bv32>, pending: seq<Record>, requests: seq<Request>):
      (r: (seq<bv32>, seq<Record>, seq<Answer>))
    requires |aperture| == APERTURE_WORDS && forall i | 0 <= i < |requests| :: requests[i].Valid()
    ensures |r.0| == APERTURE_WORDS && |r.2| == |requests|
    decreases |requests|
  {
    if requests == [] then (aperture, pending, [])
    else
      var (next, rest, answer) := Serve(aperture, pending, requests[0]);
      var (final, left, answers) := ServeAll(next, rest, requests[1..]);
      (final, left, [answer] + answers)
  }

  /** The display shows the last accepted frame and nothing else: if request i is the last one accepted, the aperture is
      the original one with that frame presented; if none is (i is -1), it is the original one. */
  lemma {:induction false} DisplayShowsLastFrame(aperture: seq<bv32>, pending: seq<Record>,
                                                 requests: seq<Request>, i: int)
    requires |aperture| == APERTURE_WORDS && forall j | 0 <= j < |requests| :: requests[j].Valid()
    requires -1 <= i < |requests| && (i >= 0 ==> requests[i].Accepted())
    requires forall j | i < j < |requests| :: !requests[j].Accepted()
    ensures ServeAll(aperture, pending, requests).0 ==
            if i < 0 then aperture else Presented(aperture, Frame(requests[i].buffer.value))
    decreases |requests|
  {
    hide Presented, Frame, DrainCount, EncodeAll;
    if requests != [] {
      var (next, left, _) := Serve(aperture, pending, requests[0]);
      DisplayShowsLastFrame(next, left, requests[1..], if i < 0 then -1 else i - 1);
      if requests[0].Accepted() && i > 0 {
        LastFrameWins(aperture, Frame(requests[0].buffer.value), Frame(requests[i].buffer.value));
      }
    }
  }

  // ---- What requests do to the ring ----

  /** What a request means to the ring: a get-keyboard request with a buffer and room for a record is a drain, and
      nothing else touches the ring. */
  function RingEvent(r: Request): seq<KeyLedger.Event> {
    if r.code == 0x0022_2004 && r.buffer.Some? && r.outputLength >= 12 then [KeyLedger.Drain(r.outputLength)] else []
  }

  function RingEvents(requests: seq<Request>): seq<KeyLedger.Event>
    decreases |requests|
  {
    if requests == [] then [] else RingEvent(requests[0]) + RingEvents(requests[1..])
  }

  function Outputs(answers: seq<Answer>): seq<bv8>
    decreases |answers|
  {
    if answers == [] then [] else answers[0].output + Outputs(answers[1..])
  }

  /** The status each kind of request gets. */
  predicate StatusIsRight(r: Request, status: Status) {
    if r.code == 0x0022_2004 then
      status == if r.buffer.Some? && r.outputLength >= 12 then Success else BufferTooSmall
    else if r.code == 0x0022_a000 then
      status == if r.buffer.Some? && r.inputLength >= 256000 then Success else BufferTooSmall
    else status == InvalidDeviceRequest
  }

  lemma RequestMeetsRing(capacity: nat, aperture: seq<bv32>, s: KeyLedger.Ring, r: Request)
    requires |aperture| == APERTURE_WORDS && r.Valid()
    ensures var (_, left, answer) := Serve(aperture, s.pending, r);
            var t := KeyLedger.Run(capacity, s, RingEvent(r));
            && left == t.pending && StatusIsRight(r, answer.status)
            && EncodeAll(s.delivered) + answer.output == EncodeAll(t.delivered)
  {
    hide Presented, Frame, EncodeAll;
    if RingEvent(r) != [] {
      var count := DrainCount(|s.pending|, r.outputLength);
      EncodeConcat(s.delivered, s.pending[..count]);
      assert RingEvent(r)[1..] == [];
    } else {
      assert EncodeAll(s.delivered) + [] == EncodeAll(s.delivered);
    }
  }

  /** Over any run of requests, the ring and what the requesters receive are those of the ring's own run of the drains
      among the requests, in order: presents, unknown and undersized requests leave both alone. And each request gets
      the status of its kind. */
  lemma {:induction false} RequestsDrainTheRing(capacity: nat, aperture: seq<bv32>, s: KeyLedger.Ring,
                                                requests: seq<Request>)
    requires |aperture| == APERTURE_WORDS && forall i | 0 <= i < |requests| :: requests[i].Valid()
    ensures var (_, left, answers) := ServeAll(aperture, s.pending, requests);
            var t := KeyLedger.Run(capacity, s, RingEvents(requests));
            && left == t.pending && EncodeAll(s.delivered) + Outputs(answers) == EncodeAll(t.delivered)
            && forall i | 0 <= i < |requests| :: StatusIsRight(requests[i], answers[i].status)
    decreases |requests|
  {
    hide Presented, Frame, EncodeAll, StatusIsRight;
    if requests == [] {
      assert EncodeAll(s.delivered) + [] == EncodeAll(s.delivered);
    } else {
      var r, rest := requests[0], requests[1..];
      var (next, left, answer) := Serve(aperture, s.pending, r);
      RequestMeetsRing(capacity, aperture, s, r);
      var t := KeyLedger.Run(capacity, s, RingEvent(r));
      hide Serve, RingEvent;
      RequestsDrainTheRing(capacity, next, t, rest);
      KeyLedger.RunConcat(capacity, s, RingEvent(r), RingEvents(rest));
      hide KeyLedger.Run;
      Associate(EncodeAll(s.delivered), answer.output, Outputs(ServeAll(next, left, rest).2));
    }
  }
}
