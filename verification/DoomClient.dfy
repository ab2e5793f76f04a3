/** The client's side of the keyboard: polling the control device and dispatching what it returns. */
module DoomClient {
  import opened Helpers
  import opened Records
  import opened KeyboardRing
  import opened DoomKeys
  import opened ControlDevice
  import opened Display
  import DoomInput

  class Client {
    const keyboardBuffer: array<bv8>
    var keyboardAvailable: bool
    var calls: seq<KeyCall>  // what Doom has been told, in order

    ghost predicate Valid() { keyboardBuffer.Length == DoomInput.POLL_BYTES }

    constructor (buffer: array<bv8>)
      requires buffer.Length == DoomInput.POLL_BYTES
      ensures Valid() && keyboardBuffer == buffer && keyboardAvailable && calls == []
    {
      keyboardBuffer, keyboardAvailable, calls := buffer, true, [];
    }

    /** Tells Doom about one record. */
    method DispatchRecord(record: Record)
      modifies this`calls
      ensures calls == old(calls) + CallsOf(record)
      ensures var key := ScanCodeToDoom(record.makeCode, record.flags);
              calls == old(calls) + if key == Unknown then []
                                    else if record.flags & 1 == 0 then [KeyDown(key)] else [KeyUp(key)]
    {
      var key := ScanCodeToDoom(record.makeCode, record.flags);
      if key == Unknown {
        return;
      }
      if record.flags & KEY_BREAK != 0 {
        calls := calls + [KeyUp(key)];
      } else {
        calls := calls + [KeyDown(key)];
      }
    }

    /** The record at an index of the buffer. */
    method ReadRecord(index: nat) returns (record: Record)
      requires RECORD_BYTES * index + RECORD_BYTES <= keyboardBuffer.Length
      ensures record == Decode(keyboardBuffer[..][RECORD_BYTES * index..RECORD_BYTES * index + RECORD_BYTES])
    {
      var at := RECORD_BYTES * index;
      assert keyboardBuffer[..][at..at + RECORD_BYTES] == keyboardBuffer[at..at + RECORD_BYTES];
      record := Decode(keyboardBuffer[at..at + RECORD_BYTES]);
    }

    /** Tells Doom about the whole records in the first `byteCount` bytes of the buffer. */
    method DispatchKeyboardRecords(byteCount: nat)
      requires byteCount <= keyboardBuffer.Length
      modifies this`calls
      ensures calls == old(calls) + Translate(DecodeAll(keyboardBuffer[..], byteCount / RECORD_BYTES))
    {
      hide DecodeAll, Translate;
      ghost var bytes, told := keyboardBuffer[..], calls;
      NothingToTell(bytes);
      var recordCount := byteCount / RECORD_BYTES;
      for index := 0 to recordCount
        invariant calls == told + Translate(DecodeAll(bytes, index))
      {
        var record := ReadRecord(index);
        DispatchOneMore(bytes, index, record);
        DispatchRecord(record);
      }
    }

    /** What a request that returned `information` bytes has to say to Doom. */
    method DispatchIfAny(information: nat)
      requires information <= keyboardBuffer.Length
      modifies this`calls
      ensures calls == old(calls) + Translate(DecodeAll(keyboardBuffer[..], information / RECORD_BYTES))
    {
      if information != 0 {
        DispatchKeyboardRecords(information);
      }
    }

    /** Sends the get-keyboard request, which may not reach the driver: if it does, the buffer receives exactly the
        oldest pending records that fit it, and they leave the ring. */
    method GetKeyboard(device: ControlExtension, reached: bool) returns (ok: bool, information: nat)
      requires Valid() && device.Valid()
      requires keyboardBuffer as object != device.keyboardRing && keyboardBuffer as object != device.frameBuffer
      modifies keyboardBuffer, device`keyboardReadIndex, device`writes, device.frameBuffer
      ensures device.Valid() && device.frameBuffer[..] == old(device.frameBuffer[..]) && ok == reached
      ensures information <= keyboardBuffer.Length && (!ok ==> information == 0)
      ensures ok ==> information / RECORD_BYTES == DrainCount(|old(device.Pending())|, DoomInput.POLL_BYTES)
      ensures old(device.Pending()) == DecodeAll(keyboardBuffer[..], information / RECORD_BYTES) + device.Pending()
    {
      hide DecodeAll, EncodeAll;
      if !reached {
        return false, 0;
      }
      ghost var pending, before := device.Pending(), keyboardBuffer[..];
      PollIsServed(device.frameBuffer[..], pending, before);
      var status;
      status, information := device.DeviceControl(IOCTL_GET_KEYBOARD, keyboardBuffer, 0, keyboardBuffer.Length);
      ok := status == Success;
      PolledRecords(pending, before, keyboardBuffer[..]);
    }

    /** One poll; `reached` says whether the request reaches the driver. Exactly the records that leave the ring, the
        oldest ones that fit the buffer, are translated for Doom; the first failure ends polling for good. */
    method PollKeyboard(device: ControlExtension, reached: bool) returns (ghost drained: seq<Record>)
      requires Valid() && device.Valid()
      requires keyboardBuffer as object != device.keyboardRing && keyboardBuffer as object != device.frameBuffer
      modifies this`keyboardAvailable, this`calls, keyboardBuffer, device`keyboardReadIndex, device`writes,
        device.frameBuffer
      ensures device.Valid() && device.frameBuffer[..] == old(device.frameBuffer[..])
      ensures keyboardAvailable == (old(keyboardAvailable) && reached)
      ensures |drained| == if keyboardAvailable then DrainCount(|old(device.Pending())|, DoomInput.POLL_BYTES) else 0
      ensures old(device.Pending()) == drained + device.Pending() && calls == old(calls) + Translate(drained)
    {
      drained := [];
      if !keyboardAvailable {
        return;
      }
      var ok, information := GetKeyboard(device, reached);
      drained := DecodeAll(keyboardBuffer[..], information / RECORD_BYTES);
      if !ok {
        keyboardAvailable := false;
        return;
      }
      DispatchIfAny(information);
    }
  }

  lemma NothingToTell(bytes: seq<bv8>)
    ensures Translate(DecodeAll(bytes, 0)) == []
  {
  }

  lemma DispatchOneMore(bytes: seq<bv8>, index: nat, record: Record)
    requires RECORD_BYTES * index + RECORD_BYTES <= |bytes|
    requires record == Decode(bytes[RECORD_BYTES * index..RECORD_BYTES * index + RECORD_BYTES])
    ensures Translate(DecodeAll(bytes, index + 1)) == Translate(DecodeAll(bytes, index)) + CallsOf(record)
  {
    assert DecodeAll(bytes, index + 1) == DecodeAll(bytes, index) + [record];
    TranslateOne(DecodeAll(bytes, index), record);
  }

  lemma PollIsServed(aperture: seq<bv32>, pending: seq<Record>, buffer: seq<bv8>)
    requires |aperture| == APERTURE_WORDS && |buffer| == DoomInput.POLL_BYTES
    ensures var count := DrainCount(|pending|, DoomInput.POLL_BYTES);
            Serve(aperture, pending, Request(IOCTL_GET_KEYBOARD, Some(buffer), 0, |buffer|)) ==
            (aperture, pending[count..], Answer(Success, EncodeAll(pending[..count])))
  {
  }

  lemma PolledRecords(pending: seq<Record>, before: seq<bv8>, after: seq<bv8>)
    requires |before| == DoomInput.POLL_BYTES
    requires var out := EncodeAll(pending[..DrainCount(|pending|, DoomInput.POLL_BYTES)]);
             |out| <= |before| && after == out + before[|out|..]
    ensures var count := DrainCount(|pending|, DoomInput.POLL_BYTES);
            |after| == |before| && RECORD_BYTES * count <= |after| && DecodeAll(after, count) == pending[..count]
  {
    var count := DrainCount(|pending|, DoomInput.POLL_BYTES);
    DecodeAllEncodeAll(pending[..count], before[RECORD_BYTES * count..]);
  }
}
