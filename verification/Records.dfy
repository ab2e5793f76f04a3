/** Keyboard records and their byte layout.

A keyboard record is KEYBOARD_INPUT_DATA: four 16-bit fields and one 32-bit field, little endian, twelve bytes.
The driver copies records out as bytes; the client reads the bytes back as records. */
module Records {
  import opened Helpers

  const RECORD_BYTES: nat := 12

  datatype Record = Record(unitId: bv16, makeCode: bv16, flags: bv16, reserved: bv16, extra: bv32)

  function Low(w: bv16): bv8 { (w & 0xff) as bv8 }

  function High(w: bv16): bv8 { (w >> 8) as bv8 }

  function Pair(lo: bv8, hi: bv8): bv16 { (lo as bv16) | ((hi as bv16) << 8) }

  function LowHalf(w: bv32): bv16 { (w & 0xffff) as bv16 }

  function HighHalf(w: bv32): bv16 { (w >> 16) as bv16 }

  function Halves(lo: bv16, hi: bv16): bv32 { (lo as bv32) | ((hi as bv32) << 16) }

  function Encode(r: Record): (bytes: seq<bv8>)
    ensures |bytes| == RECORD_BYTES
  {
    [Low(r.unitId), High(r.unitId), Low(r.makeCode), High(r.makeCode),
     Low(r.flags), High(r.flags), Low(r.reserved), High(r.reserved),
     Low(LowHalf(r.extra)), High(LowHalf(r.extra)), Low(HighHalf(r.extra)), High(HighHalf(r.extra))]
  }

  function Decode(b: seq<bv8>): Record
    requires |b| == RECORD_BYTES
  {
    Record(Pair(b[0], b[1]), Pair(b[2], b[3]), Pair(b[4], b[5]), Pair(b[6], b[7]),
           Halves(Pair(b[8], b[9]), Pair(b[10], b[11])))
  }

  /** Where the fields are: little-endian words at offsets 0, 2, 4 and 6 and a double word at offset 8. */
  lemma FieldsInBytes(b: seq<bv8>)
    requires |b| == 12
    ensures var r := Decode(b);
            && r.unitId == (b[0] as bv16) | ((b[1] as bv16) << 8)
            && r.makeCode == (b[2] as bv16) | ((b[3] as bv16) << 8)
            && r.flags == (b[4] as bv16) | ((b[5] as bv16) << 8)
            && r.reserved == (b[6] as bv16) | ((b[7] as bv16) << 8)
            && r.extra == (b[8] as bv32) | ((b[9] as bv32) << 8) | ((b[10] as bv32) << 16) | ((b[11] as bv32) << 24)
  {
  }

  lemma DecodeEncode(r: Record)
    ensures Decode(Encode(r)) == r
  {
  }

  function EncodeAll(rs: seq<Record>): (bytes: seq<bv8>)
    ensures |bytes| == RECORD_BYTES * |rs|
  {
    if rs == [] then [] else EncodeAll(rs[..|rs| - 1]) + Encode(rs[|rs| - 1])
  }

  /** The records a client sees in the first RECORD_BYTES * count bytes of its buffer. */
  function DecodeAll(bytes: seq<bv8>, count: nat): (rs: seq<Record>)
    requires RECORD_BYTES * count <= |bytes|
    ensures |rs| == count
  {
    if count == 0 then []
    else DecodeAll(bytes, count - 1) + [Decode(bytes[RECORD_BYTES * (count - 1)..RECORD_BYTES * count])]
  }

  /** Whatever follows them in the buffer, the records copied out are the records read back. */
  lemma {:induction false} DecodeAllEncodeAll(rs: seq<Record>, rest: seq<bv8>)
    ensures DecodeAll(EncodeAll(rs) + rest, |rs|) == rs
  {
    if rs != [] {
      var front, last := rs[..|rs| - 1], rs[|rs| - 1];
      DecodeAllEncodeAll(front, Encode(last) + rest);
      assert EncodeAll(front) + (Encode(last) + rest) == EncodeAll(rs) + rest;
      DecodeEncode(last);
      assert (EncodeAll(rs) + rest)[RECORD_BYTES * |front|..RECORD_BYTES * |rs|] == Encode(last);
    }
  }

  /** Record i is at offset 12 * i. */
  lemma {:induction false} EncodedAt(rs: seq<Record>, i: nat)
    requires i < |rs|
    ensures EncodeAll(rs)[12 * i..12 * i + 12] == Encode(rs[i])
    decreases |rs|
  {
    if i < |rs| - 1 {
      var front := rs[..|rs| - 1];
      EncodedAt(front, i);
      assert EncodeAll(rs)[12 * i..12 * i + 12] == EncodeAll(front)[12 * i..12 * i + 12];
    }
  }

  lemma {:induction false} EncodeConcat(a: seq<Record>, b: seq<Record>)
    ensures EncodeAll(a + b) == EncodeAll(a) + EncodeAll(b)
    decreases |b|
  {
    if b == [] {
      assert a + b == a;
    } else {
      var front, last := b[..|b| - 1], Encode(b[|b| - 1]);
      EncodeLast(b);
      EncodeLast(a + b);
      hide EncodeAll, Encode;
      EncodeConcat(a, front);
      LastOfConcat(a, b);
      Associate(EncodeAll(a), EncodeAll(front), last);
    }
  }

  lemma EncodeLast(rs: seq<Record>)
    requires rs != []
    ensures EncodeAll(rs) == EncodeAll(rs[..|rs| - 1]) + Encode(rs[|rs| - 1])
  {
  }
}
