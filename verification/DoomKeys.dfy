/** Scan codes to Doom keys, and what Doom is told.

The client turns drained records into key-up and key-down calls. The lemmas here are about sequences of records and
their fates; `DoomInput` puts them together with runs of the ring. */
module DoomKeys {
  import opened Helpers
  import opened Records
  import opened KeyLedger

  const KEY_BREAK: bv16 := 1
  const KEY_E0: bv16 := 2

  datatype DoomKey =
    | Unknown | UpArrow | LeftArrow | RightArrow | DownArrow | Ctrl | Alt | Escape | Key1 | Key2 | Key3 | Key4
    | Key5 | Key6 | Key7 | Key8 | Key9 | Key0 | Minus | Equals | Backspace | Tab | KeyQ | KeyW | KeyE | KeyR
    | KeyT | KeyY | KeyU | KeyI | KeyO | KeyP | LeftBracket | RightBracket | Enter | KeyA | KeyS | KeyD | KeyF
    | KeyG | KeyH | KeyJ | KeyK | KeyL | Semicolon | Apostrophe | Shift | KeyZ | KeyX | KeyC | KeyV | KeyB
    | KeyN | KeyM | Comma | Period | Slash | Multiply | Space | F1 | F2 | F3 | F4 | F5 | F6 | F7 | F8 | F9

  /** Several scan codes name one key: both shifts, both controls and both alts. */
  function ScanCodeToDoom(code: bv16, flags: bv16): DoomKey {
    if flags & KEY_E0 != 0 then ExtendedKey(code as nat) else PlainKey(code as nat)
  }

  function ExtendedKey(code: nat): DoomKey {
    match code
    case 0x48 => UpArrow case 0x4b => LeftArrow case 0x4d => RightArrow case 0x50 => DownArrow
    case 0x1d => Ctrl case 0x38 => Alt
    case _ => Unknown
  }

  /** The plain codes, row by row of the keyboard. */
  function PlainKey(code: nat): DoomKey {
    if code < 0x10 then TopRow(code)
    else if code < 0x1e then UpperRow(code)
    else if code < 0x2a then HomeRow(code)
    else if code < 0x3a then LowerRow(code)
    else FunctionRow(code)
  }

  function TopRow(code: nat): DoomKey {
    match code
    case 0x01 => Escape case 0x02 => Key1 case 0x03 => Key2 case 0x04 => Key3 case 0x05 => Key4
    case 0x06 => Key5 case 0x07 => Key6 case 0x08 => Key7 case 0x09 => Key8 case 0x0a => Key9
    case 0x0b => Key0 case 0x0c => Minus case 0x0d => Equals case 0x0e => Backspace case 0x0f => Tab
    case _ => Unknown
  }

  function UpperRow(code: nat): DoomKey {
    match code
    case 0x10 => KeyQ case 0x11 => KeyW case 0x12 => KeyE case 0x13 => KeyR case 0x14 => KeyT
    case 0x15 => KeyY case 0x16 => KeyU case 0x17 => KeyI case 0x18 => KeyO case 0x19 => KeyP
    case 0x1a => LeftBracket case 0x1b => RightBracket case 0x1c => Enter case 0x1d => Ctrl
    case _ => Unknown
  }

  function HomeRow(code: nat): DoomKey {
    match code
    case 0x1e => KeyA case 0x1f => KeyS case 0x20 => KeyD case 0x21 => KeyF case 0x22 => KeyG
    case 0x23 => KeyH case 0x24 => KeyJ case 0x25 => KeyK case 0x26 => KeyL case 0x27 => Semicolon
    case 0x28 => Apostrophe
    case _ => Unknown
  }

  function LowerRow(code: nat): DoomKey {
    match code
    case 0x2a => Shift case 0x2c => KeyZ case 0x2d => KeyX case 0x2e => KeyC case 0x2f => KeyV
    case 0x30 => KeyB case 0x31 => KeyN case 0x32 => KeyM case 0x33 => Comma case 0x34 => Period
    case 0x35 => Slash case 0x36 => Shift case 0x37 => Multiply case 0x38 => Alt case 0x39 => Space
    case _ => Unknown
  }

  function FunctionRow(code: nat): DoomKey {
    match code
    case 0x3b => F1 case 0x3c => F2 case 0x3d => F3 case 0x3e => F4 case 0x3f => F5 case 0x40 => F6
    case 0x41 => F7 case 0x42 => F8 case 0x43 => F9
    case _ => Unknown
  }

  predicate IsArrow(key: DoomKey) { key in {UpArrow, LeftArrow, RightArrow, DownArrow} }

  /** The place of each key on the keyboard: its scan code, the left one where there are two. */
  function CodeOf(key: DoomKey): nat
    requires key != Unknown
  {
    match key
    case Escape => 0x01
    case Key1 => 0x02 case Key2 => 0x03 case Key3 => 0x04 case Key4 => 0x05 case Key5 => 0x06
    case Key6 => 0x07 case Key7 => 0x08 case Key8 => 0x09 case Key9 => 0x0a case Key0 => 0x0b
    case Minus => 0x0c case Equals => 0x0d case Backspace => 0x0e case Tab => 0x0f
    case KeyQ => 0x10 case KeyW => 0x11 case KeyE => 0x12 case KeyR => 0x13 case KeyT => 0x14
    case KeyY => 0x15 case KeyU => 0x16 case KeyI => 0x17 case KeyO => 0x18 case KeyP => 0x19
    case LeftBracket => 0x1a case RightBracket => 0x1b case Enter => 0x1c case Ctrl => 0x1d
    case KeyA => 0x1e case KeyS => 0x1f case KeyD => 0x20 case KeyF => 0x21 case KeyG => 0x22
    case KeyH => 0x23 case KeyJ => 0x24 case KeyK => 0x25 case KeyL => 0x26
    case Semicolon => 0x27 case Apostrophe => 0x28 case Shift => 0x2a
    case KeyZ => 0x2c case KeyX => 0x2d case KeyC => 0x2e case KeyV => 0x2f case KeyB => 0x30
    case KeyN => 0x31 case KeyM => 0x32 case Comma => 0x33 case Period => 0x34 case Slash => 0x35
    case Multiply => 0x37 case Alt => 0x38 case Space => 0x39
    case F1 => 0x3b case F2 => 0x3c case F3 => 0x3d case F4 => 0x3e case F5 => 0x3f
    case F6 => 0x40 case F7 => 0x41 case F8 => 0x42 case F9 => 0x43
    case UpArrow => 0x48 case LeftArrow => 0x4b case RightArrow => 0x4d case DownArrow => 0x50
  }

  /** Which scan codes name a key. The arrows need bit 1 of the flags, the keys with both a plain and an extended code
      ignore it, and every other key needs it clear; the right shift is the only second code. */
  lemma KeyHasItsCode(code: bv16, flags: bv16, key: DoomKey)
    requires key != Unknown
    ensures ScanCodeToDoom(code, flags) == key <==>
            if IsArrow(key) then code as nat == CodeOf(key) && flags & 2 != 0
            else if key == Ctrl || key == Alt then code as nat == CodeOf(key)
            else flags & 2 == 0 && (code as nat == CodeOf(key) || (key == Shift && code as nat == 0x36))
  {
    hide PlainKey, ExtendedKey, CodeOf;
    PlainKeyHasItsCode(code as nat, key);
    ExtendedKeyHasItsCode(code as nat, key);
  }

  lemma ExtendedKeyHasItsCode(code: nat, key: DoomKey)
    requires key != Unknown
    ensures ExtendedKey(code) == key <==> (IsArrow(key) || key == Ctrl || key == Alt) && code == CodeOf(key)
  {
    match key
    case UpArrow => case LeftArrow => case RightArrow => case DownArrow => case Ctrl => case Alt =>
    case _ => hide CodeOf;
  }

  lemma PlainKeyHasItsCode(code: nat, key: DoomKey)
    requires key != Unknown
    ensures PlainKey(code) == key <==>
            !IsArrow(key) && (code == CodeOf(key) || (key == Shift && code == 0x36))
  {
    ArrowCodes(key);
    if PlainKey(code) == key {
      hide TopRow, UpperRow, HomeRow, LowerRow, FunctionRow, CodeOf;
      if TopRow(code) != Unknown {
        TopRowCodes(code);
      }
      if UpperRow(code) != Unknown {
        UpperRowCodes(code);
      }
      if HomeRow(code) != Unknown {
        HomeRowCodes(code);
      }
      if LowerRow(code) != Unknown {
        LowerRowCodes(code);
      }
      if FunctionRow(code) != Unknown {
        FunctionRowCodes(code);
      }
    } else if !IsArrow(key) {
      hide TopRow, UpperRow, HomeRow, LowerRow, FunctionRow, CodeOf;
      if 0x01 <= CodeOf(key) < 0x10 {
        TopRowKeys(key);
      }
      if 0x10 <= CodeOf(key) < 0x1e {
        UpperRowKeys(key);
      }
      if 0x1e <= CodeOf(key) < 0x2a {
        HomeRowKeys(key);
      }
      if 0x2a <= CodeOf(key) < 0x3a {
        LowerRowKeys(key);
      }
      if 0x3a <= CodeOf(key) < 0x48 {
        FunctionRowKeys(key);
      }
    }
  }

  lemma ArrowCodes(key: DoomKey)
    requires key != Unknown
    ensures 0 < CodeOf(key) && (IsArrow(key) <==> CodeOf(key) >= 0x48)
    ensures CodeOf(Shift) == 0x2a && LowerRow(0x36) == Shift
  {
  }

  lemma TopRowCodes(code: nat)
    requires TopRow(code) != Unknown
    ensures var key := TopRow(code);
            0x01 <= code < 0x10 && !IsArrow(key) && CodeOf(key) == code
  {
    match code
    case 0x01 => case 0x02 => case 0x03 => case 0x04 => case 0x05 => case 0x06 => case 0x07 => case 0x08 =>
    case 0x09 => case 0x0a => case 0x0b => case 0x0c => case 0x0d => case 0x0e => case 0x0f =>
    case _ =>
  }

  lemma TopRowKeys(key: DoomKey)
    requires key != Unknown && 0x01 <= CodeOf(key) < 0x10
    ensures TopRow(CodeOf(key)) == key
  {
  }

  lemma UpperRowCodes(code: nat)
    requires UpperRow(code) != Unknown
    ensures var key := UpperRow(code);
            0x10 <= code < 0x1e && !IsArrow(key) && CodeOf(key) == code
  {
    match code
    case 0x10 => case 0x11 => case 0x12 => case 0x13 => case 0x14 => case 0x15 => case 0x16 => case 0x17 =>
    case 0x18 => case 0x19 => case 0x1a => case 0x1b => case 0x1c => case 0x1d =>
    case _ =>
  }

  lemma UpperRowKeys(key: DoomKey)
    requires key != Unknown && 0x10 <= CodeOf(key) < 0x1e
    ensures UpperRow(CodeOf(key)) == key
  {
  }

  lemma HomeRowCodes(code: nat)
    requires HomeRow(code) != Unknown
    ensures var key := HomeRow(code);
            0x1e <= code < 0x2a && !IsArrow(key) && CodeOf(key) == code
  {
    match code
    case 0x1e => case 0x1f => case 0x20 => case 0x21 => case 0x22 => case 0x23 => case 0x24 => case 0x25 =>
    case 0x26 => case 0x27 => case 0x28 =>
    case _ =>
  }

  lemma HomeRowKeys(key: DoomKey)
    requires key != Unknown && 0x1e <= CodeOf(key) < 0x2a
    ensures HomeRow(CodeOf(key)) == key
  {
  }

  lemma LowerRowCodes(code: nat)
    requires LowerRow(code) != Unknown
    ensures var key := LowerRow(code);
            0x2a <= code < 0x3a && !IsArrow(key) && (CodeOf(key) == code || (key == Shift && code == 0x36))
  {
    match code
    case 0x2a => case 0x2c => case 0x2d => case 0x2e => case 0x2f => case 0x30 => case 0x31 => case 0x32 =>
    case 0x33 => case 0x34 => case 0x35 => case 0x36 => case 0x37 => case 0x38 => case 0x39 =>
    case _ =>
  }

  lemma LowerRowKeys(key: DoomKey)
    requires key != Unknown && 0x2a <= CodeOf(key) < 0x3a
    ensures LowerRow(CodeOf(key)) == key
  {
  }

  lemma FunctionRowCodes(code: nat)
    requires FunctionRow(code) != Unknown
    ensures var key := FunctionRow(code);
            0x3a <= code < 0x48 && !IsArrow(key) && CodeOf(key) == code
  {
    match code
    case 0x3b => case 0x3c => case 0x3d => case 0x3e => case 0x3f => case 0x40 => case 0x41 => case 0x42 =>
    case 0x43 =>
    case _ =>
  }

  lemma FunctionRowKeys(key: DoomKey)
    requires key != Unknown && 0x3a <= CodeOf(key) < 0x48
    ensures FunctionRow(CodeOf(key)) == key
  {
  }

  /** Exactly which two scan codes name one key: equal ones with equal bit 1, the two shifts, and control and alt with
      and without bit 1. */
  lemma TwoCodesOneKey(c: bv16, f: bv16, d: bv16, g: bv16)
    requires ScanCodeToDoom(c, f) != Unknown
    ensures ScanCodeToDoom(c, f) == ScanCodeToDoom(d, g) <==>
            || (c as nat == d as nat && (f & 2 == 0 <==> g & 2 == 0))
            || (c as nat == d as nat && (c as nat == 0x1d || c as nat == 0x38))
            || (f & 2 == 0 && g & 2 == 0 && ((c as nat == 0x2a && d as nat == 0x36) ||
                                             (c as nat == 0x36 && d as nat == 0x2a)))
  {
    var key := ScanCodeToDoom(c, f);
    KeyHasItsCode(c, f, key);
    KeyHasItsCode(d, g, key);
    ArrowCodes(key);
    SpecialCodes(key);
    hide ScanCodeToDoom, CodeOf, IsArrow;
  }

  lemma SpecialCodes(key: DoomKey)
    requires key != Unknown
    ensures CodeOf(key) == 0x1d <==> key == Ctrl
    ensures CodeOf(key) == 0x38 <==> key == Alt
    ensures CodeOf(key) == 0x2a <==> key == Shift
    ensures CodeOf(key) != 0x36
  {
  }

  datatype KeyCall = KeyDown(key: DoomKey) | KeyUp(key: DoomKey)

  function KeyOf(r: Record): DoomKey { ScanCodeToDoom(r.makeCode, r.flags) }

  predicate IsPress(r: Record) { r.flags & KEY_BREAK == 0 }

  /** The call made for one record; records without a Doom key make none. */
  function CallsOf(r: Record): seq<KeyCall> {
    if KeyOf(r) == Unknown then [] else if IsPress(r) then [KeyDown(KeyOf(r))] else [KeyUp(KeyOf(r))]
  }

  function Translate(rs: seq<Record>): seq<KeyCall> {
    if rs == [] then [] else Translate(rs[..|rs| - 1]) + CallsOf(rs[|rs| - 1])
  }

  lemma TranslateLast(rs: seq<Record>)
    requires rs != []
    ensures Translate(rs) == Translate(rs[..|rs| - 1]) + CallsOf(rs[|rs| - 1])
  {
  }

  /** Translation does not depend on how the records were cut into polls. */
  lemma {:induction false} TranslateConcat(a: seq<Record>, b: seq<Record>)
    ensures Translate(a + b) == Translate(a) + Translate(b)
    decreases |b|
  {
    if b == [] {
      assert a + b == a;
    } else {
      var front, calls := b[..|b| - 1], CallsOf(b[|b| - 1]);
      TranslateLast(b);
      TranslateLast(a + b);
      hide Translate, CallsOf;
      TranslateConcat(a, front);
      LastOfConcat(a, b);
      Associate(Translate(a), Translate(front), calls);
    }
  }

  /** Whether Doom holds a key down after these calls. */
  function IsDown(calls: seq<KeyCall>, key: DoomKey): bool {
    if calls == [] then false
    else if calls[|calls| - 1].key == key then calls[|calls| - 1].KeyDown?
    else IsDown(calls[..|calls| - 1], key)
  }

  lemma IsDownAfter(calls: seq<KeyCall>, r: Record, key: DoomKey)
    requires key != Unknown
    ensures IsDown(calls + CallsOf(r), key) == if KeyOf(r) == key then IsPress(r) else IsDown(calls, key)
  {
    if KeyOf(r) == Unknown {
      assert calls + CallsOf(r) == calls;
    } else {
      assert (calls + CallsOf(r))[..|calls|] == calls;
    }
  }

  /** Record i is the newest one for this key, whichever of the key's scan codes it carries. */
  ghost predicate IsNewest(history: seq<Record>, key: DoomKey, i: nat) {
    i < |history| && KeyOf(history[i]) == key && forall j | i < j < |history| :: KeyOf(history[j]) != key
  }

  /** Record j is the newest one for this key that was drained. */
  ghost predicate IsNewestDrained(history: seq<Record>, fates: seq<Fate>, key: DoomKey, j: nat)
    requires |fates| == |history|
  {
    && j < |history| && KeyOf(history[j]) == key && fates[j] == Drained
    && forall k | j < k < |history| && fates[k] == Drained :: KeyOf(history[k]) != key
  }

  /** The newest drained record for this key, if there is one, is a press. */
  ghost predicate LeftDown(history: seq<Record>, fates: seq<Fate>, key: DoomKey)
    requires |fates| == |history|
  {
    exists j: nat :: IsNewestDrained(history, fates, key, j) && IsPress(history[j])
  }

  /** The last record decides if it is drained and for this key. */
  lemma LastDecides(history: seq<Record>, fates: seq<Fate>, key: DoomKey)
    requires |fates| == |history| && history != []
    requires var n := |history| - 1; fates[n] == Drained && KeyOf(history[n]) == key
    ensures LeftDown(history, fates, key) <==> IsPress(history[|history| - 1])
  {
    hide KeyOf, IsPress;
    var n := |history| - 1;
    assert IsNewestDrained(history, fates, key, n);
    assert forall j: nat :: IsNewestDrained(history, fates, key, j) ==> j == n;
  }

  /** Otherwise the records before it decide. */
  lemma LastIsIgnored(history: seq<Record>, fates: seq<Fate>, key: DoomKey)
    requires |fates| == |history| && history != []
    requires var n := |history| - 1; fates[n] != Drained || KeyOf(history[n]) != key
    ensures var n := |history| - 1; LeftDown(history, fates, key) <==> LeftDown(history[..n], fates[..n], key)
  {
    hide KeyOf, IsPress;
    var n := |history| - 1;
    forall j: nat ensures IsNewestDrained(history, fates, key, j) <==>
                          j < n && IsNewestDrained(history[..n], fates[..n], key, j)
    {
      NewestDrainedBefore(history, fates, key, j);
    }
    hide IsNewestDrained;
  }

  lemma LeftDownAfterLast(history: seq<Record>, fates: seq<Fate>, key: DoomKey)
    requires |fates| == |history| && history != []
    ensures var n := |history| - 1;
            LeftDown(history, fates, key) <==>
            if fates[n] == Drained && KeyOf(history[n]) == key then IsPress(history[n])
            else LeftDown(history[..n], fates[..n], key)
  {
    hide KeyOf, IsPress, LeftDown, IsNewestDrained;
    var n := |history| - 1;
    if fates[n] == Drained && KeyOf(history[n]) == key {
      LastDecides(history, fates, key);
    } else {
      LastIsIgnored(history, fates, key);
    }
  }

  lemma NewestDrainedBefore(history: seq<Record>, fates: seq<Fate>, key: DoomKey, j: nat)
    requires |fates| == |history| && history != []
    requires var n := |history| - 1; fates[n] != Drained || KeyOf(history[n]) != key
    ensures var n := |history| - 1;
            IsNewestDrained(history, fates, key, j) <==> IsNewestDrained(history[..n], fates[..n], key, j)
  {
    hide KeyOf;
    var n := |history| - 1;
    assert forall k | 0 <= k < n :: history[..n][k] == history[k] && fates[..n][k] == fates[k];
  }

  /** Doom holds a key down exactly when the newest drained record for it is a press. */
  lemma {:induction false} DownIffLeftDown(history: seq<Record>, fates: seq<Fate>, key: DoomKey)
    requires |fates| == |history| && key != Unknown
    ensures IsDown(Translate(Select(history, fates, Drained)), key) <==> LeftDown(history, fates, key)
    decreases |history|
  {
    if history != [] {
      hide KeyOf, IsPress, Translate, Select, IsDown, LeftDown;
      DownAfterLast(history, fates, key);
      LeftDownAfterLast(history, fates, key);
      DownIffLeftDown(history[..|history| - 1], fates[..|history| - 1], key);
    }
  }

  /** With nothing lost, a key is down exactly when its newest record is a press. */
  lemma {:induction false} DownIfNothingLost(history: seq<Record>, key: DoomKey)
    requires key != Unknown
    ensures IsDown(Translate(history), key) <==> exists i: nat :: IsNewest(history, key, i) && IsPress(history[i])
    decreases |history|
  {
    if history != [] {
      var n := |history| - 1;
      hide KeyOf, IsPress, Translate, IsDown;
      TranslateOne(history[..n], history[n]);
      assert history[..n] + [history[n]] == history;
      IsDownAfter(Translate(history[..n]), history[n], key);
      if KeyOf(history[n]) == key {
        assert IsNewest(history, key, n);
        assert forall i: nat :: IsNewest(history, key, i) ==> i == n;
      } else {
        DownIfNothingLost(history[..n], key);
        NewestBefore(history, key);
      }
    }
  }

  /** In bits: a key is down exactly when its newest record has the break bit clear. */
  lemma DownIffBreakBitClear(history: seq<Record>, key: DoomKey)
    requires key != Unknown
    ensures IsDown(Translate(history), key) <==>
            exists i: nat :: IsNewest(history, key, i) && history[i].flags & 1 == 0
  {
    hide KeyOf, Translate, IsDown;
    DownIfNothingLost(history, key);
  }

  /** Exactly when losing records leaves a key in the wrong state, read off the arrivals and their fates: the key's
      newest record was itself not drained, and its direction differs from that of the newest drained record for the
      key (a key with no drained record counts as released). */
  lemma WrongExactlyWhenNewestLost(history: seq<Record>, fates: seq<Fate>, key: DoomKey)
    requires |fates| == |history| && key != Unknown
    ensures IsDown(Translate(Select(history, fates, Drained)), key) != IsDown(Translate(history), key) <==>
            exists i: nat :: IsNewest(history, key, i) && fates[i] != Drained &&
                             IsPress(history[i]) != LeftDown(history, fates, key)
  {
    hide KeyOf, IsPress, Translate, Select, IsDown, LeftDown;
    DownIffLeftDown(history, fates, key);
    DownIfNothingLost(history, key);
    NewestIsUnique(history, key);
    if i: nat :| IsNewest(history, key, i) && fates[i] == Drained {
      DrainedNewestDecides(history, fates, key, i);
    }
    if forall i: nat :: !IsNewest(history, key, i) {
      NoRecordNoState(history, fates, key);
    }
  }

  lemma NewestIsUnique(history: seq<Record>, key: DoomKey)
    ensures forall i: nat, j: nat :: IsNewest(history, key, i) && IsNewest(history, key, j) ==> i == j
  {
    hide KeyOf;
  }

  lemma DrainedNewestDecides(history: seq<Record>, fates: seq<Fate>, key: DoomKey, i: nat)
    requires |fates| == |history| && IsNewest(history, key, i) && fates[i] == Drained
    ensures LeftDown(history, fates, key) <==> IsPress(history[i])
  {
    hide KeyOf, IsPress;
    assert IsNewestDrained(history, fates, key, i);
    assert forall j: nat :: IsNewestDrained(history, fates, key, j) ==> j == i;
  }

  lemma {:induction false} NoRecordNoState(history: seq<Record>, fates: seq<Fate>, key: DoomKey)
    requires |fates| == |history| && forall i: nat :: !IsNewest(history, key, i)
    ensures !LeftDown(history, fates, key)
    decreases |history|
  {
    hide KeyOf, IsPress;
    if history != [] {
      var n := |history| - 1;
      assert !IsNewest(history, key, n);
      NewestBefore(history, key);
      forall i: nat ensures !IsNewest(history[..n], key, i) {
        assert !IsNewest(history, key, i);
      }
      NoRecordNoState(history[..n], fates[..n], key);
      LeftDownAfterLast(history, fates, key);
    }
  }

  /** One more arrival sets its own key's state if it is delivered, and no other key's. */
  lemma DownAfterLast(history: seq<Record>, fates: seq<Fate>, key: DoomKey)
    requires |fates| == |history| && history != [] && key != Unknown
    ensures var n := |history| - 1;
            var got := IsDown(Translate(Select(history[..n], fates[..n], Drained)), key);
            && IsDown(Translate(Select(history, fates, Drained)), key) ==
                 (if fates[n] == Drained && KeyOf(history[n]) == key then IsPress(history[n]) else got)
            && IsDown(Translate(history), key) ==
                 (if KeyOf(history[n]) == key then IsPress(history[n]) else IsDown(Translate(history[..n]), key))
  {
    var n := |history| - 1;
    var delivered := Translate(Select(history[..n], fates[..n], Drained));
    SelectLast(history, fates);
    IsDownAfter(delivered, history[n], key);
    IsDownAfter(Translate(history[..n]), history[n], key);
    assert delivered + [] == delivered;
  }

  lemma SelectUnfolds(history: seq<Record>, fates: seq<Fate>)
    requires |fates| == |history| && history != []
    ensures var n := |history| - 1;
            Select(history, fates, Drained) ==
            Select(history, fates[..n], Drained) + (if fates[n] == Drained then [history[n]] else [])
  {
  }

  lemma SelectOne(history: seq<Record>, fates: seq<Fate>)
    requires |fates| == |history| && history != []
    ensures var n := |history| - 1;
            Select(history, fates, Drained) ==
            Select(history[..n], fates[..n], Drained) + (if fates[n] == Drained then [history[n]] else [])
  {
    var n := |history| - 1;
    SelectUnfolds(history, fates);
    hide Select;
    SelectPrefix(history[..n], [history[n]], fates[..n], Drained);
    FrontAndLast(history);
  }

  lemma TranslateOne(rs: seq<Record>, x: Record)
    ensures Translate(rs + [x]) == Translate(rs) + CallsOf(x)
  {
  }

  /** What one more arrival adds to the delivered calls. */
  lemma SelectLast(history: seq<Record>, fates: seq<Fate>)
    requires |fates| == |history| && history != []
    ensures var n := |history| - 1;
            Translate(Select(history, fates, Drained)) ==
            Translate(Select(history[..n], fates[..n], Drained)) +
              (if fates[n] == Drained then CallsOf(history[n]) else [])
  {
    var n := |history| - 1;
    var delivered := Select(history[..n], fates[..n], Drained);
    SelectOne(history, fates);
    if fates[n] == Drained {
      TranslateOne(delivered, history[n]);
    } else {
      assert delivered + [] == delivered;
    }
  }

  lemma NewestBefore(history: seq<Record>, key: DoomKey)
    requires history != [] && KeyOf(history[|history| - 1]) != key
    ensures forall i: nat :: IsNewest(history, key, i) <==> IsNewest(history[..|history| - 1], key, i)
  {
    hide KeyOf;
  }
}
