# A verified model of win0-doom

win0-doom runs Doom as a native Windows process without the Win32 subsystem. A boot-start kernel driver shows its frames
in a display aperture and mirrors the keyboard for it; a platform layer gives it files and key events; two scripts take
and judge screenshots. This project models those four programs in Dafny 4.11 and proves what they promise. Nothing here
was executed: every statement below is one the Dafny verifier checks, with `dafny verify dfyconfig.toml`.

## How it is organised

| file | models |
|---|---|
| `Helpers.dfy` | optional values, minimum and maximum |
| `Records.dfy` | keyboard records and their twelve-byte layout |
| `KeyboardRing.dfy` | one iteration of the ring's loops on slots and indices, and the bounded sequence it refines |
| `KeyLedger.dfy` | runs of queueing, draining and opening, and the fate of every arrival |
| `LossBound.dfy` | exactly when no key is overwritten |
| `Serialization.dfy` | callbacks, drains and opens interleaved one loop iteration at a time |
| `Display.dfy` | the picture a presented frame makes |
| `ControlDevice.dfy` | the control device: class `ControlExtension`, its ring, its aperture, its requests |
| `DoomKeys.dfy`, `DoomInput.dfy`, `DoomClient.dfy` | scan codes to Doom keys, whole runs, and class `Client` that polls |
| `Sampling.dfy`, `Ppm.dfy`, `ScreenCheck.dfy` | the colour count, the PPM reader, and the whole way round |
| `NativeFiles.dfy`, `NativePaths.dfy` | positioned files, path rewriting and volume discovery |
| `KeyboardFilter.dfy`, `DriverLifetime.dfy` | interposing on the keyboard, and loading to unloading |

Code that updates state in place is a class or an array method whose `ensures` equates the new state with a function of
the old one; the theorems are lemmas about those functions and about runs of them.

## Main results

- **Keyboard.** The wrapped indices refine a sequence bounded by one less than the slot count, so the 128-entry ring
  keeps 127 records. Over every run each arrival is exactly one of drained, overwritten, discarded and pending. Every
  interleaving of the critical sections equals the serial run, in lock order, of the operations the threads were
  started with, every serial run is reached by one, what the drains hold put together is exactly the drained arrivals,
  and every thread finishes. Over any run of requests only accepted get-keyboard requests touch the ring. Nothing is
  overwritten after an open if and only if every window of k inter-poll intervals brings at most 127 + 32(k - 1)
  records. Under every interleaving Doom is told the translation of exactly what was drained; a key's state is wrong
  exactly when its newest record to leave the ring was overwritten, or discarded by an open, and has another direction
  than its newest drained one.
- **Picture.** An accepted present shows exactly the swapped, enlarged frame, each display word written once; any run
  of requests shows the last accepted frame. The PPM files accepted are exactly the printed ones, and read back as
  printed. The colours counted in a screenshot are exactly the frame's distinct low-24-bit colours for every sampling
  step from 1 to 4; for a larger step they are the frame's exactly when every word of it has the colour of a word that
  is sampled, and for each such step some frame is undercounted.
- **Files.** The file layer refines a byte stream with a cursor over every run, the cached length being right all the
  way exactly when no write that transfers nothing happens past the end; chunked writes read back in any chunks. The
  volume cache is the volume of the first open that succeeds; every later open asks that volume once and no other.
  Path rewriting fills its buffer exactly and is idempotent.
- **Driver.** Any number of keyboards share the ring: in every run its slots hold the pending part of one history of
  arrivals, in which each callback's range of records is one contiguous block; what is passed on to the class driver
  is the same whatever the ring's size and whenever it is drained or opened. A filter is connected exactly from its
  first well-formed connect on, and each callback since is passed on once, unchanged. Every kernel resource is
  released exactly once, whatever fails and in whatever order keyboards come and go, no device object before what
  belongs to it, and every field the driver uses is proved to be of a device that has not been deleted.

Where the code and its documentation differ, the model follows the code: the "128-entry ring" (README.md:94) holds 127
records; the cached volume (README.md:32-35) is that of the first open that succeeds, whatever file that opens, and a
rooted name caches volume 0 unless only a repeated request for the same path succeeds; a connect rejected by the lower
driver leaves the filter connected.

Properties that fail in part are stated with their exact condition, and with an input on which they fail:

| property | exact condition | failing input |
|---|---|---|
| no key is overwritten | `LossBound.ExactLossBound` | `LossBound.BurstOf128LosesTheOldest` |
| Doom knows whether a key is down | `DoomInput.KeyIsWrongExactlyWhenNewestLost` | `DoomInput.KeyStaysStuck`, `DoomInput.OpenLosesARelease` |
| sampling finds every colour | `Sampling.ExactIffColorsAreFound` | `Sampling.LargerStepsMiscount` |
| the cached length is the real one | `NativeFiles.FilesRefineStreams` | `NativeFiles.AnEmptyWriteUnsyncs` |
| end of file means nothing to read | `NativeFiles.EofIsExact` | `NativeFiles.UnqueriedFileLooksEmpty` |
| a told position can be sought | `NativeFiles.TellThenSeek` | `NativeFiles.ToldPositionIsLost` |
| the cached volume has the game data | `NativePaths.LaterOpensTryOneVolume` | `NativePaths.DataOnAnotherVolumeIsMissed` |

## Model

| member | source | states |
|---|---|---|
| Records.DecodeAllEncodeAll | native/win0-doom.c:577-588 | the records the driver copies out as bytes are the records the client reads back, whatever follows them in the buffer |
| Records.FieldsInBytes | driver/win0doom-display.c:146-150 | the fields of a record are little-endian words at offsets 0, 2, 4, 6 and a double word at 8 |
| Records.EncodedAt | driver/win0doom-display.c:146-153 | the i-th record copied out is at offset 12 i |
| KeyboardRing.BatchesMerge | driver/win0doom-display.c:94-102 | queueing two batches is queueing their concatenation, however much is overwritten |
| KeyboardRing.PutRefines | driver/win0doom-display.c:95-101 | one queueing iteration on the wrapped indices appends to a sequence bounded by slots - 1, dropping the oldest when full |
| KeyboardRing.TakeRefines | driver/win0doom-display.c:144-153 | one draining iteration removes the oldest pending record, which is the one in the read slot |
| KeyboardRing.ResetRefines | driver/win0doom-display.c:80 | opening empties the pending sequence |
| KeyboardRing.QueueContinues | driver/win0doom-display.c:94-102 | after any number of iterations the ring holds the last slots - 1 records of what it held plus what was queued |
| KeyboardRing.DrainContinues | driver/win0doom-display.c:144-154 | after any number of iterations the ring holds what it held without that many oldest records |
| KeyboardRing.QueueLoopRefines | driver/win0doom-display.c:94-102 | the whole queueing loop, run for any number of its records, is one bounded append of them |
| KeyboardRing.DrainLoopRefines | driver/win0doom-display.c:144-154 | the whole draining loop copies out exactly the first min(pending, capacity / 12) records and leaves the rest |
| ControlDevice.ControlExtension.CreateClose | driver/win0doom-display.c:67-84 | an open discards exactly the pending records, a close nothing |
| ControlDevice.ControlExtension.QueueKeyboard | driver/win0doom-display.c:86-104 | a batch of any length leaves the last capacity records of old contents plus batch, and the arrivals history gains the batch |
| ControlDevice.ControlExtension.DrainKeyboard | driver/win0doom-display.c:134-157 | removes exactly the first min(pending, capacity / 12) records, writes their bytes and nothing else to the output |
| ControlDevice.ControlExtension.PresentFrame | driver/win0doom-display.c:194-212 | every display pixel gets the red, green and blue bytes of the source pixel at (x/4, y/4), nothing outside the display changes, every display word is written in ascending order exactly once, no index overflowing 32 bits |
| ControlDevice.ControlExtension.DeviceControl | driver/win0doom-display.c:159-214 | each request, including unknown and undersized ones, changes aperture, ring and shared buffer and answers exactly as `Serve` says |
| ControlDevice.RequestsDrainTheRing | driver/win0doom-display.c:159-214 | over any run of requests the ring and all outputs are those of the ring's own run of the accepted get-keyboard requests, everything else leaves the ring alone, and each request gets its status |
| ControlDevice.DisplayShowsLastFrame | driver/win0doom-display.c:178-213 | over any run of requests the aperture is the original one with the last accepted frame presented, or unchanged |
| KeyLedger.AgreeAlways | driver/win0doom-display.c:77-157 | over every run the bounded ring and the accounting machine agree on what is pending and what was drained |
| KeyLedger.Conservation | driver/win0doom-display.c:77-157 | every arrival is exactly one of drained, overwritten, discarded, pending; pending is a suffix of the history; drained records keep arrival order |
| KeyLedger.DrainsAreBlocks | driver/win0doom-display.c:143-155 | each drain returns one contiguous block of the history starting at the oldest pending record |
| LossBound.FitsIffWindows | driver/win0doom-display.c:94-102 | the queue recurrence stays within the capacity if and only if every window of intervals fits |
| LossBound.ExactLossBound | driver/win0doom-display.c:94-154 | after an open nothing is overwritten if and only if every window of k inter-poll intervals brings at most capacity + batch (k - 1) records |
| LossBound.BurstOf128LosesTheOldest | driver/win0doom-display.c:94-102 | 128 records between an open and the first poll overwrite exactly the oldest |
| Serialization.InvariantAlways | driver/win0doom-display.c:79-155 | every step of every interleaving keeps the lock, ring and output invariant |
| Serialization.ThreadsAreTheStartedOnes | driver/win0doom-display.c:79-155 | every started thread does what it was started with, there are no others, and the lock order is the order of the steps that took it |
| Serialization.InterleavingsAreSerial | driver/win0doom-display.c:79-155 | at most one critical section is active, and contents and every drain's output equal those of the serial run, in lock order, of the operations the threads were started with |
| Serialization.EverySerialRunHappens | driver/win0doom-display.c:79-155 | conversely every sequence of operations is the serial run of some interleaving that finishes every thread |
| Serialization.InterleavingsConserve | driver/win0doom-display.c:77-155 | under every interleaving each arrival, in lock order, is exactly one of drained, overwritten, discarded, pending, and what the draining threads copied out, in lock order, is exactly the drained ones, each once |
| Serialization.SerialOrderIsRealTime | driver/win0doom-display.c:93-103 | an operation finished before another started precedes it in the serial order |
| Serialization.NoDeadlock | driver/win0doom-display.c:143-155 | while a thread is unfinished some lock holder or waiter can step |
| Serialization.EveryThreadFinishes | driver/win0doom-display.c:93-103 | once no more threads start, the number of further steps is bounded, and a run that can take no step has finished every thread |
| DoomKeys.TranslateConcat | native/win0-doom.c:577-598 | translation of a record stream does not depend on how it is cut |
| DoomKeys.DownIffLeftDown | native/win0-doom.c:584-597 | Doom holds a key down if and only if the newest drained record for it is a press |
| DoomKeys.DownIffBreakBitClear | native/win0-doom.c:584-596 | a key is down if and only if its newest record has bit 0 of the flags clear |
| DoomKeys.KeyHasItsCode | native/win0-doom.c:494-575 | which scan codes name a key, for every code, every flags word and every key, with bit 1 of the flags for the extended codes |
| DoomKeys.TwoCodesOneKey | native/win0-doom.c:494-575 | two codes name one key if and only if they are equal with equal bit 1, or both shifts, or control or alt with and without bit 1 |
| DoomKeys.WrongExactlyWhenNewestLost | native/win0-doom.c:494-597 | a key's final state differs from lossless delivery if and only if its newest record was lost and its direction differs from that of the newest drained record for the key |
| DoomInput.CallsTranslateDelivered | native/win0-doom.c:577-637 | the key calls made over any run are the translation of everything drained |
| DoomInput.OpenForgetsThePast | driver/win0doom-display.c:77-82 | after an open Doom is told what it would be told had the ring just been created |
| DoomInput.EndToEnd | native/win0-doom.c:577-637 | after an open the calls translate the records drained since; if nothing was lost those and the pending ones are all arrivals since |
| DoomInput.KeyIsWrongExactlyWhenNewestLost | native/win0-doom.c:577-637 | over every run, opens included, a key's state is wrong if and only if its newest settled record was not drained and its direction differs from that of the newest drained record for the key |
| DoomInput.OverwritingIsHarmless | native/win0-doom.c:584-597 | after an open and until the next, a key's state is wrong if and only if its newest settled record was overwritten and its direction differs from that of the newest drained record for the key |
| DoomInput.KeyStaysStuck | driver/win0doom-display.c:94-102 | a press that is polled and a release lost in a burst of 128 records leave the key down however much is polled afterwards |
| DoomInput.OpenLosesARelease | driver/win0doom-display.c:77-82 | an open while a release is pending discards it and leaves the key down, with nothing overwritten |
| DoomInput.KeysUnderEveryInterleaving | native/win0-doom.c:577-637 | under every interleaving of callbacks, drains and opens, the outputs translated in lock order are the translation of exactly the drained arrivals and the calls of the serial run, and a key is wrong on the same exact condition |
| DoomInput.PollsEmptyTheRing | native/win0-doom.c:600-637 | polls without arrivals empty the ring if and only if they have room for what is pending |
| DoomInput.FourPollsSuffice | native/win0-doom.c:608-619 | four polls of 384 bytes empty the 128-slot ring after any run |
| DoomClient.Client.DispatchRecord | native/win0-doom.c:584-597 | one record makes no call if its scan code names no key, a key-down if bit 0 of its flags is clear, and a key-up if it is set |
| DoomClient.Client.DispatchKeyboardRecords | native/win0-doom.c:577-598 | Doom is told the translation of the whole records among the given bytes, in order |
| DoomClient.Client.PollKeyboard | native/win0-doom.c:600-637 | a poll removes the oldest records that fit and tells Doom their translation; the first failure ends polling for good |
| Display.SwapOfBytes | driver/win0doom-display.c:200-204 | in bytes, the pixel conversion swaps red and blue, keeps green and clears alpha |
| Display.PresentedAt | driver/win0doom-display.c:194-212 | display pixel (x, y) is the red/blue-swapped, alpha-cleared source word at (x/4, y/4), all other words unchanged |
| Display.BytesOnDisplay | driver/win0doom-display.c:198-209 | in bytes: display pixel (x, y) shows bytes o, o + 1, o + 2 of the source for o = 4 (320 (y/4) + x/4), red highest |
| Display.PresentRoundTrip | driver/win0doom-display.c:199-209 | sampling one pixel per block and swapping back recovers the low 24 bits of the whole frame |
| Display.LastFrameWins | driver/win0doom-display.c:194-212 | a later frame replaces an earlier one completely, so presenting again changes nothing |
| Sampling.SampleColors | setup/scripts/win0-verify.ps1:32-66 | for a bitmap of any stride and pixel size the loops collect exactly the sampled colours, and the verdict is their count against the threshold |
| Sampling.ColorInBytes | setup/scripts/win0-verify.ps1:40-43 | the packed colour is the three bytes at y stride + x bytes-per-pixel, the first highest |
| Sampling.LoopEnds | setup/scripts/win0-verify.ps1:39-41 | a sampling loop over a bitmap that is not empty ends if and only if the step is positive |
| Sampling.Sampled | setup/scripts/win0-verify.ps1:39-45 | in any bitmap, a colour is collected if and only if a pixel with both coordinates multiples of the step has it |
| Sampling.ColorOfFrame | setup/scripts/win0-verify.ps1:42-43 | the packed colour of a pixel of the picture is the low 24 bits of the frame word it shows |
| Sampling.SampledAreHit | setup/scripts/win0-verify.ps1:39-45 | for every frame and every step, a colour is collected if and only if it is that of a frame word in whose block both a row and a column are multiples of the step |
| Sampling.ExactIffColorsAreFound | setup/scripts/win0-verify.ps1:39-45 | for every frame and every step, the collected colours are the frame's if and only if every word shares its colour with a word that is sampled |
| Sampling.SamplingIsExact | setup/scripts/win0-verify.ps1:39-45 | for every frame and every step from 1 to 4 the collected colours are exactly the frame's distinct low-24-bit colours |
| Sampling.LargerStepsMiscount | setup/scripts/win0-verify.ps1:22 | for every larger step some frame is undercounted |
| Ppm.DecimalRoundTrip | setup/scripts/win0-screendump.ps1:93-95 | a printed number reads back as itself |
| Ppm.DecimalInAscii | setup/scripts/win0-screendump.ps1:88-95 | a printed number is in ASCII digits, the last one last |
| Ppm.DecimalIsNumeral | setup/scripts/win0-screendump.ps1:93-95 | a printed 32-bit number is a header numeral that converts to the number |
| Ppm.LargeNumberIsRefused | setup/scripts/win0-screendump.ps1:93-95 | a number of more than 31 bits does not convert |
| Ppm.Reader.ReadToken | setup/scripts/win0-screendump.ps1:76-89 | the scanner returns the next token and leaves the position behind it, or reports the end of the file |
| Ppm.Reader.Read | setup/scripts/win0-screendump.ps1:91-109 | reading a file yields exactly the parsed image or the first error in the order of the checks |
| Ppm.GapIsSkipped | setup/scripts/win0-screendump.ps1:77-84 | however white space and comments are mixed, the scanner arrives at the text behind them |
| Ppm.SkippedInBytes | setup/scripts/win0-screendump.ps1:77-84 | the scanner skips bytes up to 32, and from a byte 35 to the next byte 10 |
| Ppm.PpmRoundTrip | setup/scripts/win0-screendump.ps1:76-109 | any header, with whatever numerals convert, and body read back as exactly the dimensions and packed pixels, or are rejected exactly when data is short or the size negative |
| Ppm.PlainFileIsRead | setup/scripts/win0-screendump.ps1:91-109 | the literal bytes of P6, width, height, 255 and a body are read as exactly that picture, pixel by pixel, or rejected as truncated |
| Ppm.MagicDecides | setup/scripts/win0-screendump.ps1:91-92 | a file is rejected for its magic number if and only if its first token is neither P6 nor p6 |
| Ppm.AcceptedIsPrinted | setup/scripts/win0-screendump.ps1:76-109 | conversely, whatever texts convert, every accepted file is a printed header and body, and what was read is its picture |
| ScreenCheck.ScreenshotCountsFrameColors | setup/scripts/win0-screendump.ps1:91-109 | for every frame, header and step from 1 to 4 the screenshot's sampled colours are the presented frame's colours |
| NativeFiles.NativeFile.Read | native/win0-doom.c:333-360 | reads what lies at the position, advances by it, and leaves the rest of the buffer alone |
| NativeFiles.NativeFile.Write | native/win0-doom.c:362-392 | stores what the kernel accepts at the position, advances by it and grows the cached length |
| NativeFiles.NativeFile.Seek | native/win0-doom.c:394-410 | moves to the target, or rejects a negative one |
| NativeFiles.NativeFile.constructor | native/win0-doom.c:306-320 | a queried file starts synced; appending starts at the cached length |
| NativeFiles.StepKeepsValid | native/win0-doom.c:333-410 | the position never becomes negative and a rejected seek changes nothing |
| NativeFiles.ReadReturns | native/win0-doom.c:333-360 | byte by byte what a read returns, and that it falls short only at the end of the file |
| NativeFiles.WriteStores | native/win0-doom.c:362-392 | byte by byte what a write stores: the data taken, every other byte unchanged, zeros in a gap |
| NativeFiles.SeekGoes | native/win0-doom.c:394-410 | where a seek from each origin goes and when it is refused |
| NativeFiles.StepRefines | native/win0-doom.c:333-410 | each step replies and moves as the byte stream does, and the cached length stays the real one except in one named case |
| NativeFiles.FilesRefineStreams | native/win0-doom.c:333-422 | the cached length is the real one all through a run if and only if no write transfers nothing past the end, and then replies, bytes and cursor are the byte stream's |
| NativeFiles.AnEmptyWriteUnsyncs | native/win0-doom.c:362-392 | a write past the end that transfers nothing makes the cached length wrong, and a seek from the end then misses |
| NativeFiles.EofIsExact | native/win0-doom.c:418-422 | end of file means a positive read returns nothing, if and only if the position is not between cached and real length |
| NativeFiles.UnqueriedFileLooksEmpty | native/win0-doom.c:306-320 | a file with bytes whose length could not be queried reports end of file though a read returns a byte |
| NativeFiles.TellThenSeek | native/win0-doom.c:394-416 | seeking to a told position succeeds and restores it if and only if it fits in 31 bits |
| NativeFiles.ToldPositionIsLost | native/win0-doom.c:394-416 | two seeks reach position 2^31, and seeking to what is told there fails and moves nothing |
| NativeFiles.PositionIsBounded | native/win0-doom.c:358-408 | how far a run can move the position, so when 64 bits suffice |
| NativeFiles.ChunksAreWritten | native/win0-doom.c:362-392 | however data is cut into writes, it is stored contiguously from the position on |
| NativeFiles.ChunksAreRead | native/win0-doom.c:333-360 | however reads are cut, together they return the bytes from the position on |
| NativeFiles.WriteSeekRead | native/win0-doom.c:333-416 | writing in any chunks, seeking back and reading in any chunks returns the data |
| NativePaths.AsciiPathToNative | native/win0-doom.c:201-226 | the buffer holds exactly the first capacity - 1 characters of the native path and a NUL, the rest untouched |
| NativePaths.DotsAreDropped | native/win0-doom.c:210-213 | a leading ./ or .\ makes no difference |
| NativePaths.PathIsSpelled | native/win0-doom.c:214-225 | character by character: the prefix, unless the name is rooted, then the name with slashes turned |
| NativePaths.PathIsCutToFit | native/win0-doom.c:215-225 | the path is the full path, cut only if the buffer is too small |
| NativePaths.PrefixTable | native/win0-doom.c:116-130 | the thirteen prefixes, in order |
| NativePaths.RewritingIsIdempotent | native/win0-doom.c:201-226 | a rewritten path is left alone by a second rewriting with any prefix of the table |
| NativePaths.Platform.NativeOpen | native/win0-doom.c:228-304 | the open lands on the first volume that accepts it, and the paths tried are exactly the cached volume's, or those of all volumes up to the first success |
| NativePaths.FreshTriesInOrder | native/win0-doom.c:257-295 | a fresh process asks for volumes 0, 1, 2, ... up to the first that accepts, or all thirteen |
| NativePaths.AskedAndAccepted | native/win0-doom.c:264-294 | the request for a volume is the native path there with the mode's disposition, accepted when the kernel says so at that try |
| NativePaths.CacheIsSticky | native/win0-doom.c:257-259 | a set cache never changes |
| NativePaths.VolumeDiscovery | native/win0-doom.c:257-295 | over any run the cache is unset until the first success and then for ever the lowest volume that accepted it |
| NativePaths.LaterOpensTryOneVolume | native/win0-doom.c:257-295 | over any run, every open after the first success asks exactly for the path on the cached volume, and succeeds if and only if that volume accepts it |
| NativePaths.DataOnAnotherVolumeIsMissed | native/win0-doom.c:257-295 | if the first file opened lies on volume 0 and the game data elsewhere, the data is never found, though a fresh process finds it |
| NativePaths.RootedNameCachesVolumeZero | native/win0-doom.c:210-295 | a rooted name asks for one path at every try; it caches volume 0 if and only if the first try succeeds, and a later volume exactly when only a later try does |
| NativePaths.ModeDecides | native/win0-doom.c:254-255 | a w empties or creates the opened file, an a alone keeps or creates it, neither changes nothing; no other file changes |
| NativePaths.ReadingChangesNothing | native/win0-doom.c:254-255 | over any run, opening with modes without w and a changes and creates no file |
| KeyboardFilter.FilterExtension.InternalDeviceControl | driver/win0doom-display.c:216-244 | a connect is refused, rejected or taken over exactly as `Connect` says; other requests are forwarded untouched |
| KeyboardFilter.FilterExtension.ServiceCallback | driver/win0doom-display.c:106-132 | the records from begin up to end are queued once, none for a backward range and as many as the 32-bit count says for a huge one, and the saved callback is called once with the same arguments |
| KeyboardFilter.RingServesAllKeyboards | driver/win0doom-display.c:86-157 | in any run of any keyboards, drains and opens over one ring, the slots hold the pending part of the arrival history and what was drained is its drained part |
| KeyboardFilter.CallbackOwnsABlock | driver/win0doom-display.c:121-123 | the records of each callback's range are one contiguous block of the arrival history, and the blocks before and after it are the rest |
| KeyboardFilter.ChainIgnoresRing | driver/win0doom-display.c:118-131 | the calls passed on and the connects sent on are the same for any ring and any interleaved drains and opens |
| KeyboardFilter.AtMostOneConnect | driver/win0doom-display.c:227-241 | each filter accepts and sends on at most one connect, and lower drivers see only the substituted callback |
| KeyboardFilter.ConnectedIffAsked | driver/win0doom-display.c:227-241 | over any run a filter is connected if and only if some connect for it was well formed, to what the first such asked for, and exactly the callbacks since then have been passed on |
| KeyboardFilter.ConnectIsAnswered | driver/win0doom-display.c:227-243 | over any run, how each connect is answered and what the lower driver is given |
| KeyboardFilter.Transparent | driver/win0doom-display.c:118-131 | once connected, the saved target never changes and each callback reaches it exactly once, unchanged |
| KeyboardFilter.RejectionBelowIsNotUndone | driver/win0doom-display.c:238-243 | an accepted connect stays accepted even if the lower driver fails it |
| DriverLifetime.Driver.DriverEntry | driver/win0doom-display.c:342-399 | loading makes exactly the listed kernel calls, undoing earlier steps when a later one fails |
| DriverLifetime.Driver.AddDevice | driver/win0doom-display.c:282-312 | adding a keyboard inserts an attached filter at the head of the list or leaves it unchanged |
| DriverLifetime.Driver.RemoveDevice | driver/win0doom-display.c:246-267 | a filter is detached, deleted and unlinked, its memory freed; the control device refuses and stays |
| DriverLifetime.Driver.DriverUnload | driver/win0doom-display.c:314-340 | the teardown loop ends with an empty list and every device's memory freed, releasing in list order what each device holds and the device |
| DriverLifetime.AddKeeps | driver/win0doom-display.c:282-312 | adding keeps the account of held resources exact at whatever step it fails |
| DriverLifetime.RemoveKeeps | driver/win0doom-display.c:261-266 | removing keeps the account of held resources exact |
| DriverLifetime.EverythingIsReleasedOnce | driver/win0doom-display.c:246-399 | every run's kernel calls replay without double or missing release, to nothing held after a failed load or an unload |
| DriverLifetime.LoadAcquiresInOrder | driver/win0doom-display.c:352-384 | loading acquires the device, the mapping and the link in this order, up to what fails |
| DriverLifetime.HeldFollowsEvents | driver/win0doom-display.c:246-399 | after a load the control device, mapping and link are held, and device and attachment of exactly the keyboards added and not removed |
| DriverLifetime.NothingIsReleasedTooEarly | driver/win0doom-display.c:261-383 | no device object is released while its attachment is held, nor the control device while the mapping or the link is |

## Left out

- The kernel and NT interfaces themselves: files are byte sequences whose reads fail at the end and whose writes extend with zeros, the spin lock is mutual exclusion, allocations and attachments may fail.
- PureDOOM is not part of this model: a frame is an arbitrary byte buffer and key events are a log.
- The scan-code table `DoomKeys.ScanCodeToDoom` is the source's own, split into the rows of the keyboard; no separate keyboard layout is modelled.
- NativePaths.ModeDecides: what each disposition does to a file is the kernel's contract, modelled as a map from paths to bytes.
- IRQL, uncached memory, hardware addresses, and requests racing with removal or unload: removal and unload happen when nothing else runs.
- `Serialization.InterleavingsAreSerial`: a loop iteration is one step, because the lock excludes every other access between its loads and stores.
- ControlDevice.ControlExtension.DrainKeyboard: its output buffer is required to be memory outside the device, which the kernel guarantees; the same holds for the frame and request buffers.
- DoomClient.Client.PollKeyboard: the client's buffer stands for the system buffer that the I/O manager copies the returned bytes from.
- KeyboardFilter.FilterExtension.ServiceCallback: the pointer pair must point into one array of records, as the class driver's contract says; the consumed count that the class callback writes is not modelled.
- DriverLifetime: a deleted device's memory has no fields, so that no use of one can be verified; what it might really hold is not modelled.
- DriverLifetime: an attachment is named after its filter device, and the power and forwarding entries are not modelled.
- NativeFiles.AnEmptyWriteUnsyncs: that the kernel may answer a non-empty write with success and no bytes transferred is an assumption about the kernel; the model allows every count up to what was asked for.
- NativeFiles.NativeFile.Write: what another handle or process writes to the same file is not modelled beyond the exact conditions on the cached length.
- Arithmetic on file positions is unbounded; `NativeFiles.PositionIsBounded` says for which runs 64 bits suffice.
- Freeing the file object of a failed open, the messages it prints, and the access mask it asks for.
- Sampling.SampleColors: requires a positive step, because below 1 the script's loops do not end (`Sampling.LoopEnds`); pixel formats with a fraction of a byte per pixel and negative strides, for which the script cannot allocate its buffer, are not modelled.
- Ppm.Reader.Read: how the shell converts a header token that is not a decimal numeral is an arbitrary function; the magic number is compared as bytes without regard to ASCII case; the bitmap constructor's own checks come later.
- The emulator's screen dump is taken to write each display word's red, green and blue bytes, and saving and loading the image to be lossless.
- The clock, printing, building, signing, deployment and network code, whose members would be easy.
