# Models of QMK's stateful cores, with proofs

A Dafny model of the parts of the firmware and its UF2 tool that keep state, run over devices that misbehave, or
promise a round trip. Each part has the same shape: functions on values say what one step does; a class with
fields, arrays and loops is the source's imperative form and is proved to compute those functions; lemmas about
the functions state what holds on every input and every run. `dafny verify dfyconfig.toml` checks everything.

| part | files | source |
|---|---|---|
| tap/hold decisions | `Tapping`, `TappingEngine`, `TappingFlow`, `TappingOrder`, `TappingPairing`, `TappingProgress`, `TappingTerm`, `TappingFate`, `TappingTaps`, `TappingExamples` | `quantum/action_tapping.c` |
| crash-safe configuration, dynamic keymap, macro reader | `Eeprom`, `Via`, `ViaDriver`, `DynamicKeymap`, `MacroReader` | `quantum/via.c`, `quantum/dynamic_keymap.c`, `quantum/keymap_common.c` |
| page-split memory writers | `PagedMemory`, `SpiMemory`, `I2cEeprom` | `drivers/flash/flash_spi.c`, `drivers/eeprom/eeprom_spi.c`, `drivers/eeprom/eeprom_i2c.c` |
| dirty-block display cache | `Display`, `DisplayCoherence`, `DisplayContents`, `DisplayRuns`, `DisplayLimits`, `St7565` | `drivers/lcd/st7565.c` |
| UF2 and Intel HEX | `Uf2`, `Uf2RoundTrip`, `Uf2Families`, `Uf2Conv` | `util/uf2conv.py` |
| two macros in one array | `DynamicMacro`, `DynamicMacroEngine` | `quantum/dynamic_macro.h` |
| matrix scans to events | `MatrixBits`, `Matrix` | `quantum/keyboard.c` |
| layer lookup and cache | `LayerCache`, `LayerActions` | `quantum/action_layer.c` |
| deferred execution | `DeferredExec` | `quantum/deferred_exec.c` |
| rotary encoders | `Encoder` | `quantum/encoder.c` |

`Modular` (quotients and remainders), `Widths` (8-, 16- and 32-bit unsigned integers), `Keys` and `Options` are shared.

## Where the code does less than one would hope

The model follows the code. These properties do not hold of it as they stand; the lemma named gives the exact
condition, or a concrete input.

- Dispatch order needs events to arrive in turn. The drain loop can stop with records waiting behind a released
  tapping key; an event that arrives then can pass them (`TappingOrder.InTurnExactly`,
  `TappingExamples.ReleaseBeforePress`).
- A tap press can be paired with a hold release. When a new release of the undecided key arrives in time while an
  earlier one, which belongs to the press, waits in the buffer, the engine takes the new one. That is the only
  way the pairing invariant breaks (`TappingPairing.ArriveSoundExactly`); a run on which it splits a stroke is
  `TappingExamples.MispickSplits`.
- A press of the tapping key after its quick-tap term starts a new term without a look at what waits (lines 388-390
  of `quantum/action_tapping.c`), so that a release which came in time can count as too late
  (`TappingTerm.TakenOverExactly`). Every other press that starts a term is decided by its own release, when
  permissive hold and hold-on-other-key-press are off (`TappingTerm.TapExactly`).
- The crash-safety scheme needs the first magic byte to differ from the erased value
  (`Via.CrashSafeExactly`); two decimal digits always do (`Via.DateIsNotErased`).
- The macro reader leaves its buffer when it holds exactly as many NULs as the number of the macro
  (`MacroReader.StartsInsideExactly`). The source's comment that it cannot go past the end is wrong in this case.
  A code it does not know is sent together with bytes of an earlier word (`MacroReader.UnknownCodeRepeats`,
  `KnownExactly`).
- Nothing clears the keymap memo, so after a write that changes the remembered key it is stale
  (`DynamicKeymap.WriteKeepsMemoExactly`, `BufferKeepsMemoExactly`, `ResetKeepsMemoExactly`).
- The last sector and the last block of the flash are refused by the address check, while an address near 2^32
  passes it (`SpiMemory.ErasableExactly`).
- The I2C EEPROM driver computes the bus address once from the start of a write. On a chip whose bus address
  carries address bits, a write that crosses such a bank goes to the wrong one (`I2cEeprom.FlatExactly`); reads
  cross correctly. Its copy loop counts in 8 bits and never ends for a chunk of 256 bytes or more
  (`I2cEeprom.CopyEndsExactly`), which pages of that size give for the writes of `I2cEeprom.WriteEndsExactly`.
- The EEPROM drivers ignore the results of their transfers: one that breaks off leaves a hole in the middle of a
  write, which then is no longer a prefix (`PagedMemory.PrefixExactly`, `SpiMemory.SpiEeprom.EepromWriteBlock`).
  The flash driver stops at it (`SpiMemory.Flash.FlashWriteBlock`).
- A newline with less than a character left on the line does nothing (`DisplayCoherence.NewLineExactly`). The cache
  rests on two size conditions that the driver does not check: without them a character at some place
  (`DisplayLimits.DrawExactly`, `FontWidthExactly`) or a render (`RenderExactly`) loses coherence.
- `st7565_set_cursor` accepts a cursor with less than a character left before the end of the buffer, and the next
  character is then written past it (`DisplayRuns.CursorRoomExactly`; on the default display
  `DisplayRuns.CursorOverruns`). `st7565_write_raw_byte` brings an index behind the buffer to one past its end
  (`DisplayRuns.RawByteExactly`). `DisplayRuns.ArgumentsExactly` says of every run whether it stays inside.
- A UF2 block with a bad magic number, which `convert_from_uf2` means to skip, ends the conversion: building
  the message raises an exception (`Uf2RoundTrip.ReadNeedsMagic`, `ZeroBlockFails`). HEX files whose bytes go back
  to an earlier page cannot be read back (`Uf2RoundTrip.HexRoundTrip`). Converting one family of several also
  writes the padding of the other families' gaps (`Uf2Families.FamiliesRead`, `UnwantedLeavesExactly`).
- The two directions of an encoder share an entry of the layer cache (`LayerActions.EncoderDirectionsShare`). As
  `encoder_exec_mapping` sends each release right after its press, no event sequence it makes shows this.
- A table of more than 255 deferred entries can have a free slot and no free token
  (`DeferredExec.TokensSufficeExactly`, `LargeTableExhausts`).
- Encoder resolutions above 127 overflow the pulse counter (`Encoder.ResolutionExactly`). On the right half of a
  split keyboard the resolution is looked up by the local index, although the table is laid out for both halves
  (`Encoder.RightHalfExactly`).

## Model

| member | source | states |
|---|---|---|
| Tapping.ProcessKeepsQueueEvents | quantum/action_tapping.c:178-435 | Deciding about one record never adds, drops or reorders waiting events; it may only mark one of them as a tap. |
| TappingFlow.ProcessFlow | quantum/action_tapping.c:178-435 | Whatever branch is taken, the record is dispatched, held or left exactly once and behind what was decided before it, except on the overtaking branch (line 271), which leaves everything else as it was. |
| TappingFlow.DrainFlow | quantum/action_tapping.c:108-116 | The whole drain loop conserves events and their order, but for releases dispatched ahead. |
| TappingFlow.ArriveFlow | quantum/action_tapping.c:87-106 | A new event is dispatched, becomes the tapping key or joins the queue, exactly once; when it comes in turn, at the end of the order. |
| TappingFlow.RunConserves | quantum/action_tapping.c:87-120 | On every run, since the last overflow wipe, arrivals equal what was dispatched in order, plus the undecided key, plus the queue, plus the overtaking releases; overtaking dispatches are releases only. |
| TappingFlow.Conservation | quantum/action_tapping.c:87-120 | On every run, since the last overflow wipe, the physical dispatches, the undecided tapping key and the waiting buffer are as a multiset exactly the key events that arrived: nothing lost, nothing dispatched twice; synthesized releases are the only extras. |
| TappingFlow.RunInOrder | quantum/action_tapping.c:87-120 | When every event arrives in turn, dispatches other than overtaking releases, then the undecided key, then the queue, form a subsequence of the arrivals. |
| TappingOrder.DispatchOrder | quantum/action_tapping.c:87-120 | On such runs presses are dispatched in exactly the order in which they arrived, and whatever is dispatched ahead is a release. |
| TappingOrder.InTurnExactly | quantum/action_tapping.c:87-106 | One arrival keeps the order exactly when it comes in turn: it is a tick, the queue is empty, a press is undecided, or a released tapping key's term is over. |
| TappingOrder.PressesExactly | quantum/action_tapping.c:87-106 | One arrival keeps the order of the presses exactly when it comes in turn, is a release, or finds no press waiting. |
| TappingOrder.DrainKeys | quantum/action_tapping.c:108-116 | The drain loop never swaps two events of the same key, even by overtaking. |
| TappingOrder.KeyOrder | quantum/action_tapping.c:87-120 | When keys go down and up in turn, the order of each single key's events is the order of arrival: no release precedes its press. |
| TappingPairing.TurnSound | quantum/action_tapping.c:178-435 | Every turn of the drain loop, whatever branch it takes, keeps the pairing invariant. |
| TappingPairing.DrainSound | quantum/action_tapping.c:108-116 | The whole drain loop keeps it, from every state. |
| TappingPairing.ArriveSoundExactly | quantum/action_tapping.c:87-106 | An event that arrives in turn keeps the invariant if and only if it is not an in-time release of the undecided key while an earlier release of that key waits in the buffer: the guard of line 186 and one scan of the buffer, before the call. |
| TappingPairing.RunSound | quantum/action_tapping.c:87-120 | The invariant holds on every run of such arrivals and of ticks: a decided tap key's release waits marked or is still to come, buffered presses are unmarked, a released tapping key was tapped. |
| TappingPairing.PairedMeans | quantum/action_tapping.c:186-199 | The invariant's summary of the trace means: each dispatched press has the tap flag of the next dispatched release of its key, synthesized ones included. |
| TappingPairing.TapHoldPairing | quantum/action_tapping.c:186-397 | On every such run each press is dispatched as a tap exactly when the next release of its key, physical or synthesized, is. |
| TappingProgress.LateTickProgress | quantum/action_tapping.c:329-338 | A tick later than the current tapping key's term strictly shrinks a non-empty waiting buffer; on an empty one it leaves no press undecided. |
| TappingProgress.TicksSettle | quantum/action_tapping.c:87-120 | From any state, one late tick more than there are waiting records empties the buffer and settles every press. |
| TappingProgress.DrainNeverGrows | quantum/action_tapping.c:108-116 | The drain loop ends and never lengthens the queue. |
| TappingTerm.TapExactly | quantum/action_tapping.c:178-435 | With permissive hold and hold-on-other-key-press off, a press that starts a term is sent as a tap if and only if its own release, within the term, already waits or comes; otherwise it is sent as a hold, or is still undecided and the term has not ended. |
| TappingTerm.TermDecides | quantum/action_tapping.c:185-338 | From any undecided state, over any calls to come: a tap once the release comes in time, a hold once an event past the term comes first, undecided until then. |
| TappingTerm.TakenOverExactly | quantum/action_tapping.c:388-390 | A press taken over here, without a scan of the buffer, is sent as a tap by the drain loop if and only if its release waits, in time, and every record in front of it is a release that overtakes. |
| TappingFate.FateExactly | quantum/action_tapping.c:185-338 | In every configuration, whatever the hooks answer, an undecided press is decided by the first record that decides it, arriving or waiting: its own release in time makes it a tap; a nested release under permissive hold, a press under hold-on-other-key-press or anything past the term makes it a hold; until then it is held. |
| TappingFate.NestedReleaseHolds | quantum/action_tapping.c:207-238 | Permissive hold: a release of another key whose press waits sends the undecided press as a hold, in the same call. |
| TappingFate.OtherPressHolds | quantum/action_tapping.c:273-284 | Hold on other key press: so does any other press. |
| TappingFate.FirstDecides | quantum/action_tapping.c:185-338 | With permissive hold a matter of the key and no release retained, the first deciding one of the arriving events decides, whatever waits. |
| TappingTaps.PlainPasses | quantum/action_tapping.c:320-434 | With nothing undecided, a plain key and the release of any but the tapping key go out at once, as they are. |
| TappingTaps.TermStarts | quantum/action_tapping.c:299-317 | With nothing undecided the press of a tap key starts a term; a key held down on a repeated tap is released first, by a record made up at that time. |
| TappingTaps.TapsInARow | quantum/action_tapping.c:374-387 | Strokes in a row within the quick-tap term: the n-th press and its release go out at once as the n-th tap, counting up to 15. |
| TappingTaps.LaterStrokeStartsAnew | quantum/action_tapping.c:378-390 | Past the quick-tap term, or after another key was pressed, the press starts a new term instead. |
| TappingTaps.EighthClears | quantum/action_tapping.c:88-102 | Seven records can wait; an eighth clears the engine and the host's keys. |
| TappingExamples.ReleaseBeforePress | quantum/action_tapping.c:108-116 | A concrete run on which an event arrives out of turn and a release is dispatched before an earlier press of another key. |
| TappingExamples.MispickSplits | quantum/action_tapping.c:186-199 | A concrete run, all of whose events arrive in turn, with one arrival of that kind: a press goes out as a tap and its own release as a hold. |
| TappingEngine.Engine.WaitingBufferEnq | quantum/action_tapping.c:441-457 | On the 8-slot ring: no-events are accepted and ignored, a full ring (7 records) refuses, otherwise the record is appended. |
| TappingEngine.Engine.WaitingBufferTyped | quantum/action_tapping.c:472-483 | True exactly when the ring holds an event of the same key in the other direction. |
| TappingEngine.Engine.WaitingBufferScanTap | quantum/action_tapping.c:496-513 | Finds the first release of the tapping key within its term, marks both as taps and dispatches the press; otherwise changes nothing. |
| TappingEngine.Engine.ProcessTapping | quantum/action_tapping.c:178-435 | The in-place branches compute the specification on the ring, the tapping key and the trace, including the record written back. |
| TappingEngine.Engine.DrainWaitingBuffer | quantum/action_tapping.c:108-116 | The loop over ring indices is the specification's drain, slot reuse included. |
| TappingEngine.Engine.TakeIn | quantum/action_tapping.c:88-102 | On the ring: the event is processed or queued, and a full ring is cleared together with the host's keys. |
| TappingEngine.Engine.ActionTappingProcess | quantum/action_tapping.c:87-120 | One call on the real ring buffer is one step of the specification, so every run lemma above is about it. |
| Eeprom.Memory.UpdateByte | quantum/via.c:57-59 | An update leaves the given value in its byte and reaches the memory as one step, whether or not the byte differed. |
| Via.DefaultLayoutSeparate | quantum/dynamic_keymap.c:28-100 | The default address computation gives regions that do not overlap, given the size the source asserts. |
| Via.DefaultLayoutTight | quantum/dynamic_keymap.c:28-101 | The default regions follow each other without a gap up to the last address. |
| Via.MagicTellsDays | quantum/via.c:41-47 | The magic bytes of two build dates are equal if and only if the days are, within a century, and never look erased. |
| Via.DateIsNotErased | quantum/via.c:40-44 | A magic byte made of two decimal digits of the build date is never 0xFF. |
| Via.MagicSet | quantum/via.c:51-60 | A valid memory carries the magic; marking it as not valid erases all three bytes. |
| Via.Phases | quantum/via.c:84-95 | After any prefix of the byte writes of a reset: nothing has happened, or the first magic byte is erased, or all data bytes have their reset values. |
| Via.CrashSafe | quantum/via.c:40-95 | If a reset stops after any prefix of its byte writes and the magic then looks valid, the memory is untouched or layout options, keymap, encoder map and macros all have their reset values. |
| Via.CrashSafeExactly | quantum/via.c:40-95 | For all contents and all prefixes this holds if and only if the first magic byte is not 0xFF. |
| Via.ErasedMagicIsUnsafe | quantum/via.c:40-60 | With a first magic byte of 0xFF a concrete memory looks valid after one write with macros neither old nor reset. |
| Via.InitCompletes | quantum/via.c:84-95 | A reset that runs to its end leaves a valid magic and every value at its reset value. |
| Via.BootsSafe | quantum/via.c:71-82 | Any series of starts, each interrupted anywhere, ends in a memory that, if it looks valid, is the first memory or wholly reset. |
| Via.BootEndsValid | quantum/via.c:71-82 | A start that is not interrupted ends with a valid magic and a memory that was already valid or is wholly reset. |
| Via.OptionsRoundTrip | quantum/via.c:99-122 | Layout options read back as written, modulo the size of their region. |
| ViaDriver.Driver.ViaEepromIsValid | quantum/via.c:40-47 | True exactly when the three magic bytes are those of the build date. |
| ViaDriver.Driver.ViaEepromSetValid | quantum/via.c:51-60 | Writes the three magic bytes, or 0xFF three times, in order. |
| ViaDriver.Driver.ViaGetLayoutOptions | quantum/via.c:99-109 | The byte loop reads a big-endian number. |
| ViaDriver.Driver.ViaSetLayoutOptions | quantum/via.c:113-122 | The byte loop writes the value's bytes, least significant last, to the options region only. |
| ViaDriver.Driver.DynamicKeymapReset | quantum/dynamic_keymap.c:161-188 | The nested loops write, layer by layer, the big-endian image of the flash keymap and the encoder map, in that order. |
| ViaDriver.Driver.DynamicKeymapMacroReset | quantum/dynamic_keymap.c:268-275 | The loop writes a zero to every byte of the macro region, in order. |
| ViaDriver.Driver.EeconfigInitVia | quantum/via.c:84-95 | The byte writes of a reset are magic erased, options, keymap, macros, magic set: the list the crash lemmas cut at every point. |
| ViaDriver.Driver.ViaInit | quantum/via.c:71-82 | A start resets exactly when the magic is not valid. |
| DynamicKeymap.SetThenGet | quantum/dynamic_keymap.c:111-136 | Reading any cell after a write gives the written keycode in that cell and the old one in every other: the memory is a three-dimensional array. |
| DynamicKeymap.SetChangesTwoBytes | quantum/dynamic_keymap.c:130-136 | A write changes no byte outside its two. |
| DynamicKeymap.BufferShowsCells | quantum/dynamic_keymap.c:190-203 | Every offset of the byte-buffer view is one half of exactly one cell. |
| DynamicKeymap.BufferRoundTrip | quantum/dynamic_keymap.c:190-216 | Reading the byte-buffer view after writing it gives the written bytes inside the written range and the old ones elsewhere. |
| DynamicKeymap.BufferSetsCell | quantum/dynamic_keymap.c:205-216 | Writing a keycode's two bytes through the buffer view is the same as setting the key. |
| DynamicKeymap.Keymap.GetKeycode | quantum/dynamic_keymap.c:116-128 | Reads a cell of that array, 0 outside it. |
| DynamicKeymap.Keymap.SetKeycode | quantum/dynamic_keymap.c:130-136 | Writes a cell of that array, nothing outside it. |
| DynamicKeymap.Keymap.GetBuffer | quantum/dynamic_keymap.c:190-203 | The loop reads the view at every offset, zeros past its end. |
| DynamicKeymap.Keymap.SetBuffer | quantum/dynamic_keymap.c:205-216 | The loop writes the view at every offset, dropping bytes past its end. |
| DynamicKeymap.ResetSetsKeymap | quantum/dynamic_keymap.c:161-188 | After the block-write reset every cell holds the keycode of the keymap in flash. |
| DynamicKeymap.WriteKeepsMemoExactly | quantum/keymap_common.c:191-207 | A keymap write leaves the one-entry memo right exactly when it does not change the remembered cell: no write clears the memo. |
| DynamicKeymap.BufferKeepsMemoExactly | quantum/keymap_common.c:191-207 | A write through the buffer view leaves the memo right exactly when it changes neither byte of the remembered cell. |
| DynamicKeymap.ResetKeepsMemoExactly | quantum/dynamic_keymap.c:161-188 | A reset leaves the memo right exactly when the keymap in flash holds the remembered keycode. |
| DynamicKeymap.EmptyMemoIsCurrent | quantum/keymap_common.c:192-195 | At power-up the memo is right. |
| DynamicKeymap.KeyToKeycode.KeymapKeyToKeycode | quantum/keymap_common.c:191-207 | The result is the direct lookup exactly when the memo was missed or right, and a right memo stays right. |
| MacroReader.StartsInsideExactly | quantum/dynamic_keymap.c:277-305 | When the last macro byte is 0, the id-th string starts inside the buffer exactly when the buffer holds more than id NULs; otherwise the source reads on behind it. |
| MacroReader.Reader.Skip | quantum/dynamic_keymap.c:293-305 | The skipping loop ends at the start of the id-th string, or finds there is none. |
| MacroReader.Reader.ReadDelay | quantum/dynamic_keymap.c:334-356 | The inner loop copies the digits of a delay and its closing bar, no further than the string. |
| MacroReader.Reader.MacroSend | quantum/dynamic_keymap.c:277-360 | For every buffer and id: terminates, reads nothing past the terminator of the id-th string, and sends exactly the pieces `Pieces` says, a word at a time without an array; a wrong id or an unterminated buffer sends nothing; it leaves the buffer exactly when that ends in a NUL and holds exactly id of them. |
| MacroReader.MacroPlays | quantum/dynamic_keymap.c:277-360 | In a buffer of NUL-terminated strings, the items of the string asked for (characters, taps, key-downs, key-ups and delays of up to four characters) are sent, one by one. |
| MacroReader.WellFormedExactly | quantum/dynamic_keymap.c:318-357 | The strings sent entirely are exactly the lists of such items. |
| MacroReader.ItemsAreSent | quantum/dynamic_keymap.c:307-359 | Every list of items is sent item by item. |
| MacroReader.FindsString | quantum/dynamic_keymap.c:291-305 | String number id of a buffer is found where it starts, with its end. |
| MacroReader.UnknownCodeSends | quantum/dynamic_keymap.c:318-358 | Behind any items, an unknown code is sent with what the last item that was no character left in the array, and reading goes on behind it. |
| MacroReader.KnownExactly | quantum/dynamic_keymap.c:307-359 | The pieces sent concatenate to the well-formed part of the string if and only if no unknown code follows it; then sending stops there. |
| MacroReader.WellFormedIsSent | quantum/dynamic_keymap.c:307-359 | A well-formed string is sent entirely. |
| MacroReader.UnknownCodeRepeats | quantum/dynamic_keymap.c:318-358 | Behind a tap, an unknown code is sent together with the keycode of that tap, left over in the eight-byte array. |
| PagedMemory.AddressBytes | drivers/flash/flash_spi.c:133-136 | The loop that fills the address buffer from its end gives the big-endian digits of the address. |
| PagedMemory.SelectedIsMeant | drivers/flash/flash_spi.c:128-137 | Those bytes select the cell meant, modulo the chip's size. |
| PagedMemory.ChunkEndsAtBoundary | drivers/flash/flash_spi.c:320-325 | The next chunk ends at a page boundary or at the end of the data. |
| PagedMemory.PageWriteIsFlat | drivers/flash/flash_spi.c:316-356 | A page write, which wraps at its page's end, is a flat write as long as it stays in its page. |
| PagedMemory.ChunkContinues | drivers/flash/flash_spi.c:316-356 | Writing the next chunk never crosses a page and continues the flat write of the bytes before it. |
| PagedMemory.ChunkArrives | drivers/eeprom/eeprom_spi.c:147-217 | A chunk of which only the first bytes arrive continues the flat write of the bytes that arrived before. |
| PagedMemory.PrefixExactly | drivers/eeprom/eeprom_spi.c:147-217 | On an EEPROM, what arrived of a write is for every content a flat write of some prefix if and only if no byte is missing before one that arrived. |
| PagedMemory.FlatAt | drivers/flash/flash_spi.c:316-376 | What the flat write leaves at every cell: old AND new on flash, the new byte on an EEPROM, everything else untouched. |
| PagedMemory.EraseThenWrite | drivers/flash/flash_spi.c:316-376 | On erased flash a write stores exactly its data. |
| PagedMemory.FlashStoresExactly | drivers/flash/flash_spi.c:316-360 | Only an erased flash cell stores whatever is written to it. |
| PagedMemory.WriteThenRead | drivers/eeprom/eeprom_spi.c:111-217 | What a complete EEPROM write stores, a read of the same cells returns. |
| SpiMemory.WaitWhileBusy | drivers/flash/flash_spi.c:72-97 | The polling loop ends; it reports success exactly when every poll started and none was late, and then write-in-progress is clear. |
| SpiMemory.Flash.FlashWriteBlock | drivers/flash/flash_spi.c:316-376 | For every address, length and data the memory is one flat write of a prefix of the data: all of it on success, else a whole number of chunks unless the last one's data broke off on the bus; every program command goes out with write-in-progress clear, write-enable set and inside one page; it succeeds exactly when no transfer failed and no wait was late, and then leaves the chip idle and write-protected. |
| SpiMemory.Flash.FlashReadBlock | drivers/flash/flash_spi.c:285-314 | The memory's bytes when nothing went wrong on the bus, else an error and zeros. |
| SpiMemory.Flash.FlashEraseUnit | drivers/flash/flash_spi.c:205-283 | Sector and block erase: a refused address touches nothing, an admitted one succeeds exactly when nothing went wrong, which leaves exactly the addressed unit erased; an error leaves it either way but nothing else changed. |
| SpiMemory.ErasableExactly | drivers/flash/flash_spi.c:209-212 | The 32-bit address check admits exactly the aligned units before the last one, and those addresses whose sum wraps below the size. |
| SpiMemory.LastUnitRefused | drivers/flash/flash_spi.c:209-212 | The last sector or block of the chip can never be erased by its own address. |
| SpiMemory.EraseWriteRead | drivers/flash/flash_spi.c:205-376 | Erase, write, read back: the data, and every byte outside the erased unit as it was. |
| SpiMemory.NextChunk | drivers/flash/flash_spi.c:316-356 | One turn of the write loops keeps flat prefix, page limit and chunk boundary, also when the 32-bit address wraps. |
| SpiMemory.SpiEeprom.EepromWriteBlock | drivers/eeprom/eeprom_spi.c:147-217 | The SPI EEPROM's memory is the flat write of the bytes that arrived, page by page a prefix, and nothing behind the chunk at which the driver stops; without a fault that is all of the data, and a stop has a fault; every write command is guarded as on flash. Transfers that break off go unnoticed, since their result is ignored. |
| SpiMemory.SpiEeprom.EepromReadBlock | drivers/eeprom/eeprom_spi.c:111-145 | The memory's bytes when nothing went wrong, zeros when the read did not start. |
| I2cEeprom.SeenIsMeant | drivers/eeprom/eeprom_i2c.c:48-54 | A chip selects the cell meant when it has no bank bits or the byte lies in the window the write started in. |
| I2cEeprom.WindowedIsFlat | drivers/eeprom/eeprom_i2c.c:97-140 | There the driver's write is the flat write. |
| I2cEeprom.FlatExactly | drivers/eeprom/eeprom_i2c.c:97-140 | On a chip that takes upper address bits from the bus address (drivers/eeprom/eeprom_i2c.h:84), the driver's write is the flat write for every content if and only if it stays in one window: the bus address is computed from the start of the write. |
| I2cEeprom.WindowedContinues | drivers/eeprom/eeprom_i2c.c:106-133 | A chunk of which the first bytes arrive, as one page write, continues the driver's write of what arrived before. |
| I2cEeprom.CopyEndsExactly | drivers/eeprom/eeprom_i2c.c:115-117 | The copy loop, whose counter has 8 bits, ends if and only if the chunk has at most 255 bytes. |
| I2cEeprom.WriteEndsExactly | drivers/eeprom/eeprom_i2c.c:106-133 | A write ends if and only if the page has at most 255 bytes, or its part on the first page and the rest have at most 255 bytes each. |
| I2cEeprom.Driver.FillPacket | drivers/eeprom/eeprom_i2c.c:113-117 | With the 8-bit counter: address bytes followed by the chunk, or a loop without end, exactly as stated. |
| I2cEeprom.Driver.EepromWriteBlock | drivers/eeprom/eeprom_i2c.c:97-140 | For every page size, address, length and data: the chip ends up with the bytes that arrived, page by page a prefix, up to the first chunk for which the copy loop does not end; without a fault that is the write the lemmas above describe. |
| I2cEeprom.Driver.EepromReadBlock | drivers/eeprom/eeprom_i2c.c:81-95 | Without a fault, reads start at the cell meant and go on across windows. |
| I2cEeprom.Driver.EepromDriverErase | drivers/eeprom/eeprom_i2c.c:65-79 | Erasing page by page ends exactly on pages of at most 255 bytes, and without a fault then leaves zeros everywhere, not 0xFF. |
| Display.CellInjective | drivers/lcd/st7565.c:174-188 | No two buffer bytes are shown by the same panel cell. |
| Display.CursorMoves | drivers/lcd/st7565.c:230-246 | After a character that fits on its line, the cursor stands right behind it if another fits, else at the start of the next line, else at the top. |
| DisplayCoherence.RenderCell | drivers/lcd/st7565.c:157-195 | A render puts the first dirty block on the panel, at the right page and column, and leaves every other cell of the image alone. |
| DisplayCoherence.StepCoherent | drivers/lcd/st7565.c:145-369 | Every in-range call keeps each clean block equal to its cells on the panel. |
| DisplayCoherence.RunCoherent | drivers/lcd/st7565.c:145-369 | So does every run of clears, cursor moves, characters, raw writes, pixels, pans and renders. |
| DisplayRuns.CursorRoomExactly | drivers/lcd/st7565.c:197-206 | A character written where the cursor was just set stays inside the buffer if and only if the place is out of bounds, which sends the cursor home, or has room for a character. |
| DisplayRuns.CursorOverruns | drivers/lcd/st7565.c:197-206 | On the default display every character written at column 21 of line 3 goes past the end of the buffer. |
| DisplayRuns.RawByteExactly | drivers/lcd/st7565.c:333-338 | A single byte is written inside the buffer if and only if its index is; any other index becomes one past the end. |
| DisplayRuns.ArgumentsExactly | drivers/lcd/st7565.c:197-338 | A run stays inside the buffer if and only if each character finds room, as told by the arguments of the calls before it, and single bytes are written inside; what is drawn does not matter. |
| DisplayRuns.ArgumentsCoherent | drivers/lcd/st7565.c:145-369 | So the display is coherent on every run whose arguments satisfy that. |
| DisplayCoherence.RendersShowBuffer | drivers/lcd/st7565.c:157-195 | As many renders as there are blocks make the whole panel show the buffer. |
| DisplayLimits.DrawExactly | drivers/lcd/st7565.c:282-288 | A character drawn at a given place keeps every coherent screen coherent if and only if the blocks of its first and last column cover it there. |
| DisplayLimits.FontWidthExactly | drivers/lcd/st7565.c:282-288 | They do so at every place if and only if the font is at most one column wider than a block. |
| DisplayLimits.RenderExactly | drivers/lcd/st7565.c:157-195 | A render keeps every coherent screen coherent if and only if the block size divides the width. |
| DisplayCoherence.PixelExactly | drivers/lcd/st7565.c:351-369 | A pixel write sets that pixel and no other; out of range it sets none. |
| DisplayCoherence.NewLineExactly | drivers/lcd/st7565.c:208-246 | A newline blanks whole characters to the end of the line and goes to the next line or the top; with less than a character left it does nothing. |
| DisplayContents.ClearShows | drivers/lcd/st7565.c:145-149 | A clear and as many renders as there are blocks leave nothing on the panel, whatever it showed. |
| DisplayContents.CharWritten | drivers/lcd/st7565.c:249-292 | A character fills its columns from the cursor on with the font's, inverted or not, blank when the font lacks it; no other byte changes. |
| DisplayContents.CarriageReturnExactly | drivers/lcd/st7565.c:208-228 | A carriage return goes to the start of the next line, or to the top, and writes nothing. |
| DisplayContents.CursorPlace | drivers/lcd/st7565.c:197-206 | The cursor is set to the line and to the column's first dot, or home. |
| DisplayContents.RawWritten | drivers/lcd/st7565.c:340-349 | Raw data stands from the cursor on, as far as the buffer reaches, and the cursor stays. |
| DisplayContents.PanMoves | drivers/lcd/st7565.c:307-323 | Panning moves every dot by one column; the end column stays. |
| DisplayContents.RotationTurns | drivers/lcd/st7565.c:177-180 | Seen from the panel's other end, the rotated image stands where the image stood. |
| DisplayContents.NothingNew | drivers/lcd/st7565.c:249-369 | A write that leaves the buffer as it was makes no block dirty. |
| DisplayContents.OnlyTouched | drivers/lcd/st7565.c:249-369 | A write makes no block dirty in which nothing changes, but for the first and last block of a character. |
| St7565.Panel.SendData | drivers/lcd/st7565.c:188-188 | The column register advances with every data byte and bytes past the last column are dropped. |
| St7565.Driver.SetAddress | drivers/lcd/st7565.c:184-186 | The three commands leave the page and column meant in the panel's registers. |
| St7565.Driver.St7565Clear | drivers/lcd/st7565.c:145-149 | Buffer cleared, cursor home, everything dirty. |
| St7565.Driver.St7565SetCursor | drivers/lcd/st7565.c:197-206 | The cursor's place, home when out of bounds. |
| St7565.Driver.St7565AdvancePage | drivers/lcd/st7565.c:208-228 | The loop of blanks, or the jump to the next line, on the real buffer. |
| St7565.Driver.St7565WriteChar | drivers/lcd/st7565.c:249-292 | Glyph, inversion, dirty check and cursor on the real buffer are the specification's character, where the buffer has room for it. |
| St7565.Driver.St7565Pan | drivers/lcd/st7565.c:307-323 | The two in-place loops move every line by one column, left or right, the end column staying, and mark everything dirty. |
| St7565.Driver.St7565WriteRaw | drivers/lcd/st7565.c:340-349 | The loop splices the data in at the cursor as far as the buffer goes and dirties exactly the blocks of changed bytes. |
| St7565.Driver.St7565WriteRawByte | drivers/lcd/st7565.c:333-338 | One byte and its block, unless it is already there, for an index inside the buffer. |
| St7565.Driver.St7565WritePixel | drivers/lcd/st7565.c:351-369 | One bit and its block, unless it is already there. |
| St7565.Driver.St7565Render | drivers/lcd/st7565.c:157-195 | The search loop and the block transfer are the specification's render. |
| Uf2.WordsField | util/uf2conv.py:131-133 | A header word read back is the word packed. |
| Uf2RoundTrip.BlockFields | util/uf2conv.py:128-141 | Every field of an encoded block, and its data, reads back. |
| Uf2RoundTrip.DeviceFollows | util/uf2conv.py:149-166 | The data is followed by the device tag and number exactly when there is a device, which the flag announces, and by zeros. |
| Uf2RoundTrip.FileBlocks | util/uf2conv.py:128-142 | Every block of a file says its own number, the number of blocks, its address and family. |
| Uf2RoundTrip.DataGoesTo | util/uf2conv.py:182-203 | A data record goes to its offset from the last base record, in units of 64 KiB or of 16 bytes. |
| Uf2RoundTrip.EndEnds | util/uf2conv.py:186-187 | Nothing behind the end record counts. |
| Uf2RoundTrip.ReadIsAssembled | util/uf2conv.py:37-109 | Reading a file of pages lays them out in memory with zeros in the gaps and learns the first address; it fails exactly when a page goes back or leaves too wide or an unaligned gap. |
| Uf2Families.FamiliesRead | util/uf2conv.py:38-109 | A file of several families: asked for one, its segments are given one after the other, from where the last one starts; asked for none, nothing is given unless all are of one family; it fails exactly when some segment, wanted or not, goes back or leaves too wide a gap. |
| Uf2Families.UnwantedLeavesExactly | util/uf2conv.py:68-79 | A segment that was not asked for leaves nothing in the output if and only if it has no gaps. |
| Uf2Families.NotFlashSkipped | util/uf2conv.py:54-56 | A block that is not for the main flash changes nothing. |
| Uf2Families.FirstBlockRead | util/uf2conv.py:57-81 | Up to 476 bytes of a block's data are taken when its family is wanted; more end the conversion. |
| Uf2RoundTrip.ReadNeedsMagic | util/uf2conv.py:51-53 | A conversion that comes to its end has met good magics only; no block is skipped for its magic. |
| Uf2RoundTrip.BadMagicFails | util/uf2conv.py:51-53 | One block with a bad magic anywhere in a file makes the conversion fail. |
| Uf2RoundTrip.ZeroBlockFails | util/uf2conv.py:37-142 | An image's own file converts; with one block of zeros put in anywhere it does not. |
| Uf2RoundTrip.ImageRoundTrip | util/uf2conv.py:37-142 | Image to UF2 and back is the image zero-padded to a multiple of 256, with its base address; another family asked for gives nothing. |
| Uf2RoundTrip.HexAssembled | util/uf2conv.py:168-204 | The blocks made from HEX bytes can be laid out if and only if the bytes ascend page by page with gaps of at most 10M; the layout is then the memory image. |
| Uf2RoundTrip.HexRoundTrip | util/uf2conv.py:37-205 | HEX to UF2 to binary succeeds if and only if the bytes so ascend, and yields the flat memory image from the first byte's 256-byte page on, holes zero. |
| Uf2RoundTrip.ImageCovers | util/uf2conv.py:168-204 | Every byte of such a file lies inside that image. |
| Uf2Conv.FileIsEncoded | util/uf2conv.py:121-142 | A file is produced if and only if every header word fits in 32 bits, and is then the encoded pages. |
| Uf2Conv.Block.Encode | util/uf2conv.py:149-166 | The appended header, data, device bytes, padding and end magic are the encoded block. |
| Uf2Conv.Converter.ConvertToUf2 | util/uf2conv.py:121-142 | The loops over chunks and padding give the file of the image's pages, or fail. |
| Uf2Conv.Converter.ConvertFromUf2 | util/uf2conv.py:37-109 | The loop over blocks with its mutated globals is the specification's reader, on every input and every failure. |
| Uf2Conv.Converter.ConvertFromHexToUf2 | util/uf2conv.py:168-205 | The loops over records and bytes give the file of the pages of the records' bytes, and the first data address. |
| DynamicMacro.CapturedNext | quantum/dynamic_macro.h:104-122 | A recorded key is ignored as a leading release or for lack of room, else appended. |
| DynamicMacro.StoredExactly | quantum/dynamic_macro.h:104-142 | The stored macro is the stretch of input from its first press on, as far as there is room and up to the last release in it. |
| DynamicMacro.NextShares | quantum/dynamic_macro.h:154-260 | On every step the two macros fit in the array together and recording one leaves the other as it was. |
| DynamicMacro.RecordThenPlay | quantum/dynamic_macro.h:60-260 | Start, any keys, stop, play: the playback is exactly the stored part of those keys, and the other macro is unchanged. |
| DynamicMacro.KeysPassOn | quantum/dynamic_macro.h:201-260 | Ordinary keys always reach the rest of the firmware; macro keys only as stated. |
| DynamicMacro.PlayedExactly | quantum/dynamic_macro.h:60-96 | A playback releases all keys first and last and processes the stored keys in between; nothing else is sent. |
| DynamicMacroEngine.Engine.Play | quantum/dynamic_macro.h:77-93 | Walking the array in either direction processes the macro's records in order and restores the layer state. |
| DynamicMacroEngine.Engine.RecordKey | quantum/dynamic_macro.h:104-122 | Writes one slot and moves on, unless the next slot is the other macro's. |
| DynamicMacroEngine.Engine.RecordEnd | quantum/dynamic_macro.h:128-142 | The trimming loop finds the end of the recording without its trailing presses. |
| DynamicMacroEngine.Engine.ProcessRecordDynamicMacro | quantum/dynamic_macro.h:154-260 | One call on the shared array is one step of the two macros, with exactly the specified outputs; the ends never cross. |
| LayerCache.NumberOfBits | quantum/action_layer.c:245-255 | The bits of a layer number put together again give the number, modulo what the bits can hold. |
| LayerCache.StoredAll | quantum/action_layer.c:233-239 | The XOR-and-mask store sets one entry's bit and leaves the other entries of the byte alone. |
| LayerCache.BitCache.Update | quantum/action_layer.c:233-239 | The bit-sliced array is a map from entry to layer: a store changes that entry only. |
| LayerCache.BitCache.Read | quantum/action_layer.c:245-255 | A read gives the entry's layer. |
| LayerActions.SearchExactly | quantum/action_layer.c:324-344 | The lookup's result is the highest active layer on which the key is not transparent, else 0. |
| LayerActions.PressRunsHighest | quantum/action_layer.c:300-344 | A press runs the action of the highest layer, active or default, on which the key is not transparent, else layer 0's. |
| LayerActions.ReleaseRunsPress | quantum/action_layer.c:300-318 | After any run of layer changes and other keys, a key with a place in the cache runs on release the action its last press ran; one without runs layer 0's. |
| LayerActions.MatrixReleaseRunsPress | quantum/action_layer.c:300-318 | For a key of the matrix only a press of that same key counts. |
| LayerActions.EncoderDirectionsShare | quantum/action_layer.c:261-290 | The two directions of an encoder share a cache entry: a press of one would decide a pending release of the other. |
| LayerActions.Engine.LayerSwitchGetLayer | quantum/action_layer.c:324-344 | The descending loop is that lookup. |
| LayerActions.Engine.StoreOrGetAction | quantum/action_layer.c:300-318 | On the real bit arrays: the action and the new cache of the specification, or a plain lookup when the cache is disabled. |
| DeferredExec.DifferenceExactly | quantum/deferred_exec.c:122-131 | The signed 32-bit comparison is right for true times less than 2^31 apart, across wrap-around. |
| DeferredExec.FreeSlotFreeToken | quantum/deferred_exec.c:18-40 | In a table of at most 255 entries a free slot leaves a free token. |
| DeferredExec.FirstUsableExactly | quantum/deferred_exec.c:30-40 | The search passes over 0 and over tokens in use only. |
| DeferredExec.LargeTableExhausts | quantum/deferred_exec.c:18-40 | In every larger table all tokens can be held while a slot is free. |
| DeferredExec.TokensSufficeExactly | quantum/deferred_exec.c:18-40 | A free slot is sure to find a token if and only if the table has at most 255 entries. |
| DeferredExec.CalledOnceExactly | quantum/deferred_exec.c:118-151 | A pass calls each due live entry exactly once and no other. |
| DeferredExec.PassIsTrue | quantum/deferred_exec.c:118-151 | In true time: of the entries whose time lies within 2^31 of the pass, it calls exactly the live ones whose time has come, wherever the 32-bit clock stands. |
| DeferredExec.TriggersExactly | quantum/deferred_exec.c:118-151 | However late the passes come, an entry's k-th trigger is its first plus the delays its callback returned before, modulo 2^32; it lives until the callback returns 0. |
| DeferredExec.SlotFollows | quantum/deferred_exec.c:46-151 | Until its callback returns 0, an entry stays in its slot and goes through those triggers, whatever other entries are added, extended or cancelled between the passes. |
| DeferredExec.Executors.TokenCanBeUsed | quantum/deferred_exec.c:18-28 | True exactly for a non-zero token no entry holds. |
| DeferredExec.Executors.AllocateToken | quantum/deferred_exec.c:30-40 | The wrapping search takes the first usable token after the last one, ends after at most one round, and fails exactly when all 255 tokens are held. |
| DeferredExec.Executors.DeferExecAdvanced | quantum/deferred_exec.c:46-73 | A new entry takes the first free slot with the first token after the last one that no live entry holds; live tokens stay distinct; failure changes no entry and has exactly the stated causes. |
| DeferredExec.Executors.ExtendDeferredExecAdvanced | quantum/deferred_exec.c:75-93 | Only the entry of the token gets a new trigger time. |
| DeferredExec.Executors.CancelDeferredExecAdvanced | quantum/deferred_exec.c:95-116 | Only the entry of the token is cleared. |
| DeferredExec.Executors.DeferredExecAdvancedTask | quantum/deferred_exec.c:118-151 | A pass makes exactly the specified calls, in table order, and reschedules from the trigger time; a throttled one does nothing. |
| MatrixBits.MoreThanOneExactly | quantum/keyboard.c:227-230 | Clearing the lowest bit leaves something exactly when two bits were set. |
| Matrix.CommonExactly | quantum/keyboard.c:245-252 | Two rows' common real keys pass that test exactly when they have two real pressed columns in common. |
| Matrix.GhostsComeInPairs | quantum/keyboard.c:232-255 | The relation is symmetric: a frozen row has another frozen row beside it. |
| Matrix.ScanShows | quantum/keyboard.c:533-556 | The events of one scan, replayed on the keys held before, give the rows remembered after. |
| Matrix.ScanReportsExactly | quantum/keyboard.c:532-556 | A scan reports a key exactly when it changed and no other row forms a rectangle of real pressed keys with its row, and then its new state. |
| Matrix.ReportedInOrder | quantum/keyboard.c:532-556 | Reports go row by row and column by column, no key twice. |
| Matrix.GhostsFreeze | quantum/keyboard.c:532-556 | Rows that form such a rectangle stay as remembered, every other row becomes the scan's. |
| Matrix.CornersSilent | quantum/keyboard.c:232-255 | When the scan shows all four corners of a rectangle of real keys, nothing is reported of either row: a ghost never is. |
| Matrix.EventsShowMatrix | quantum/keyboard.c:504-560 | After any series of scans the replay of all events is exactly the remembered matrix, keys being pressed only when up and released only when down. |
| Matrix.EventsAlternate | quantum/keyboard.c:542-555 | Two successive events of a key are one press and one release. |
| Matrix.Engine.GetRealKeys | quantum/keyboard.c:215-225 | The column loop keeps exactly the bits of real keys. |
| Matrix.Engine.HasGhostInRow | quantum/keyboard.c:232-255 | True exactly when the row shares two real pressed columns with another row. |
| Matrix.Engine.MatrixTask | quantum/keyboard.c:504-560 | Frozen rows stay, all others become the scan; exactly the events of changed keys in unfrozen rows come out, in row and column order; an unchanged or unreadable matrix is a tick. |
| Encoder.TableExactly | quantum/encoder.c:56-56 | The quadrature table counts a movement right if and only if no phase was skipped. |
| Encoder.ClicksConserve | quantum/encoder.c:163-219 | On every series of readings, resolution times net clicks plus the pulses left equals the sum of table values, with fewer pulses left than the resolution. |
| Encoder.ResolutionExactly | quantum/encoder.c:163-219 | This holds for all readings if and only if the resolution is at most 127: beyond that the 8-bit pulse counter overflows. |
| Encoder.RightHalfExactly | quantum/encoder.c:127-171 | Encoder i of the right half, which looks its resolution up by its local index, clicks as its own entry in the joint table says, on all readings, if and only if that entry equals the left half's, or neither ever clicks. |
| Encoder.ClicksAreDisplacement | quantum/encoder.c:163-233 | Without skipped phases that sum is how far the shaft turned. |
| Encoder.DeltaExactly | quantum/encoder.c:253-253 | A poll sees the other half's change if and only if it lies in [-128, 127]. |
| Encoder.PollsConserve | quantum/encoder.c:249-278 | Polled often enough, the master's net events are the slave's net clicks. |
| Encoder.EventsConserve | quantum/encoder.c:249-278 | So the events the master emits for it, up less down, add up to how far the counter has moved. |
| Encoder.PollTally | quantum/encoder.c:249-278 | The events of one poll add up, encoder by encoder, to the change of its counter. |
| Encoder.ReadTally | quantum/encoder.c:163-233 | The events of one reading add up, encoder by encoder, to its clicks. |
| Encoder.Engine.EncoderUpdate | quantum/encoder.c:163-219 | Pulses, value, events and result of one step, nothing else changed. |
| Encoder.Engine.EncoderRead | quantum/encoder.c:221-233 | Every encoder of this half turns by its reading, with events in order on the master. |
| Encoder.Engine.EncoderStateRaw | quantum/encoder.c:245-247 | The values of this half, in order. |
| Encoder.Engine.CatchUp | quantum/encoder.c:252-273 | The two counting loops emit one event per click of difference and reach the other half's value. |
| Encoder.Engine.EncoderUpdateRaw | quantum/encoder.c:249-278 | All of the other half's counters caught up with, in order. |

## Left out

Weaker than the code, or on a condition of the code's callers:

- TappingPairing.TapHoldPairing: for runs on which key events arrive in turn, each key goes down and up in turn, the 16-bit clock does not go round while a record waits, and no arrival is a mispick; that last condition is exact for the invariant at each arrival, while a run with a mispick may still happen to pair.
- TappingTerm.TapExactly: from the press until the 16-bit clock has gone round once, and without an overflow of the waiting buffer, which wipes the press.
- TappingOrder.DispatchOrder: the condition that events arrive in turn is exact for one arrival, over whole runs it is sufficient.
- MacroReader.Reader.MacroSend: stops where the source goes on reading behind the buffer, memory that is not part of this model.
- Via.DefaultLayoutSeparate: takes the source's static assertion about the macro region as its premise.
- SpiMemory.Flash.FlashWriteBlock: a transfer that breaks off delivers a prefix of its data; corrupted bytes and half-sent addresses are not modelled, here and in the EEPROM drivers.
- I2cEeprom.Driver.EepromWriteBlock: a copy loop without end is an outcome (`ends` is false); wrap-around of the address type is not modelled.
- DisplayCoherence.RunCoherent: for runs that stay inside the buffer, exactly those of `DisplayRuns.ArgumentsExactly`; the memory behind the buffer is not part of this model.
- Display.SetCursor: does not model the 16 bits of the index, which can overflow only when a character is wider than 125 columns.
- DeferredExec.Executors.DeferredExecAdvancedTask: callbacks return any delay but do not themselves change the table.
- DynamicMacroEngine.Engine.Play: the replayed keys may change the layers, but not start or stop recordings.
- Encoder.Engine.EncoderRead: polled mode only, without interrupt updates and without `ENCODER_DEFAULT_POS`.
- LayerActions.ReleaseRunsPress: for a fixed keymap with the action cache enabled.

Configuration and environment:

- The tapping engine is the one built with `IGNORE_MOD_TAP_INTERRUPT` and `NO_ACTION_ONESHOT` and without combos, swap hands, retro shift and per-key hold-on-other-key-press, so that `process_record` does not write into the record; terms depend on the key only, hooks on anything the host has seen.
- `process_action`, one-shot, swap-hands and retro-shift code, which change records in place.
- Weak user and keyboard hooks are assumed not to touch the modelled state.
- Power failure is a prefix of the byte updates; `eeconfig_init_quantum`, which writes its own magic before it invalidates the VIA magic, is not part of this model.
- The clocks behind busy-wait timeouts and the bus are arbitrary yes-or-no answers, counted when they go wrong.
- `flash_erase_chip`, the SPI EEPROM's whole-chip erase, and the `_P` and string variants of the display writers, which repeat what is modelled.
- The display's power, contrast and timeout commands; a panel rotated by 180 degrees must have no column offset, else its image does not fit the 132 columns.
- HEX text and checksums (records are given as values), the UF2 summary printout, drives, files and the command line.
- The VIA raw-HID command set, LEDs, sounds, debug output.
- The layer-mask operations `layer_on`, `layer_off` and the like: every layer change is covered as an arbitrary new mask.
- `deferred_exec`'s basic API and the second tables: each table is one object with an arbitrary starting counter.
- Equality of the two CRC-8 builds of `quantum/crc.c`, which use different polynomials.
