# Verified models of the slot map, controller, audio and binding code

A Dafny 4.11 project that models five parts of the repository and proves what they are for. Code that
works by changing things step by step is a method with loops, or a class with fields, proved against a
function of the inputs; what the code promises is then proved of that function, over every input, every
run and every failure. `dafny verify dfyconfig.toml` checks all of it.

- **The generational slot map.** `SlotMapState` holds the state and one transition function per operation;
  `SlotMap` is the container as written, fields updated in place; `SlotMapRuns` keeps a history beside the state
  (keys issued, values present, indices retired, erases counted) and proves, for every run, that no key is
  issued twice, that lookup refines a map, how slowly versions age, when pages are freed, and that slots are
  conserved; `SlotMapCycle` is the run that ages slots fastest, for every configuration. `SlotKey` is the
  packing of a key into 64 bits.
- **The Controller Pak and the joybus.** `PakCrc` proves the checksum loop to be polynomial division over GF(2),
  linear, and sure to catch bursts and odd errors, and `PakCrcPairs` which errors of two bits it misses.
  `PakFormat` builds the blank pak and proves it the only image with its properties. `PakModel` and `PakStore`
  are the lazily loaded, dirty-tracked store over files whose operations fail at will, each write-back call by
  call. `SiFrames` and `SiBus` are the read DMA: how the 64-byte window is classified, answered and left alone,
  and `SiReplies` says byte by byte what the game then reads. `PakBus` puts the store behind the frames: what
  acknowledged reads return over histories of frames and failures.
- **Controller identity and ports.** `PadRegistry` gives pads identities through plugging histories,
  `PadResolution` matches ports to pads, and `PadIdentity` shows that identities so given meet what the matching
  asks for. `PortAssignment` with `ControllerAssignment` seats controllers with reservations over hotplug
  histories, `PortHotplugs` says when a hotplug moves a connected one, and `ControllerKeys` shows that the keys
  they are seated by are distinct.
- **The audio microcode.** `AspCommands` proves the chunked command fetch to refine a flat walk of the list;
  `AspBuffers` are the clear, move and interleave loops on a DMEM that wraps around, overlapping and unaligned
  operands included; `AspCopies` and `AspMixes` say what moves and interleaves leave behind, byte by byte, and
  `AspHandlers` which of these commands a list may hold.
- **Smaller machines.** `RumbleModel` and `Rumble` (the motor model, with the game's thread overtaking the step)
  with `RumbleForce` (how strongly a pad is driven, from the time the game had the motor on), `HudTags`,
  `HudSessions` and `HudInspector` (the `hud.json` merge and the lookup over it, through sessions), `ElfModel`,
  `ElfTables`, `Bindings` and `BindingTool` (freezing and resolving function identities, `ElfFunctions`,
  `Spellings` and `Policies` saying what each accepts; the file format is chapter 4, Object Files, of the System
  V ABI), with one reference file byte by byte in `BindingFile` and `BindingWitness`.

`Common` holds the byte and option types and blank memory.

## Where the code and its comments part ways

The model follows the code. Each of these is a lemma with the exact condition, and an input where one is named.

- `has_key` and `get` compare versions only, and a retired slot keeps its last version, so the assertions
  at slot_map.h:559-561 fail for its key. Lookup is membership if and only if the slot is not retired with
  its page still there (`RetiredInPlace`): `SlotMapRuns.LookupIsMembershipIff`. Every configuration with two
  slots to a page has such a run: `SlotMapCycle.RetiredKeyIsStillFoundIff`.
- slot_map.h:1007 promises that `pop` returns a value only for a key not previously removed. That holds under
  the same condition; for a key retired in place `pop` returns the destroyed object: `SlotMapRuns.PopIsRightIff`.
- The 32-bit key's maximum version 0x400 does not fit its 10 bits: `SlotKey.LastVersion32IsLost`.
- A long pak frame with a zero dummy byte is answered as a short one for the next port, unless it is for the
  last port: `SiFrames.LongIsAlsoShortIff`, `SiFrames.ZeroDummyShiftsThePort`,
  `SiFrames.FirstPortAnsweredForSecond`.
- A saved override should survive a restart (bar_inspector.cpp:151-153). As the lookup sees it, a save and a
  restart change an overridden pair exactly when only the second identity is overridden and the file tags the
  first with another class, and any other pair exactly when the file answers for it otherwise than the tags in
  memory, as it does for an override saved and then cleared: `HudSessions.RestartKeepsLookupIff`, with
  `HudSessions.FileTagReturns` and `HudSessions.ClearedTagReturns`.
- An accepted freeze need not resolve on its own file: `Bindings.FreezeThenResolve` says exactly when it does,
  and `BindingWitness.OneAliasRejects` gives two files, one symbol apart, of which the second does not.
- `on_time` is said to total the on-time up to `t` (bar_rumble.cpp:51); motor writes that overtake the step add
  what they book after `t`. So the duty exceeds 1 before it is clamped exactly when that exceeds the slack left in
  the interval: `RumbleModel.LateWritesRaise`, `RumbleModel.DutyIsAShareIff`, `RumbleModel.OvertakenDutyIsUnbounded`.
- Connected pads are to keep their ports (controller_assignment.hpp:78), and reconcile does keep them
  (`PortAssignment.ConnectedPadNeverMoves`), but resolve_legacy runs before it and may move them:
  `PortHotplugs.HotplugKeepsIff`, with `PortHotplugs.SharedGuidMovesPad` and `PortHotplugs.GuestMovesUp`.

## Model

| member | source | states |
|---|---|---|
| SlotMapRuns.NoKeyIsReissued | lib/RecompFrontend/lib/SlotMap/slot_map.h:787-859 | In every run of emplace, erase, pop and clear from the empty map, no two emplace calls return the same key, although indices are recycled and slots retire |
| SlotMapRuns.LookupRefinesMap | lib/RecompFrontend/lib/SlotMap/slot_map.h:536-566 | After every run: size counts the map of inserted-and-not-erased values, every present key is found with its own value, and an absent issued key is found exactly when its slot retired at that version and the page still has its memory |
| SlotMapRuns.LookupIsMembershipIff | lib/RecompFrontend/lib/SlotMap/slot_map.h:872-887 | For every issued key, has_key answers membership if and only if the slot is not retired in place: the exact condition under which the version-only comparison is right |
| SlotMapCycle.RetiredKeyIsStillFoundIff | lib/RecompFrontend/lib/SlotMap/slot_map.h:818-851 | For every configuration, a run that retires a slot after as few erases as retirement allows: has_key and get then answer the erased key, with a destroyed object, if and only if a page has at least two slots |
| SlotMapRuns.PopIsRightIff | lib/RecompFrontend/lib/SlotMap/slot_map.h:1006-1020 | For an issued key pop yields a value exactly when the key was not removed if and only if its slot is not retired in place; there it yields a destroyed object, and it drops the entry either way |
| SlotMapRuns.EraseChangesOneEntry | lib/RecompFrontend/lib/SlotMap/slot_map.h:1004-1020 | In every reachable state, for every key whatever its tag, erase and pop remove exactly the entry of the untagged key, and do nothing at all when it is absent |
| SlotMapRuns.ErasableIffPresent | lib/RecompFrontend/lib/SlotMap/slot_map.h:787-816 | The chain of tests in eraseImpl succeeds exactly when the untagged key is present, with and without the version check |
| SlotMapRuns.EraseReportsWhatItDid | lib/RecompFrontend/lib/SlotMap/slot_map.h:787-859 | In every reachable state the result of eraseImpl says what it did: nothing changed, a page was freed, or one item less with the key queued unless the slot retired |
| SlotMapRuns.VersionsAgeSlowly | lib/RecompFrontend/lib/SlotMap/slot_map.h:818-857 | After E >= 1 successful erases every slot version is at most 2 + (E-1)/(kMinFreeIndices+1) |
| SlotMapRuns.NothingRetiresEarly | lib/RecompFrontend/lib/SlotMap/slot_map.h:961-984 | No slot retires before 1 + (kMaxVersion-1)*(kMinFreeIndices+1) erases |
| SlotMapCycle.VersionBoundIsTight | lib/RecompFrontend/lib/SlotMap/slot_map.h:961-984 | For every configuration the version bound is attained after every number of erases, up to the last version |
| SlotMapCycle.CycleReaches | lib/RecompFrontend/lib/SlotMap/slot_map.h:818-999 | The state after any number of erases of one slot more than is held back from reuse, in turn: the whole queue, the entries and the counters |
| SlotMapRuns.PageFreedIffAllRetired | lib/RecompFrontend/lib/SlotMap/slot_map.h:843-851 | In every reachable state a page has lost its memory exactly when it is full and all of its slots are retired |
| SlotMapRuns.SlotsAreConserved | lib/RecompFrontend/lib/SlotMap/slot_map.h:787-859 | Live slots, queued slots and retired slots add up to the slots ever appended |
| SlotMapRuns.ClearLeavesNothing | lib/RecompFrontend/lib/SlotMap/slot_map.h:916-942 | clear ends with size 0 and an empty map, counts one erase for each entry and issues no key |
| SlotMapRuns.ClearEmpties | lib/RecompFrontend/lib/SlotMap/slot_map.h:920-942 | From any index on, the unchecked erase of every slot empties what is left and keeps the invariant |
| SlotMapRuns.RunKeepsInv | lib/RecompFrontend/lib/SlotMap/slot_map.h:787-1020 | Every operation sequence keeps the representation invariant over pages, meta, queue, counters, history and contents |
| SlotMapRuns.StepKeepsInv | lib/RecompFrontend/lib/SlotMap/slot_map.h:787-1020 | Each single operation keeps that invariant and only extends the list of issued keys |
| SlotMapRuns.EmplaceKeepsInv | lib/RecompFrontend/lib/SlotMap/slot_map.h:961-999 | The key emplace returns was never issued, is untagged, and comes from the queue exactly when the queue is above the threshold |
| SlotMapRuns.EraseKeepsInv | lib/RecompFrontend/lib/SlotMap/slot_map.h:787-859 | eraseImpl keeps the invariant whether it recycles the slot, retires it, or frees its page |
| SlotMapRuns.DropKeepsAges | lib/RecompFrontend/lib/SlotMap/slot_map.h:818-857 | The age bounds survive an erase although the slot grows one version older |
| SlotMapRuns.RecycleKeepsAges | lib/RecompFrontend/lib/SlotMap/slot_map.h:964-983 | Reusing only the front of a queue longer than the threshold keeps the age bounds of every queued key |
| SlotMapRuns.EraseDoes | lib/RecompFrontend/lib/SlotMap/slot_map.h:787-859 | On slots by index, an erase replaces one slot, queues at most one key, and loses only retired slots with a freed page |
| SlotMapRuns.AppendDoes | lib/RecompFrontend/lib/SlotMap/slot_map.h:568-590 | appendElement hands out exactly the number of slots made so far and disturbs no other slot |
| SlotMapRuns.KnownIffBelowTotal | lib/RecompFrontend/lib/SlotMap/slot_map.h:604-618 | Page-and-offset addressing is exact: an index is initialised if and only if it is below the slot total |
| SlotMap.SlotMap.Has | lib/RecompFrontend/lib/SlotMap/slot_map.h:872-887 | has_key as written answers the abstract lookup for every key |
| SlotMap.SlotMap.GetImpl | lib/RecompFrontend/lib/SlotMap/slot_map.h:536-566 | getImpl as written returns the value inserted under a present key, and nothing for an absent one not retired in place |
| SlotMap.SlotMap.Emplace | lib/RecompFrontend/lib/SlotMap/slot_map.h:961-999 | Returns a key never issued before and adds exactly that entry; the counter is the size of the map |
| SlotMap.SlotMap.EmplaceImpl | lib/RecompFrontend/lib/SlotMap/slot_map.h:961-999 | The in-place updates of pages, queue and counters are those of the specified transition |
| SlotMap.SlotMap.AppendElement | lib/RecompFrontend/lib/SlotMap/slot_map.h:568-590 | Adds one slot at the next index, on a new page when the last is full |
| SlotMap.SlotMap.EraseImpl | lib/RecompFrontend/lib/SlotMap/slot_map.h:787-859 | The shared erase body reaches the specified state and result in each of its five outcomes |
| SlotMap.SlotMap.Erase | lib/RecompFrontend/lib/SlotMap/slot_map.h:1004 | Removes the entry of the untagged key, if any, and nothing else |
| SlotMap.SlotMap.Pop | lib/RecompFrontend/lib/SlotMap/slot_map.h:1009-1020 | As erase, returning the value that was there; for a removed key it returns nothing, or a destroyed object when the slot is retired in place |
| SlotMap.SlotMap.Clear | lib/RecompFrontend/lib/SlotMap/slot_map.h:920-942 | The two loops, with their skip of pages without memory and their early exit, empty the map |
| SlotMap.ClearPastPage | lib/RecompFrontend/lib/SlotMap/slot_map.h:922-939 | Leaving a page early, or skipping it, leaves out nothing that an erase of every index would do |
| SlotMap.SlotMap.IsTombstone | lib/RecompFrontend/lib/SlotMap/slot_map.h:653-664 | For an index within bounds, true exactly when no live slot is there, pages without memory included |
| SlotMap.SlotMap.Begin | lib/RecompFrontend/lib/SlotMap/slot_map.h:1198-1208 | begin stands on the first live slot, or at the end |
| SlotMap.SlotMap.Next | lib/RecompFrontend/lib/SlotMap/slot_map.h:1177-1184 | ++ moves to the next live slot in index order, or to the end |
| SlotMap.SlotMap.Walk | lib/RecompFrontend/lib/SlotMap/slot_map.h:1177-1209 | A walk from begin to end terminates and visits each live slot once, in index order, with its value; numItems of them |
| SlotMap.EveryEntryVisited | lib/RecompFrontend/lib/SlotMap/slot_map.h:1177-1209 | A strictly increasing list of the live indices has as many entries as the map |
| SlotKey.MakeRoundTrip | lib/RecompFrontend/lib/SlotMap/slot_map.h:176-197 | Index and version come back from a packed 64-bit key exactly when the version fits its 20 bits |
| SlotKey.FieldsDetermineKey | lib/RecompFrontend/lib/SlotMap/slot_map.h:168-206 | Tag, version and index together determine the 64-bit word, which licenses the unpacked keys of the model |
| SlotKey.FieldsFillTheWord | lib/RecompFrontend/lib/SlotMap/slot_map.h:168-206 | The 64-bit key is the tag in its top twelve bits, the version in the next twenty and the index in the low thirty-two |
| SlotKey.RecycledKeyIsFresh | lib/RecompFrontend/lib/SlotMap/slot_map.h:187-192 | The recycled key is the untagged key of the new version at the same index, whatever tag came in |
| SlotKey.SetTagKeepsIdentity | lib/RecompFrontend/lib/SlotMap/slot_map.h:201-206 | Tagging a key changes neither its index nor its version |
| SlotKey.LastVersion32IsLost | lib/RecompFrontend/lib/SlotMap/slot_map.h:249-256 | The 32-bit key loses its own maximum version 0x400, and of the versions a slot can have only that one |
| SlotKey.Make32Packs | lib/RecompFrontend/lib/SlotMap/slot_map.h:249-256 | The 32-bit key holds the version, cut to ten bits, right above a twenty-bit index |
| PakCrc.PakDataCrc | src/main/os_unimpl_stubs.cpp:128-139 | The nested bit loops leave the register that the fed bits leave: the checksum |
| PakCrc.CrcIsTheRemainder | src/main/os_unimpl_stubs.cpp:128-139 | A byte is the checksum of a block if and only if it is a remainder of data*x^8 modulo x^8+x^7+x^2+1 over GF(2) |
| PakCrc.FeedDivides | src/main/os_unimpl_stubs.cpp:130-137 | The shift register is polynomial long division: quotient and remainder, coefficient by coefficient |
| PakCrc.RemainderIsUnique | src/main/os_unimpl_stubs.cpp:128-139 | Two remainders of one message are equal |
| PakCrc.FeedIsLinear | src/main/os_unimpl_stubs.cpp:130-137 | The register fed the sum of two bit strings holds the sum of their registers |
| PakCrc.CrcIsLinear | src/main/os_unimpl_stubs.cpp:128-139 | The checksum of the XOR of two blocks is the XOR of their checksums |
| PakCrc.BurstsAreDetected | src/main/os_unimpl_stubs.cpp:128-139 | Two different blocks whose bits differ only within eight consecutive places never share a checksum |
| PakCrc.CrcKeepsParity | src/main/os_unimpl_stubs.cpp:128-139 | The checksum has an odd number of one bits exactly when the data has |
| PakCrc.OddErrorsAreDetected | src/main/os_unimpl_stubs.cpp:128-139 | Two blocks that differ in an odd number of bits never share a checksum |
| PakCrcPairs.TwoBitErrorsPassIff | src/main/os_unimpl_stubs.cpp:128-139 | Two blocks that differ in exactly two bits share a checksum if and only if the bits are a multiple of 127 places apart: 127 or 254 in a block of 32 bytes |
| PakCrcPairs.TurnedIsOneIff | src/main/os_unimpl_stubs.cpp:130-137 | The register comes back to 1 exactly every 127 zero bits |
| PakFormat.FormatEmptyMempak | src/main/bar_input.cpp:431-461 | The image built is a formatted, empty pak: valid identification blocks at 1, 3, 4 and 6, both page tables with every data page free and a right checksum, zero elsewhere |
| PakFormat.FormattedBytes | src/main/bar_input.cpp:431-461 | An image is a formatted, empty pak if and only if it is this one, byte by byte: 0x0101 and 0xFEF1 are the sums of every identification block, 0x71 that of the page tables |
| PakFormat.FormattedIsUnique | src/main/bar_input.cpp:431-461 | There is only one such image, so the properties say everything about it |
| PakFormat.SumsAreComplementary | src/main/bar_input.cpp:439-444 | For any block the checksum and the inverted checksum add up to minus the number of words modulo 2^16 |
| PakFormat.IdBlock | src/main/bar_input.cpp:434-446 | The identification block carries both sums of its first 28 bytes |
| PakFormat.PageTable | src/main/bar_input.cpp:453-457 | The page table marks pages 5 to 127 free and carries the low byte of their sum |
| PakFormat.PfsSumcalc | src/main/bar_input.cpp:421-425 | The masked loop computes the byte sum modulo 2^16 |
| PakModel.ReadReturnsLastWrite | src/main/bar_input.cpp:519-544 | After every run with any failures, a successful read returns the last successful write to that port and block, or what the file or the blank image held |
| PakModel.UnreadableFileIsPreserved | src/main/bar_input.cpp:495-505 | A file is untouched while its port is not validly loaded, a file of the wrong size always; a loaded, valid, clean pak equals its file |
| PakModel.FlushedWritesSurviveRestart | src/main/bar_input.cpp:546-553 | Once a flush has left a port clean, a new session on that file reads back every write |
| PakModel.AccessSucceedsIff | src/main/bar_input.cpp:487-513 | In every run, exactly when a read or write is answered: the image is valid, or not loaded yet and loadable from the file the session began with |
| PakModel.FirstAccessWritesBlankPak | src/main/bar_input.cpp:487-513 | In every run the first access to a port without a file makes the blank pak and writes it at once: it is on file if the write succeeds, and dirty for the next flush if not |
| PakModel.GoodFlushCleans | src/main/bar_input.cpp:546-553 | A flush whose replacement succeeds leaves no loaded port dirty |
| PakModel.PakFileIsOldOrNew | src/main/bar_input.cpp:467-485 | At every stop of a write-back the pak file is the old one, or the whole new image exactly when nothing failed and every call was made; the temporary file is a prefix of the new image |
| PakModel.CutOffSessionLeavesAPak | src/main/bar_input.cpp:467-505 | A session cut off at any stop of a write-back leaves a file the next session loads: the new image or all of the old file |
| PakModel.RunKeeps | src/main/bar_input.cpp:467-553 | Every interleaving of reads, writes and flushes with arbitrary failures keeps the store invariant |
| PakModel.StoreKeeps | src/main/bar_input.cpp:535-543 | Skipping the copy of equal bytes keeps image, dirty flag and record of writes in step |
| PakStore.MempakStore.EnsureLoaded | src/main/bar_input.cpp:487-513 | The lazy load as written, each failure branch included, reaches the specified state and answer |
| PakStore.MempakStore.Persist | src/main/bar_input.cpp:467-485 | Temporary file, write, flush, close and rename, any of which may fail: the disk at every stop is the specified one, and the pak file is the old image until all succeed and the new image then |
| PakStore.MempakStore.MempakRead | src/main/bar_input.cpp:519-527 | Refuses a bad port or block; a successful read returns the block the history of writes says |
| PakStore.MempakStore.MempakWrite | src/main/bar_input.cpp:529-544 | A write that succeeds is what later reads return; one that fails records nothing |
| PakStore.MempakStore.MempakFlushAll | src/main/bar_input.cpp:546-553 | Writes back every dirty pak; a port whose write fails stays dirty |
| SiFrames.LongIsAlsoShortIff | src/main/os_unimpl_stubs.cpp:524-578 | A long pak frame is also taken for a short one if and only if its dummy byte is zero and its port is below 3 |
| SiFrames.ZeroDummyShiftsThePort | src/main/os_unimpl_stubs.cpp:524-578 | A long frame with a zero dummy byte below the last port is answered in its own place, but for the next port |
| SiFrames.FirstPortAnsweredForSecond | src/main/os_unimpl_stubs.cpp:524-578 | One such window: the first port, which has a pak, is told that it has none because the second has none |
| SiFrames.FramesAreUnambiguous | src/main/os_unimpl_stubs.cpp:518-578 | With dummy byte 0xFF no frame is classified both ways, and no frame is long at two channels |
| SiFrames.ShortAndLongAgree | src/main/os_unimpl_stubs.cpp:508-516 | A short pak frame and the long frame one byte further on give the same bytes and the same device state |
| SiFrames.HandlePakShifts | src/main/os_unimpl_stubs.cpp:192-269 | The shared handler, called one byte earlier, does the same one byte earlier |
| SiFrames.AnswerCarriesItsChecksum | src/main/os_unimpl_stubs.cpp:238-268 | An acknowledged frame carries the checksum of the data it carries; otherwise it carries the error bits, and only for an unreadable save; bytes outside the answer are unchanged |
| SiFrames.ReadAfterWrite | src/main/os_unimpl_stubs.cpp:226-255 | What a read of any block returns after a write to it: the save, the identify register with its Rumble Pak exception, or zeros |
| SiFrames.WritesStayApart | src/main/os_unimpl_stubs.cpp:226-255 | A write is seen only at its own block of its own port |
| SiFrames.PollAnswersPortsSeparately | src/main/os_unimpl_stubs.cpp:600-629 | A four-port poll answers every port as if it were alone on the bus and leaves the rest of the window and the device as they were |
| SiFrames.PollStaysInBlock | src/main/os_unimpl_stubs.cpp:604-628 | Answering a block leaves its filler, transmit size and command bytes as the game packed them |
| SiReplies.PollReplies | src/main/os_unimpl_stubs.cpp:600-629 | Every block of every poll, byte by byte: buttons as one big-endian halfword and the sticks, or type 0x0005 and the pak bit, or the error bit; other commands are left alone |
| SiReplies.StatusReply | src/main/os_unimpl_stubs.cpp:521-544 | The short status reply byte by byte, with or without a controller and a pak, and everything else as it was |
| SiReplies.PakReadReply | src/main/os_unimpl_stubs.cpp:545-599 | For a pak read at either place of any port, the 32 bytes the game finds, from the save, the identify register or zero, their checksum, and nothing else changed; unanswered, the error bit alone |
| SiReplies.PakWriteReply | src/main/os_unimpl_stubs.cpp:545-599 | For a pak write, the checksum of the bytes written, and the accessory changed by them; unanswered, the error bit alone and nothing changed |
| SiReplies.AccessChanges | src/main/os_unimpl_stubs.cpp:226-254 | Which access changes the identify register, the save, or the motor, which is on when the first byte written is not zero |
| SiReplies.AddressNamesBlock | src/main/os_unimpl_stubs.cpp:193-194 | The address bytes are big-endian, and their low five bits do not count |
| PakBus.AcknowledgedReadReturnsLastWrite | src/main/os_unimpl_stubs.cpp:192-269 | Over every history of bus frames and flushes, whatever file operations fail: an acknowledged read of the save returns the last acknowledged write to that port and block, or what the file or the blank pak held; and a read is acknowledged exactly when the store answers it |
| PakBus.AcknowledgedWritesAreRecorded | src/main/os_unimpl_stubs.cpp:226-268 | In every history exactly the acknowledged writes are recorded as written, and every frame leaves the frame's view of the saves and the store the same |
| PakBus.SaveAgrees | src/main/bar_input.cpp:487-544 | A save transaction on the image the frame sees and on the lazily loaded store: both answer or neither, with the same bytes, and both are left with the same image |
| PakBus.FrameAnswers | src/main/os_unimpl_stubs.cpp:192-269 | A transaction is acknowledged, error bit clear, exactly when it was served, and a read then carries the bytes served |
| PakBus.RequestIsAccess | src/main/os_unimpl_stubs.cpp:545-575 | What a pak request of given bytes asks for: the transaction of the history, at its place, block and data, if and only if a pak is there |
| SiBus.SiBus.StartDma | src/main/os_unimpl_stubs.cpp:493-632 | Exactly one completion message a call; a read of a buffer within the eight megabytes from 0x80000000 is answered within its 64 bytes; otherwise nothing but the message count changes |
| SiBus.SiBus.Answer | src/main/os_unimpl_stubs.cpp:493-630 | The classification loops and byte pokes produce the specified window and device, and no byte outside the window changes |
| SiBus.SiBus.AnswerUnaligned | src/main/os_unimpl_stubs.cpp:567-629 | Padded pak frames and the four-port poll, in place |
| SiBus.SiBus.FindLong | src/main/os_unimpl_stubs.cpp:567-578 | The search finds the first channel with a pak triple behind all-zero filler |
| SiBus.SiBus.HandlePakAt | src/main/os_unimpl_stubs.cpp:192-269 | The pak transaction in place: data, checksum or error bits, and the device behind it |
| SiBus.SiBus.ServeAt | src/main/os_unimpl_stubs.cpp:226-255 | The address decides which accessory answers |
| SiBus.SiBus.Poll | src/main/os_unimpl_stubs.cpp:604-628 | One 8-byte status or button block, answered in place with the bytes the reply prescribes |
| PortAssignment.ReconcileMeetsPolicy | src/frontend/controller_assignment.hpp:80-104 | What reconcile returns is what it remembers less the absent; connected controllers keep their ports; one left out found every port reserved, occupied or held by an unshared keyboard; distinct stays distinct |
| PortAssignment.ReconcileIsIdempotent | src/frontend/controller_assignment.hpp:80-104 | The same connected list again changes neither the remembered slots nor the result |
| PortAssignment.ReservationSurvives | src/frontend/controller_assignment.hpp:78-90 | Through any history of connected lists a reserved controller is remembered, and is back at its port whenever it is connected |
| PortAssignment.ConnectedPadNeverMoves | src/frontend/controller_assignment.hpp:78-104 | A controller connected through a history stays at its port |
| PortHotplugs.HotplugKeepsIff | src/frontend/controller_assignment.hpp:34-104 | From any distinct slots, a connected controller whose port has no legacy entry for another keeps its port through resolve_legacy and reconcile if and only if its own entry claims it again, or there is none and no port claims it |
| PortHotplugs.UidsPinPorts | src/frontend/controller_assignment.hpp:34-104 | When legacy entries name distinct uids, such a controller keeps its port from one hotplug to the next |
| PortHotplugs.SharedGuidMovesPad | src/frontend/controller_assignment.hpp:36-48 | Two ports reserved by one GUID and no uid: when the first controller is unplugged the second moves up |
| PortHotplugs.GuestMovesUp | src/frontend/controller_assignment.hpp:34-104 | A controller seated at a port whose entry is for an absent device moves when an earlier seat becomes free |
| PortAssignment.AbsentPadIsForgotten | src/frontend/controller_assignment.hpp:86-91 | An unreserved absent controller loses its slot at once; a gap reserved by hand is never filled |
| PortAssignment.ResolveLegacyMeetsPolicy | src/frontend/controller_assignment.hpp:34-59 | A legacy port claims, in port order, the first matching device not claimed before, or is empty with all of them claimed; another port keeps its controller unless that was claimed |
| PortAssignment.ClaimsAreDetermined | src/frontend/controller_assignment.hpp:36-50 | In port order each legacy port claims the first device of its GUID, and of its uid if it has one, that no earlier port claimed; no other choice of devices is such |
| PortAssignment.PolicySeatsNobodyTwiceIff | src/frontend/controller_assignment.hpp:49-58 | Under that policy nobody sits twice if and only if no two ports claim devices with one nonempty key |
| PortAssignment.NobodySitsTwice | src/frontend/controller_assignment.hpp:34-104 | Over any history of resolve_legacy then reconcile whose lists have distinct keys, no controller is ever on two ports |
| PortAssignment.AutomaticIsSettled | src/frontend/controller_assignment.hpp:66-76 | A fresh automatic layout is distinct and a fixed point of reconcile |
| PortAssignment.AutomaticSeatsInOrder | src/frontend/controller_assignment.hpp:66-76 | Every automatic slot: the first controllers in order, none reserved; the keyboard at the first port alone, when there is no controller, and shared unless asked to be separate |
| ControllerAssignment.ResolveLegacySlots | src/frontend/controller_assignment.hpp:34-59 | The loops with their used flags compute the specified slots in place |
| ControllerAssignment.ClaimPass | src/frontend/controller_assignment.hpp:36-48 | The reservation pass gives each legacy port the first unused match |
| ControllerAssignment.SeatOne | src/frontend/controller_assignment.hpp:92-102 | One newcomer takes the first open seat, in both slot arrays at once |
| ControllerAssignment.ReconcileSlots | src/frontend/controller_assignment.hpp:80-104 | Both loops, over slots changed in place, return the specified pair |
| ControllerAssignment.AutomaticSlots | src/frontend/controller_assignment.hpp:66-76 | The first controllers in order, and the keyboard only when there is none |
| ControllerKeys.ConnectedKeysAreDistinct | lib/RecompFrontend/recompinput/src/profiles.cpp:482-526 | In every history of looks at the host, connected controllers have pairwise different keys, whatever serials they report |
| ControllerKeys.KeyIsKept | lib/RecompFrontend/recompinput/src/profiles.cpp:482-490 | A controller keeps its key from one look to the next while others come and go |
| ControllerKeys.HotplugsSeatNobodyTwice | src/frontend/bar_frontend.cpp:633-743 | So through any hotplugs, at whichever looks the ports are assigned, no controller is on two ports |
| ControllerKeys.IdentifyKeeps | lib/RecompFrontend/recompinput/src/profiles.cpp:485-525 | Each call keeps keys distinct and the identities of live instances |
| ControllerKeys.NumberIsBounded | lib/RecompFrontend/recompinput/src/profiles.cpp:512-513 | The search for a free number stops by one more than the keys remembered |
| ControllerKeys.KeyDeterminesSerial | lib/RecompFrontend/recompinput/src/profiles.cpp:598-600 | Keys of one model differ with the serial, so numbers give different keys |
| ControllerKeys.KeyIdentifiesIff | lib/RecompFrontend/recompinput/src/profiles.cpp:598-600 | Keys are equal if and only if serial, vendor, product, version and checksum are, whatever text the serials hold |
| ControllerKeys.KeyReads | lib/RecompFrontend/recompinput/src/profiles.cpp:598-600 | The key spelled out, its four numbers in decimal |
| ControllerKeys.NewInstanceIdentity | lib/RecompFrontend/recompinput/src/profiles.cpp:492-525 | A new instance gets its own serial if no live instance has that key, else the smallest number whose key is free; known instances keep theirs |
| ControllerKeys.KeyCache.IdentityOf | lib/RecompFrontend/recompinput/src/profiles.cpp:482-526 | Purge, cache and search as written give the specified identity and cache |
| ControllerKeys.KeyCache.Purge | lib/RecompFrontend/recompinput/src/profiles.cpp:485-488 | Erasing while iterating leaves exactly the live instances |
| ControllerKeys.KeyCache.Renumber | lib/RecompFrontend/recompinput/src/profiles.cpp:510-513 | The loop finds the smallest number whose key is free |
| PadRegistry.PadsStayDistinct | src/main/bar_input.cpp:181-232 | Through every add and remove history tracked pads have distinct instance ids and distinct uids, each uid starting with its GUID |
| PadRegistry.FreeOrdinal | src/main/bar_input.cpp:213-215 | The search yields the smallest free ordinal, at most one more than the number of tracked pads |
| PadRegistry.SearchIsBounded | src/main/bar_input.cpp:213-215 | Pigeonhole: if every smaller ordinal is taken, the ordinal is at most one more than the number of pads, so the search terminates |
| PadRegistry.TakenOrdinalsNeedPads | src/main/bar_input.cpp:213-215 | n taken ordinals need n different identities |
| PadRegistry.NumeralRoundTrip | src/main/bar_input.cpp:214 | Decimal numerals determine their number, so ordinals give different identities |
| PadRegistry.NumeralIff | src/main/bar_input.cpp:213-214 | The numeral of a number is the one string of decimal digits without leading zeros that has its value |
| PadRegistry.UidFor | src/main/bar_input.cpp:206-216 | The identity given is free and starts with the GUID; which one it is, `PadRegistry.NewPadIdentity` says |
| PadRegistry.NewPadIdentity | src/main/bar_input.cpp:200-218 | For every state and new pad: GUID, "!" and serial, when there is a serial and nobody holds that; else "!#" and the smallest ordinal of the GUID that nobody holds; nobody else changes |
| PadRegistry.RemoveRemovesOne | src/main/bar_input.cpp:222-232 | An unplug removes exactly the named pad, and nothing when it is not tracked |
| PadRegistry.ReplugRestoresIdentity | src/main/bar_input.cpp:195-232 | A serial-less pad unplugged and replugged gets its identity back, whatever pads of other GUIDs come and go in between |
| PadRegistry.ReplugRestoresIdentityIff | src/main/bar_input.cpp:195-232 | Through any events in between, a serial-less pad unplugged and replugged gets its identity back if and only if nobody has it then and every smaller ordinal of its GUID is taken |
| PadRegistry.SerialIsGivenIff | src/main/bar_input.cpp:195-232 | Through any events in between, a pad with a serial gets the identity of its serial on every plug if and only if nobody holds it then |
| PadRegistry.OrdinalIsGivenIff | src/main/bar_input.cpp:211-215 | A serial-less pad gets ordinal n if and only if n is free and every smaller one is taken |
| PadRegistry.EqualUidsMeanEqualGuids | src/main/bar_input.cpp:210-215 | GUID strings of one length: equal identities mean equal GUIDs |
| PadRegistry.Registry.OnControllerAdded | src/main/bar_input.cpp:200-218 | Adds the pad under a fresh identity, or nothing for an instance already tracked |
| PadRegistry.Registry.OnControllerRemoved | src/main/bar_input.cpp:222-232 | Erases the first pad with the instance id |
| PadResolution.NoPadDrivesTwoPorts | src/main/bar_input.cpp:140-169 | The result is an injective partial map from ports to the first sixteen pads |
| PadResolution.ExactUidWins | src/main/bar_input.cpp:148-157 | The first port naming a connected uid gets the first such pad, whatever the others fall back on |
| PadResolution.GroupsAreMaximallyMatched | src/main/bar_input.cpp:140-169 | If equal uids imply equal GUIDs, each nonempty GUID group resolves exactly min(ports wanting it, such pads among the first 16) |
| PadResolution.ClaimsStayInGroup | src/main/bar_input.cpp:158-167 | Under the same condition a port gets only a pad of its own GUID |
| PadResolution.UnresolvedMeansAllClaimed | src/main/bar_input.cpp:158-167 | A port left without a pad means every pad of its GUID is claimed |
| PadResolution.PassMeetsSpec | src/main/bar_input.cpp:148-167 | What one pass does to every port, and that it takes nothing back |
| PadResolution.ServedInOrder | src/main/bar_input.cpp:148-167 | Ports are served in order: a pad that names an asking port, passed over for a later pad or for none, was given out before, to a lower port or by the earlier pass |
| PadResolution.ResolvePads | src/main/bar_input.cpp:140-169 | Both passes with their claimed flags compute the map, and the flags say which pads it uses |
| PadIdentity.ConfiguredUidsNameGuids | src/main/bar_input.cpp:140-216 | For ports configured from pads of any earlier history, with GUIDs of one length, equal uids imply equal GUIDs in every later history |
| PadIdentity.ConfiguredGroupsAreMaximallyMatched | src/main/bar_input.cpp:140-232 | So for such ports, over every plugging history, each GUID group resolves exactly min(ports wanting it, such pads among the first 16) |
| AspCommands.RunCommands | rsp/aspMain.cpp:89-157 | For every list of positive length, at any address, whose own commands spare the fetch state where they run, the chunked loop dispatches exactly the flat walk from the address the DMA keeps, each command the two big-endian words at its place in RDRAM with its registers, then halts with nothing left |
| AspCommands.Dispatch | rsp/aspMain.cpp:89-116 | The handler meets the command of the flat walk, its words and jump table place read from the bytes of the list; the four registers advance; the rest of the chunk stays buffered |
| AspCommands.CommandIsRead | rsp/aspMain.cpp:89-108 | A command is the eight bytes at its place: two big-endian words, a jump table place twice the first byte without its top bit, and the address and length behind it |
| AspCommands.LoadChunk | rsp/aspMain.cpp:166-237 | At most 0x140 bytes go into 0x380, in units of eight from the address with its low three bits dropped, and the cursor is reset |
| AspCommands.Refill | rsp/aspMain.cpp:129-149 | The next chunk is fetched where the walk stands |
| AspCommands.Start | rsp/aspMain.cpp:55-88 | The first chunk survives the clearing of the segment table |
| AspCommands.ClearSegments | rsp/aspMain.cpp:61-76 | The sixteen words at 0x320 are zeroed and nothing else |
| AspCommands.ChunkIsBuffered | rsp/aspMain.cpp:166-237 | A fetched chunk holds the commands from the current one on |
| AspCommands.RestIsBuffered | rsp/aspMain.cpp:95-126 | After a dispatch the cursor is on the next command |
| AspCommands.RegistersInRange | rsp/aspMain.cpp:98-135 | The 32-bit additions and signed tests of the loop agree with exact arithmetic on the list |
| AspBuffers.Clear | rsp/aspMain.cpp:278-316 | ceil(n/16) passes zero the rounded-up buffer, wherever it starts, wrapping around DMEM, and nothing else |
| AspBuffers.Move | rsp/aspMain.cpp:661-703 | For any operands, wrapping and overlapping ones included: ceil(n/16) passes, each reading sixteen bytes as the passes before left them |
| AspCopies.MovedFromSource | rsp/aspMain.cpp:661-703 | For any operands and count every byte of DMEM ends up with the original byte that its passes trace back to |
| AspCopies.MovedFromOrigin | rsp/aspMain.cpp:661-703 | Wherever operands wrap and overlap, place k of a destination that does not meet itself holds the source byte found by stepping back over what earlier passes overwrote |
| AspCopies.MoveCopiesIff | rsp/aspMain.cpp:661-703 | For any operands and count, wrapping included, a move copies its source for every memory if and only if its destination starts where the source does or no earlier than the source ends, going up around DMEM, or one pass does it all |
| AspBuffers.MovedElsewhere | rsp/aspMain.cpp:661-703 | A move changes nothing outside its rounded-up destination, wherever it wraps |
| AspCopies.MoveKeepsIff | rsp/aspMain.cpp:661-703 | A move leaves a range alone for every memory if and only if each of its bytes traces back to itself |
| AspCopies.ShortMoveKeepsIff | rsp/aspMain.cpp:661-703 | For a move no longer than its gap, or than what the gap leaves of DMEM: if and only if the destination misses the range or is the source |
| AspBuffers.Interleave | rsp/aspMain.cpp:585-659 | For any operands, wrapping, overlapping and unaligned ones included: ceil(n/16) passes, each weaving what its two vector loads leave in their registers, DMEM and registers as the passes before left them |
| AspBuffers.HalfwordsAlternate | rsp/aspMain.cpp:609-640 | In a pass the output halfword 2k is halfword k of the left channel, 2k+1 that of the right |
| AspMixes.MixedAlternates | rsp/aspMain.cpp:585-659 | With an output that misses both channels, wrapping included, the whole output alternates halfwords of the channels as they were, but for the bytes an unaligned load does not reach, where the register's old bytes are heard |
| AspMixes.AlignedChannelsAreHeard | rsp/aspMain.cpp:604-608 | Every byte is the channel's own when the channel is on a 16-byte boundary, and otherwise the last byte of each pass is the register's |
| AspMixes.MixedElsewhere | rsp/aspMain.cpp:585-659 | An interleave changes nothing outside twice its rounded-up count, wherever it wraps |
| AspHandlers.ClearHandler | rsp/aspMain.cpp:278-316 | L_11DC on the words of a command: the clear its operands ask for |
| AspHandlers.MoveHandler | rsp/aspMain.cpp:661-703 | L_140C on the words of a command: the move its operands ask for |
| AspHandlers.InterleaveHandler | rsp/aspMain.cpp:585-659 | L_138C on the words of a command: the interleave its operands and the parameters in DMEM ask for |
| AspHandlers.OperandsAreRead | rsp/aspMain.cpp:278-303 | The operands of a clear or a move are the big-endian halfwords of its eight bytes, the count rounded up to whole passes |
| AspHandlers.InterleaveOperandsAreRead | rsp/aspMain.cpp:585-603 | The channels of an interleave are halfwords of its bytes, its output and count halfwords of DMEM at 0x362 and 0x364 |
| AspHandlers.ClearSparesBufferIff | rsp/aspMain.cpp:278-316 | A clear spares the command buffer of every memory if and only if its rounded, wrapping range misses it |
| AspHandlers.MoveSparesBufferIff | rsp/aspMain.cpp:661-703 | A move spares the command buffer of every memory if and only if each byte of it is its own source: up to half of DMEM, if and only if the destination misses it or is the source |
| AspHandlers.ClearRespects | rsp/aspMain.cpp:278-316 | A clear whose rounded, wrapping range misses the command buffer keeps the fetch state |
| AspHandlers.MoveRespects | rsp/aspMain.cpp:661-703 | A move that spares the command buffer keeps the fetch state |
| AspHandlers.InterleaveRespects | rsp/aspMain.cpp:585-659 | An interleave whose output, as the parameters in DMEM give it, misses the command buffer keeps the fetch state |
| AspHandlers.SafeListsAreServed | rsp/aspMain.cpp:89-316 | A list of such clears, moves and interleaves, each making the setting the next needs, and of commands whose handlers keep the fetch state, meets what the loop asks of its handlers |
| AspHandlers.BufferListsAreServed | rsp/aspMain.cpp:89-703 | A list of clears, moves and interleaves that miss the command buffer and the interleaves' parameters is served as written |
| AspHandlers.WrappingClearMeetsBuffer | rsp/aspMain.cpp:278-316 | A clear of 16 bytes at 0xDC0 wraps around into the command buffer |
| RumbleModel.DutyIsAShareIff | src/main/bar_rumble.cpp:52-113 | For every history, with motor writes landing between a step's clock sample and its reading: the duty before clamping is never negative, and at most 1 if and only if the on-time stamped after the sample fits the slack left in the interval |
| RumbleModel.LevelFollowsDuty | src/main/bar_rumble.cpp:112-119 | In every such history the level stays in [0,1] and moves towards the clamped duty without passing it |
| RumbleModel.OvertakenDutyIsUnbounded | src/main/bar_rumble.cpp:52-113 | For every n there is a history whose duty before clamping is n |
| RumbleModel.LateWritesRaise | src/main/bar_rumble.cpp:52-85 | Writes that land after a clock sample raise the reading at that sample by exactly the on-time they book after it |
| RumbleModel.SentValueTracksStrength | src/main/bar_rumble.cpp:121-132 | After each advancing step the value last sent is within 0x800 of the wanted strength, and zero exactly when it is |
| RumbleForce.DutyIsTimeOn | src/main/bar_rumble.cpp:52-113 | In every history that no write overtakes, the duty of a step is the share of the interval, counted nanosecond by nanosecond, that the game had the motor on |
| RumbleForce.OnTimeIsMeasured | src/main/bar_rumble.cpp:52-85 | After any writes in order, the on-time is the number of nanoseconds the motor was on |
| RumbleForce.LevelIsFiltered | src/main/bar_rumble.cpp:112-119 | The level moves by the spin-up or run-down share of its distance to the clamped duty |
| RumbleForce.StrengthIsRounded | src/main/bar_rumble.cpp:108-122 | The strength is within half of level times slider times 65535, zero below 1023.5 and when silenced |
| RumbleForce.StrengthGrows | src/main/bar_rumble.cpp:108-122 | More level or slider never gives less strength, and full level under a full slider gives 65535 |
| RumbleForce.SendsIff | src/main/bar_rumble.cpp:124-131 | A strength is sent exactly when none was, when it is 2048 or more off the last, when it starts or stops, or when it is held and more than 100 ms old |
| RumbleModel.HeldStrengthNeverLapses | src/main/bar_rumble.cpp:124-131 | With steps at most 150 ms apart, overtaken or not, a nonzero strength is at most 250 ms old when the next step comes, and is renewed then if 100 ms have passed |
| RumbleModel.RunKeeps | src/main/bar_rumble.cpp:71-131 | Every history of motor writes and steps, overtaken steps included, keeps the invariant over on-times, level and sent values |
| Rumble.Rumble.WriteMotor | src/main/bar_rumble.cpp:71-85 | One port changes, and only if the write changes its state |
| Rumble.Rumble.StepOne | src/main/bar_rumble.cpp:112-132 | The per-port body computes the specified level, strength and sent value in place; `RumbleForce` says what they are |
| Rumble.Rumble.StepAll | src/main/bar_rumble.cpp:87-132 | One frame over all ports, writes overtaking it at each: first call, stalled clock and advancing clock |
| HudTags.SaveThenLoad | src/main/bar_inspector.cpp:128-138 | For every document and override table, loading what was saved gives the tags loaded before, updated by the overrides |
| HudTags.RestartPreservesLookupIff | src/main/bar_inspector.cpp:151-200 | For any tags in memory, file and overrides from the panel, lookup answers after a save and a restart what it answered before if and only if: for an overridden pair, not only its second identity is overridden with the file tagging the first otherwise; for another, the tags in memory answer as those in the file |
| HudSessions.RestartKeepsLookupIff | src/main/bar_inspector.cpp:71-200 | The same through every history of overrides set, cleared and saved, hand edits and restarts, the file's tags being all that was saved to it |
| HudSessions.FileHoldsWhatWasSaved | src/main/bar_inspector.cpp:108-200 | In every history the file's tags are those it had at the last start or edit, updated by all saves since |
| HudSessions.SaveUpdatesFile | src/main/bar_inspector.cpp:154-223 | In a session a save updates the tags of the file by the overrides, or, when the file is malformed or cannot be replaced, leaves it as it was; the tables in memory stay |
| HudSessions.QuietSessionSurvivesIff | src/main/bar_inspector.cpp:71-200 | In a session without clears and edits only an overridden second identity is lost, to a file tag the game started with |
| HudSessions.FileTagReturns | src/main/bar_inspector.cpp:457-471 | For every file that tags the first identity: with only the second overridden, the override answers now and the tag after a restart |
| HudSessions.ClearedTagReturns | src/main/bar_inspector.cpp:71-200 | For every file that does not tag an identity: set, saved, cleared and saved again, it is untagged now and tagged after a restart |
| HudTags.SaveOrderIsIrrelevant | src/main/bar_inspector.cpp:183-200 | The order in which the unordered table is visited does not matter to what is loaded back |
| HudTags.OverriddenOnce | src/main/bar_inspector.cpp:189-200 | Each overridden identity ends up in exactly one list, exactly once |
| HudTags.OverrideIsLoadedBackIffValid | src/main/bar_inspector.cpp:80-95 | For any class, whether or not the panel offers it, the class loaded back is the class overridden if and only if it is one of the seven |
| HudTags.LoadFindsLastClass | src/main/bar_inspector.cpp:128-138 | Loading gives a listed identity the last class that lists it and tags nothing else |
| HudTags.MergeLists | src/main/bar_inspector.cpp:189-200 | One override leaves its identity in its own list alone and every other identity where it was |
| HudTags.PrepareKeepsLists | src/main/bar_inspector.cpp:169-181 | The help text and the missing lists change no list there was |
| HudTags.SaveKeepsOtherFields | src/main/bar_inspector.cpp:154-200 | A save keeps every field of the document that is no class list, but for the help text, which it writes |
| HudTags.SaveMakesLists | src/main/bar_inspector.cpp:179-181 | A saved document has every class as a list, whatever stood in its field |
| HudInspector.Inspector.LoadTags | src/main/bar_inspector.cpp:108-140 | The loops find exactly the tags of the file, none in a missing or malformed one, and the shortcut is kept right |
| HudInspector.Inspector.TagLookup | src/main/bar_inspector.cpp:457-471 | Overrides win over tags and the first identity over the second; the any-tags shortcut never hides an answer |
| HudInspector.Inspector.SetOverride | src/main/bar_inspector.cpp:387-391 | A chosen class takes effect as the session specifies, and the shortcut is kept right |
| HudInspector.Inspector.ClearOverride | src/main/bar_inspector.cpp:379-383 | Both identities lose their overrides, and the shortcut is kept right |
| HudInspector.Inspector.ClearOverrides | src/main/bar_inspector.cpp:284-289 | All overrides go, the file and the tags stay |
| HudInspector.Inspector.SaveToFile | src/main/bar_inspector.cpp:154-223 | Every override is merged into the file, unless it is malformed or cannot be replaced, and the result says which |
| HudInspector.Listing | src/main/bar_inspector.cpp:183-189 | The table is visited once each, in some order |
| HudInspector.EraseIdentity | src/main/bar_inspector.cpp:193-198 | The erase-while-iterating loop removes every occurrence and keeps the rest in order |
| HudInspector.SaveOverrides | src/main/bar_inspector.cpp:169-200 | Lists prepared, then every override merged, in the order visited |
| HudInspector.SaveOne | src/main/bar_inspector.cpp:192-199 | One override: dropped from all lists, then appended to its own |
| Bindings.FreezeThenResolve | scripts/generate-original-bindings.py:181-253 | An accepted freeze resolves on the same file if and only if every frozen section name starts with a dot and no symbol bears a frozen name at another address |
| Spellings.ResolveBindingsIff | scripts/generate-original-bindings.py:230-253 | Exactly which files resolve under a policy, and to which bindings: each row by a function found alone in its section at its address, with its size, an accepted spelling, no alias and its digest |
| Spellings.ResolveOneIff | scripts/generate-original-bindings.py:235-251 | The same for one row of any policy on any file |
| Spellings.FuncNameIff | scripts/generate-original-bindings.py:240 | The generated spelling of an address is "func_" and its upper-case hexadecimal digits, eight unless more are needed, and no other text |
| Spellings.FreezePolicyIff | scripts/generate-original-bindings.py:181-203 | Exactly which files freeze, and to which policy: its digests, and its rows name by name |
| Spellings.FreezeOneIff | scripts/generate-original-bindings.py:189-201 | The same for one name of any map |
| Policies.PolicyOkIff | scripts/generate-original-bindings.py:206-227 | The policies accepted: three digests and 29 rows that fit, with different names, no address in two of them |
| Policies.RowOkIff | scripts/generate-original-bindings.py:219-224 | The rows that fit: identifiers, a dotted section, one to 16384 whole instructions within 32 bits, a digest of 64 lower-case hexadecimal digits |
| Policies.NameMapOkIff | scripts/generate-original-bindings.py:168-178 | The name maps accepted: 29 different identifiers of 29 different instruction addresses |
| BindingFile.FileIsRead | scripts/generate-original-bindings.py:74-132 | A file given byte by byte, with 29 functions and any encodable symbols beside them, is parsed to the value it encodes |
| BindingWitness.FileFreezes | scripts/generate-original-bindings.py:181-203 | The tool freezes every such file whose other symbols are no functions |
| BindingWitness.WitnessResolvesIff | scripts/generate-original-bindings.py:206-253 | And resolves it again if and only if no other symbol bears a frozen name at another address |
| BindingWitness.OneAliasRejects | scripts/generate-original-bindings.py:181-253 | Two files, one symbol apart: both freeze, to the same rows; the first resolves and the second is rejected |
| Bindings.BoundBytesComeFromRom | scripts/generate-original-bindings.py:230-253 | In any target file that resolves, each bound function has the bytes of the ROM at the frozen load address, or the two are a collision of the digest |
| Bindings.FreezeYields | scripts/generate-original-bindings.py:181-203 | What an accepted freeze guarantees: rows frozen from the reference, apart, distinct, and well formed but for the section name |
| Bindings.FrozenRowResolves | scripts/generate-original-bindings.py:235-251 | A frozen row resolves on the reference exactly when its name has no conflicting alias |
| Bindings.FrozenRowsResolve | scripts/generate-original-bindings.py:235-252 | All rows together resolve exactly when each does: no identity is used twice |
| Bindings.FreezeRowsLength | scripts/generate-original-bindings.py:189-201 | Frozen rows are as many as the names and their extents do not overlap |
| ElfTables.ParseDescribes | scripts/generate-original-bindings.py:76-132 | Parsing yields a value if and only if the value describes the file: header fields, sections in place, load segments in order, symbols table after table, names as NUL-terminated ASCII; every other file is rejected |
| ElfTables.SectionsRead | scripts/generate-original-bindings.py:88-96 | The sections read are those of the table, each in its place, and a bad entry rejects the file |
| ElfTables.LoadsRead | scripts/generate-original-bindings.py:97-105 | The load segments read are the entries of that type, in order, and a bad one rejects the file |
| ElfTables.SymbolsRead | scripts/generate-original-bindings.py:107-120 | The symbols read are those of every symbol table, in order, and a bad table or entry rejects the file |
| ElfTables.StringReads | scripts/generate-original-bindings.py:127-132 | A string reads as the ASCII bytes up to its first NUL, and as nothing else |
| ElfModel.PositivesAreFunctions | scripts/generate-original-bindings.py:134-152 | Everything found is a sized, global function symbol inside an allocated executable section of the file |
| ElfModel.PositivesMissNothing | scripts/generate-original-bindings.py:134-152 | Every sized function symbol at the address in a matching section is found, and the search is rejected if and only if one of them is malformed or has no section |
| ElfFunctions.OneFunctionIff | scripts/generate-original-bindings.py:134-152 | A search finds one function exactly when one symbol alone is a proper function of a searched section at the address, field by field, and every other function symbol there is of a section not searched |
| ElfModel.RomOffsetFollowsItsLoad | scripts/generate-original-bindings.py:157-165 | The ROM offset lies as far into the load addresses of its segment as the bytes lie into the segment in the file, and no other segment maps the function |
| ElfFunctions.RomOffsetIff | scripts/generate-original-bindings.py:157-165 | The ROM offset is given exactly when one segment alone holds the function as far from its start in the file as in memory, and is that far into its load addresses |
| ElfModel.NarrowSearchAgrees | scripts/generate-original-bindings.py:134-152 | Searching one section finds what searching all of them found there |
| ElfModel.FoundHasBytes | scripts/generate-original-bindings.py:154-155 | A found function has its bytes in the file, as many as its size |
| BindingTool.FindPositives | scripts/generate-original-bindings.py:134-152 | The search loop with its early rejections computes the specified list |
| BindingTool.Freeze | scripts/generate-original-bindings.py:181-203 | The freeze as written computes the specified policy or rejects |
| BindingTool.FreezeLoop | scripts/generate-original-bindings.py:189-201 | The loop over names with its overlap windows |
| BindingTool.CheckPolicy | scripts/generate-original-bindings.py:206-227 | The loop of checks accepts exactly the well-formed policies with disjoint extents |
| BindingTool.Resolve | scripts/generate-original-bindings.py:230-253 | The resolve as written computes the specified bindings or rejects |
| BindingTool.ResolveLoop | scripts/generate-original-bindings.py:235-252 | The loop over rows with its set of used identities |

## Left out

Statements that are narrower than the code:

- AspBuffers.Move: vector loads and stores move their bytes one by one with addresses wrapping around DMEM, and an unaligned quad load stops at the 16-byte boundary; the vector unit's own source is not part of this model.
- AspCommands.RunCommands: handlers are abstract steps that, on the commands of the list and in their setting, keep r27 to r30, DMEM 0x380-0x4BF and the list in RDRAM; clear, move and interleave are shown to, the others are not modelled. That a DMA rounds its length up to eight bytes and drops the low three address bits is taken from the hardware, its macros are not part of this model. A list whose length is zero or negative is not modelled.
- PadRegistry.ReplugRestoresIdentity: in between only pads of other GUIDs, all GUIDs of one length, come and go; `PadRegistry.ReplugRestoresIdentityIff` is about any events.
- PortHotplugs.HotplugKeepsIff: a controller at a port whose legacy entry is for another is left out, since where it sits next depends on every seat before it; `PortHotplugs.GuestMovesUp` is an input that moves it.
- ControllerKeys.ConnectedKeysAreDistinct: the live instances are sampled once for all controllers of a look.
- PakModel.PakFileIsOldOrNew: the rename is atomic, as the host promises.
- Bindings.BoundBytesComeFromRom: SHA-256 is any function to digests, so the statement offers a collision as the alternative.

Parts of the repository that the model does not have:

- Slot map: raw memory, alignment and destructors (a destroyed value is a marked cell); `reset`, copy and move; indices past 2^32; `slot_map_key32` beyond its version field. Pages are values in a sequence, so aliasing of references into a page is not captured.
- SI path: debug traces, environment switches, cheats, the frame limiter and HUD-anchor pokes; the constant write of the controller count; the byte swizzling of RDRAM. The save behind a port is a readable or unreadable map of blocks there; `PakBus` joins it to the store of `PakModel`.
- Pak store: the existence probe and the read are outcomes; mutexes and paths.
- Controllers: SDL, the default "Controller" name, the rest of `refresh_players`, `enumerate_devices`, the profile index behind a key and its hash, sampling of buttons and the keyboard profile test.
- Audio microcode: the ADPCM, resample, filter and mixer handlers, the jump table, and the byte swizzling of DMEM.
- Rumble: `exp` is a factor between 0 and 1, doubles are reals, and the trace output, raw mode and call counter are gone.
- HUD inspector: JSON text, file reading and writing, the mutex, and drawing the panel.
- Binding tool: JSON shapes, the JSON encoding and SHA-256 (uninterpreted), error messages, `effective_toml`, file-system and Git checks. `Env` carries the digest and the encoder.
- Everything else in the repository: rendering, menus, configuration, packaging.
