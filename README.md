# PoweredPortals in Dafny

A verified model of the core of PoweredPortals. PoweredPortals emulates a USB
"portal" for toy-to-life games. The host reads and writes figure images in
16-byte blocks, using vendor commands carried in SET_CONFIGURATION requests.
It learns which slots hold a figure by polling a status frame on the interrupt
IN endpoint. A background watcher reloads slots from a configuration file and
signals every change through a 2-bit field per slot in a shared status word.

The model has these modules:

- `Bytes` (`bytes.dfy`): the Python byte-string operations the code relies on.
  These are clamped slicing, `ljust` padding, the `struct` string field `<n>s`
  and the integer fields `>H`, `>I` and `<I`.
- `Figures` (`figures.dfy`): the figure image from `skylander.py`.
  - `BlockAt` and `Spliced` state the block read and the block splice on
    values.
  - The class `Skylander` holds `path` and `data` and updates them in place.
  - The class `Slot` is the slot record.
- `Protocol` (`protocol.dfy`): the command dispatcher and the status frame, on
  values.
  - A request ends in exactly one of four ways: a frame sent and then an ack,
    an ack alone, a stall, or a Python exception raised out of the handler
    (`Raise`).
- `Watcher` (`watcher.dfy`): the status word, as `bv32`, and the watcher's
  reload loop, on values.
  - Every `await asyncio.sleep(1)` in the reload loop becomes an entry in
    `observed`. That entry is the status value the host can see during the
    sleep. `Device.Portal.Poll` appends one more entry for the sleep that
    closes each round.
  - A figure file that cannot be opened stops the pass (`LoadFailed`), as the
    uncaught exception ends the watcher coroutine.
- `Device` (`portal.dfy`): the running device as one object, the class
  `Portal`.
  - Its fields are `active`, the IN endpoint's counter, `portal_status`, the 16
    `Slot` objects and the file system as a map from path to contents.
  - Every handler changes these in place. Each handler is proved to end in the
    state that the `Protocol` or `Watcher` function gives.
  - The class invariant `Valid` has three parts. The slot objects are distinct
    and so are their figures. The counter stays below 255. The status word
    agrees with the slot table (`Watcher.Consistent`): pair `01` for a loaded
    slot, `00` for an empty one, and slot 16's pair is always `00`; slot 0,
    which has no pair and which the watcher never fills, is always empty; and
    every loaded figure came from a non-empty path.

The model follows these details of the code:

- The `R` frame is `52 02 0A 03 02` followed by 27 zero bytes. The constant
  `0x020a0302` is packed big-endian.
- An insertion leaves the slot's pair at `01`. Only the notify bit is cleared
  after `11`.
- A removal goes `01`, then `10`, then `00`.
- The `Q` frame is 19 bytes and is not padded to 32.
- The reload loop visits slots 1 to 15 only.
- The code catches no error while loading a figure. A missing file ends the
  watcher instead of being skipped.
- A `Q` or `W` on an empty slot raises `AttributeError` rather than stalling.

The slot selector `data[1] % 0x10 + 1` is 16 whenever the low nibble of
`data[1]` is `F`. The 16-entry `slots` list has no index 16, so `Q` and `W`
raise `IndexError` for those selectors. The model keeps this behaviour:
`Protocol.SlotSixteenRaises` proves it for every such request.

## Model

| member | source | states |
|---|---|---|
| `Bytes.Slice` | skylander.py:22 | `s[lo:hi]` with Python's clamping: the result's length is `max(0, min(hi,len) - min(lo,len))` and its bytes are `s[lo..]` |
| `Bytes.Drop` | skylander.py:27 | `s[lo:]`: `max(0, len - lo)` bytes, copied from `s[lo..]`, and empty past the end |
| `Bytes.LeftJustify` | facedancer-portal.py:67 | `ljust(width, b'\0')` keeps the bytes, pads with zeros up to `width` and never truncates |
| `Bytes.FixedField` | facedancer-portal.py:136 | the `16s` field: exactly `n` bytes, with byte `k` equal to the input's byte `k` where it exists and 0 elsewhere |
| `Bytes.UInt16BE` | facedancer-portal.py:126 | `>H`: two bytes whose big-endian value is `x` |
| `Bytes.UInt32BE` | facedancer-portal.py:120 | `>I`: four bytes whose big-endian value is `x` |
| `Bytes.UInt32LE` | facedancer-portal.py:67 | `<I`: four bytes whose little-endian value is `x` |
| `Figures.BlockAt` | skylander.py:19-22 | block `i` is `data[16i .. 16i+16]`, clipped at the end; its length is `min(16, max(0, len - 16i))` |
| `Figures.Spliced` | skylander.py:24-27 | the spliced buffer has the prefix before `16i`, then the block, then the old bytes after `16i + len(block)`; its length is `len - (min(16i+len(b),len) - min(16i,len)) + len(b)` |
| `Figures.WriteThenRead` | skylander.py:19-27 | writing a 16-byte block inside the buffer and then reading it back gives the block |
| `Figures.InBoundsWriteKeepsLength` | skylander.py:24-27 | a write that lies inside the buffer keeps its length |
| `Figures.WriteKeepsOtherBytes` | skylander.py:25-27 | a 16-byte in-bounds write changes no byte outside its block |
| `Figures.WriteKeepsOtherBlocks` | skylander.py:19-27 | a 16-byte in-bounds write leaves every other block as it reads |
| `Figures.WritePastEndAppends` | skylander.py:25-27 | a write at or past the end gives `data + block`, not a block placed at `16i` |
| `Figures.ReadPastEndIsEmpty` | skylander.py:19-22 | a read at or past the end is empty rather than an error |
| `Figures.Skylander.constructor` | skylander.py:2-13 | a new figure has the given path and holds the file's whole contents |
| `Figures.Skylander.ReadBlock` | skylander.py:19-22 | the result is at most 16 bytes: the whole block inside the buffer, the tail where the buffer ends, and empty past it |
| `Figures.Skylander.WriteBlock` | skylander.py:24-27 | `_data` becomes the spliced buffer and the path is unchanged |
| `Figures.Skylander.Save` | skylander.py:29-31 | the file at the figure's path now holds the whole buffer, and no other file changes |
| `Figures.Slot.constructor` | skylander.py:54-56 | `Slot()` holds no figure and is not active |
| `Protocol.SlotSelector` | facedancer-portal.py:133 | the selector is always in 1..16, and it is 16 exactly when the low nibble is `F` |
| `Protocol.ResetFrame` | facedancer-portal.py:120 | the `R` frame is `52 02 0A 03 02` followed by 27 zeros |
| `Protocol.ActivateFrame` | facedancer-portal.py:126 | the `A` frame is `41`, the flag as 0 or 1, `FF 77`, then 28 zeros |
| `Protocol.QueryFrame` | facedancer-portal.py:136 | the `Q` frame is 19 bytes: `Q`, the two selector bytes, then the block zero-filled to 16 |
| `Protocol.WriteFrame` | facedancer-portal.py:141 | the `W` frame is 32 bytes: `W`, the two selector bytes, then zeros |
| `Protocol.StatusLayout` | facedancer-portal.py:67 | padding the status frame's head leaves the tag at byte 0, the word at 1..4, the counter at 5, the flag at 6 and zeros up to byte 31 |
| `Protocol.StatusFrame` | facedancer-portal.py:67 | the status frame is 32 bytes: `S`, then four bytes whose little-endian value is the status word, then the counter, the flag as 0 or 1 and zeros |
| `Protocol.NextCounter` | facedancer-portal.py:69-70 | `(index + 1) % 0xff` stays below 255, wraps to 0 exactly after 254 and otherwise adds one |
| `Protocol.Dispatch` | facedancer-portal.py:117-148 | every request leaves a 16-entry table |
| `Protocol.ResetCommand` | facedancer-portal.py:119-120 | `R` answers the reset frame and changes nothing |
| `Protocol.ActivateCommand` | facedancer-portal.py:121-126 | `A` sets the flag to `data[1] != 0` and echoes it in its frame |
| `Protocol.SlotSixteenRaises` | facedancer-portal.py:129-141 | a `Q` or `W` whose selector's low nibble is `F` raises, because the table has no slot 16, and changes nothing |
| `Protocol.QueryCommand` | facedancer-portal.py:129-136 | `Q` on a loaded slot answers 19 bytes: the request's first three bytes, then the block zero-filled to 16; nothing changes |
| `Protocol.EmptySlotRaises` | facedancer-portal.py:129-141 | a `Q` or `W` on a slot 1..15 that holds no figure raises (`AttributeError` on `None`) and changes nothing |
| `Protocol.DispatchOutcomes` | facedancer-portal.py:119-148 | a stall happens exactly for an unknown tag, an ack without a frame exactly for `C` and `S`, and an exception exactly for an empty payload, an `A` shorter than 2 bytes, or a `Q`/`W` shorter than 3 bytes, addressing slot 16 or addressing an empty slot, and the fault is `PayloadTooShort` exactly in the three too-short cases; only `A` changes the flag, only `W` changes the table, and a request that raises changes nothing |
| `Protocol.WriteCommand` | facedancer-portal.py:137-141 | `W` on a loaded slot splices `data[3:]` into that figure at block `data[2]`, keeps its path, answers the `W` frame and changes no other slot |
| `Protocol.QueryAfterWrite` | facedancer-portal.py:129-141 | a 16-byte in-bounds `W` followed by `Q` of the same selector and block answers the written block |
| `Protocol.DispatchKeepsFigures` | facedancer-portal.py:117-148 | no request loads, unloads or renames a figure |
| `Watcher.MaskIsShift` | facedancer-portal.py:165 | the slot mask is `3 << 2 * (index - 1)` |
| `Watcher.NotifyIsShift` | facedancer-portal.py:169 | the notify bit is `1 << 2 * (index - 1) + 1` |
| `Watcher.Toggled` | facedancer-portal.py:165 | `portal_status ^= 3 << 2 * (index - 1)`: the word xored with the slot's mask, which `MaskIsShift` proves is that shift; `ToggledPairs` states its effect on the pairs |
| `Watcher.Marked` | facedancer-portal.py:178 | `portal_status \|= 3 << 2 * (index - 1)`: the word ored with the slot's mask; `MarkedPairs` states its effect on the pairs |
| `Watcher.NotifyFlipped` | facedancer-portal.py:169 | `portal_status ^= 1 << 2 * (index - 1) + 1` (also line 181): the word xored with the slot's high bit, which `NotifyIsShift` proves is that shift; `NotifyFlippedPairs` states its effect |
| `Watcher.ConfigPath` | facedancer-portal.py:162 | the slot's configuration line is present exactly when the section has the slot's key, and is then that key's value |
| `Watcher.Truthy` | facedancer-portal.py:175 | the `and path` test: a value is truthy exactly when it is neither missing nor the empty string |
| `Watcher.ToggledPairs` | facedancer-portal.py:165 | `^= 3 << …` complements the slot's pair and keeps every other pair |
| `Watcher.MarkedPairs` | facedancer-portal.py:178 | `\|= 3 << …` sets the slot's pair to `11` and keeps every other pair |
| `Watcher.NotifyFlippedPairs` | facedancer-portal.py:169 | `^= 1 << … + 1` flips the slot's high bit and keeps every other pair |
| `Watcher.EmptyTable` | facedancer-portal.py:188-190 | the module starts with 16 empty slots |
| `Watcher.InitiallyConsistent` | facedancer-portal.py:188-190 | `portal_status = 0` with 16 empty slots agrees with the table |
| `Watcher.ChangeKeepsConsistent` | facedancer-portal.py:161-183 | a change confined to one slot, whose new pair reports its new entry, keeps status and table in agreement |
| `Watcher.RewriteKeepsConsistent` | facedancer-portal.py:137-141 | a `W` rewriting a loaded figure's bytes keeps status and table in agreement |
| `Watcher.Remove` | facedancer-portal.py:163-174 | removal empties the slot, changes no other slot, saves the figure's bytes to its own path, keeps every other file, and records two status values, the second being the final status |
| `Watcher.Insert` | facedancer-portal.py:175-183 | insertion loads the file's contents under its path, changes no other slot or file, and records two status values, the second being the final status |
| `Watcher.ReconcileSlot` | facedancer-portal.py:162-183 | one iteration changes only its own slot's entry, and fails only at its own slot |
| `Watcher.RunPass` | facedancer-portal.py:161-183 | a pass touches only the visited slots 1..15, and a failure names a visited slot |
| `Watcher.PassStep` | facedancer-portal.py:161 | a completed pass over slots below `upto`, followed by slot `upto`, is the pass up to `upto + 1` |
| `Watcher.PassAdvance` | facedancer-portal.py:161-183 | the next slot's outcome is the pass's outcome, and a failure there is the result of the whole pass |
| `Watcher.FailedPassStops` | facedancer-portal.py:161-183 | once a file cannot be opened, no later slot is visited |
| `Watcher.RemovePairs` | facedancer-portal.py:165-171 | removal reports the complement of the pair, then that with the high bit flipped; no other pair changes in either reported word |
| `Watcher.InsertPairs` | facedancer-portal.py:176-181 | insertion reports `11`, then `01`; no other pair changes in either reported word |
| `Watcher.RemoveKeepsConsistent` | facedancer-portal.py:163-174 | from agreement, removal reports `10` then `00` and keeps status and table in agreement |
| `Watcher.InsertKeepsConsistent` | facedancer-portal.py:175-183 | from agreement, insertion from a non-empty path reports `11` then `01` and keeps agreement |
| `Watcher.ReconcileTouchesOnlyItsPair` | facedancer-portal.py:161-183 | reconciling slot `i` changes no other slot's bits, in the final status word and in every word reported during its sleeps; earlier reports are kept |
| `Watcher.ReconcileKeepsConsistent` | facedancer-portal.py:162-183 | one slot's reconciliation keeps agreement; when it completes, the slot holds what the configuration names; it fails exactly when the named file is missing |
| `Watcher.ChangedPathReloads` | facedancer-portal.py:163-183 | a changed path runs removal and then insertion in the same pass: the old figure is saved, the new one is loaded, and the host sees `10`, `00`, `11`, `01` |
| `Watcher.PassKeepsConsistent` | facedancer-portal.py:161-183 | every pass, completed or stopped, keeps status and table in agreement |
| `Watcher.ReconcileExtendsMatch` | facedancer-portal.py:161-183 | when slots before `i` match their lines, reconciling slot `i` (or a pass already stopped) leaves slots up to `i` matching |
| `Watcher.PassMatchesConfig` | facedancer-portal.py:161-183 | after a completed pass, every slot 1..15 holds exactly the figure its configuration line names, and nothing where the line is missing or empty |
| `Watcher.ReconcileMatchedIsIdle` | facedancer-portal.py:162-183 | reconciling a slot that already matches its line changes and reports nothing |
| `Watcher.MatchedPassIsIdle` | facedancer-portal.py:161-183 | a pass over a table that already matches the configuration is idle |
| `Watcher.ReloadTwiceIsReloadOnce` | facedancer-portal.py:157-185 | reloading an unchanged configuration a second time changes and reports nothing |
| `Device.Portal.constructor` | facedancer-portal.py:188-190 | the device starts with `active = False` (line 43), the status counter `index = 0` (line 60), `portal_status = 0` (line 22) and 16 fresh empty slots none of which is active, and the invariant holds |
| `Device.Portal.HandleSetConfiguration` | facedancer-portal.py:115-148 | the handler ends with `Dispatch`'s reply, flag and table, keeps the invariant, and leaves the status word, counter and files alone; no slot's `active` flag changes |
| `Device.Portal.Activate` | facedancer-portal.py:121-126 | the `A` branch sets the flag as `Dispatch` does and answers its reply |
| `Device.Portal.Query` | facedancer-portal.py:129-136 | the `Q` branch answers `Dispatch`'s reply and changes nothing |
| `Device.Portal.Write` | facedancer-portal.py:137-141 | the `W` branch updates the figure object in place, ends with `Dispatch`'s reply and table, and keeps the invariant; no slot's `active` flag changes |
| `Device.Portal.HandleDataRequested` | facedancer-portal.py:62-70 | the poll sends the status frame with the counter as it was, then advances the counter modulo 255; the invariant holds |
| `Device.Portal.Eject` | facedancer-portal.py:163-174 | the removal body changes the objects to the state `Remove` gives; no slot's `active` flag changes |
| `Device.Portal.Load` | facedancer-portal.py:175-183 | the insertion body allocates the figure and changes the objects to the state `Insert` gives; no slot's `active` flag changes |
| `Device.Portal.Reconcile` | facedancer-portal.py:162-183 | the loop body ends in `ReconcileSlot`'s state; `loaded` is false exactly when the load fails, and then the whole pass has failed |
| `Device.Portal.Pass` | facedancer-portal.py:161-183 | the loop ends in `RunPass`'s state and names the failing slot exactly when the pass stops; the invariant, including agreement between status and table, holds |
| `Device.Portal.Poll` | facedancer-portal.py:153-186 | a round runs the pass only when the configuration's mtime is newer, and remembers the new mtime only when the pass completes; the closing sleep shows the final status word, and a failed pass has none |

## Left out

- The USB descriptor tree, the endpoint and interface attributes, and the HID
  report and class descriptors (facedancer-portal.py:28-58, 83-103) are
  framework data and are left out. So are the GET_INTERFACE and SET_INTERFACE
  handlers (105-113), which only ack.
- The OUT endpoint handler (72-81) only logs what it receives. It is left out.
- `request.send`, `request.ack` and `request.stall` belong to the facedancer
  framework, which is not part of this model. The model records only which of
  them happen, through `Reply`.
- The framework's handling of an exception raised by a request handler is
  not part of this model. The model stops at `Raise`.
- The `while True` loop of `watcher`, its `asyncio.sleep` calls and the
  concurrent `emulate(watcher())` are left out.
  - `Poll` models one round of the loop.
  - Each sleep, including the one that closes a round, is an entry in
    `observed`; a round whose pass fails has no closing sleep.
  - The interleaving of host requests with a running pass is not modelled.
- `os.path.getmtime` and `configparser` become inputs. `Poll` takes the
  configuration's mtime as `check` and the `[slots]` section as a map from
  slot to value. A missing configuration file is not modelled.
- File I/O becomes the `files` map. The `Skylander` constructor takes the
  file's contents. A missing figure file is modelled, as `LoadFailed`. No
  other I/O error is.
- `Figures.Skylander.Save`: a failing write (an `IOError` out of `open` or
  `write`) is not modelled, because the file system is a map.
- `Device.Portal.Poll`: covers one round. The rounds after a failed pass do
  not exist in the source, because the exception ends the coroutine.
- Logging, `__repr__` and the `Slot.active` property accessors are left out.
  The accessors are a plain field in the model.
- `portal_status` is a Python integer. The model uses `bv32` because only
  bits 0 to 29 are ever touched. The `<I` in the status frame therefore never
  overflows.
- The masks are built one pair at a time. `Watcher.MaskIsShift` and
  `Watcher.NotifyIsShift` prove they equal the source's shifts.
- `mtime` is modelled as `real`.
- `Device.Portal.Reconcile`, `Device.Portal.Pass`, `Device.Portal.Poll`: do
  not state that every slot's `active` flag keeps its value. These methods
  never assign `Slot.active`, and nothing in the core reads it after
  construction; the extra frame clause made the loop proofs too costly.
