# usb_guard in Dafny

A model of `usb_guard`, a Linux kernel module that watches USB hotplug
events and keeps a flag saying whether one configured USB key is attached.

The key is configured by the module parameters `vendor`, `product` and an
optional `serial`. External programs read the flag from `/proc/usb_guard`
as `"0\n"` or `"1\n"`. The model covers five parts:

- **Identity matcher** (`Matcher`). `match_on_add` is a function over the
  configuration and a device handle, which may be NULL. The helpers model
  what it calls: `usb_string` (one byte of `size` kept for the NUL) and
  `strncmp`. The conversion inside `usb_string` is the kernel's
  `utf16s_to_utf8s` (`Nls`): it stops at a NUL character, drops unpaired
  surrogates, and skips a character whose UTF-8 form no longer fits the
  room left, going on with the next one.
- **Presence tracker** (`Presence`). The globals `tracked_udev` and
  `present` form a state, together with the references the module holds
  through `usb_get_dev`/`usb_put_dev`, counted per device in a map.
  `track_device`, `untrack_if_same` and the teardown in `usb_guard_exit`
  are functions on that state. `Inv` is the invariant: the flag is set
  exactly when a device is tracked, and the one reference held is on that
  device.
- **Event dispatch**. `usb_guard_notifier` is `Presence.Notify`. The
  startup scan `usb_for_each_dev(NULL, find_existing_cb)` is
  `Presence.Scan`, a fold over the sequence of attached devices.
- **Query interface** (`ProcFile`). `proc_read` renders the flag with
  `scnprintf` and serves it through `simple_read_from_buffer`, modelled by
  that function's kernel contract.
- **The module object** (`Monitor.Guard`). A class whose fields are the
  globals. Its methods are the entry points, each proved against the
  matching `Presence` or `ProcFile` function. `ScanExisting` is the
  enumeration loop.

The `size` that `match_on_add` passes to `usb_string` is a parameter
(`Matcher.ReadSize`) of the matcher, of every `Presence` function and of
`Monitor.Guard`. `Matcher.AsWrittenSize` (127) is the source;
`Matcher.CorrectedSize` (128) is the fix described under "## Findings".
The tracker lemmas hold for every read size. The scenarios in `Scenarios`
use the source's size. `Monitor.LoadUnplugReplugUnload` is a usage
example of the class without a contract of its own: it loads the module
with the key attached, unplugs it, plugs it back and unloads.

Each locked region under `tracked_lock` is one atomic step. Handles are
compared by identity (`Device.id`), as the C code compares pointers.
`le16_to_cpu` is the identity.

## Model

| member | source | states |
|---|---|---|
| `Matcher.MatchOnAdd` | usb_guard.c:31-59 | a match implies a non-NULL handle, a non-zero `vendor` and `product`, and equal VID and PID; with an empty serial, exactly that; with a serial, also a non-zero `iSerialNumber` and a successful read |
| `Matcher.DisabledMatchesNothing` | usb_guard.c:36-37 | under every read size, a zero `vendor` or `product`, or a NULL handle, matches no device; zero is never a wildcard |
| `Matcher.Matches` | usb_guard.c:31-59 | the corrected matcher: a match implies equal, enabled VID and PID; with an empty serial, exactly that; with a serial configured, it matches exactly when the text read with `size == 128` is the configured serial |
| `Matcher.MatchesAsWritten` | usb_guard.c:31-59 | `match_on_add` as written: a match implies equal, enabled VID and PID; with an empty serial, exactly that; with a serial configured, it matches exactly when the text read with `size == 127` (at most 126 bytes) is the configured serial |
| `Matcher.ParamBuf` | usb_guard.c:20-21 | `serial[0] == '\0'` exactly when the configured serial is empty |
| `Matcher.UsbString` | usb_guard.c:53-54 | the text read back is shorter than `size` and has no NUL; it is the device's whole converted text exactly when that text is shorter than `size`; the read fails exactly when the device's read fails |
| `Nls.Utf8` | usb_guard.c:54 | `utf32_to_utf8` writes one to four bytes, one exactly for characters up to 0x7F, and no NUL for a non-NUL character |
| `Nls.Utf16sToUtf8s` | usb_guard.c:54 | the conversion stops at a NUL character or when the room is used up, drops unpaired surrogates, and skips a character whose UTF-8 form no longer fits, going on with the next; the bytes written are at most `maxout` and hold no NUL |
| `Nls.Utf16sToUtf8sWhole` | usb_guard.c:54 | the bytes written are the whole converted text exactly when that text fits in `maxout` |
| `Nls.TextAppend` | usb_guard.c:54 | the text of NUL-free characters followed by more is the concatenation of the two texts |
| `Nls.Utf16sToUtf8sAppend` | usb_guard.c:54 | NUL-free characters whose text fits are written whole, and what follows converts into the room they leave |
| `Nls.TextOfAscii` | usb_guard.c:54 | characters 1..0x7F convert to the same bytes |
| `Matcher.StrNCmpFrom` | usb_guard.c:58 | `strncmp` from byte `i` gives 0 exactly when the C strings held in `a[i..n]` and `b[i..n]` are equal |
| `Matcher.StrNCmp` | usb_guard.c:58 | `strncmp(a, b, n)` gives 0 exactly when the C strings held in the first `n` bytes of `a` and `b` are equal |
| `Matcher.StrNCmpFromPadded` | usb_guard.c:58 | on NUL-padded 128-byte buffers, `strncmp` gives 0 exactly when the two texts are equal |
| `Matcher.MatchOnAddSerial` | usb_guard.c:45-58 | with a configured serial, a match happens exactly when the filter is enabled, VID and PID are equal, `iSerialNumber != 0`, and the text read back equals the configured serial |
| `Matcher.SerialMatchIsEquality` | usb_guard.c:50-58 | for a device whose serial converts to a text shorter than the read size, a configured serial matches by byte-for-byte, case-sensitive equality with that text |
| `Matcher.AsWrittenAgreesOnShortSerials` | usb_guard.c:53-58 | the code as written and the corrected size agree on every device whose serial converts to at most 126 bytes, so on every ASCII serial |
| `Matcher.AsWrittenRejectsFullLengthSerial` | usb_guard.c:54 | as written, a device carrying exactly a configured 127-byte serial (`é` and 125 `A`) is rejected; the corrected matcher accepts it |
| `Matcher.AsWrittenAcceptsLongerSerial` | usb_guard.c:54 | as written, a 127-byte device serial (63 `é` and `A`) is accepted for the 126-byte configured serial that is its prefix; the corrected matcher rejects it |
| `Matcher.AsWrittenSkipsWideCharacter` | usb_guard.c:54-58 | as written, the device serial `A`x124 `€` `B` reads back as `A`x124 `B` and is accepted for that configured serial; the corrected matcher rejects it |
| `Matcher.CorrectedSkipsWideCharacter` | usb_guard.c:54-58 | at the corrected size too, the device serial `é`x63 `€` `B`, 130 bytes of text, reads back as `é`x63 `B` and is accepted for that configured serial, although its text differs |
| `Presence.Retain` | usb_guard.c:65 | `usb_get_dev` adds exactly one reference on the device and leaves all other counts alone |
| `Presence.Release` | usb_guard.c:77 | `usb_put_dev` removes exactly one reference on the device and leaves all other counts alone |
| `Presence.InitialInv` | usb_guard.c:27-29 | the load-time state (NULL, flag 0, no references) satisfies the invariant |
| `Presence.AtMostOneReference` | usb_guard.c:27-29 | under the invariant at most one device is referenced, exactly once, and it is the tracked one |
| `Presence.Track` | usb_guard.c:61-70 | keeps the invariant; with a device already tracked nothing changes; otherwise the device is tracked, the flag is set and its count goes up by exactly one |
| `Presence.TrackIdempotent` | usb_guard.c:61-70 | a second `track`, of any device, changes nothing |
| `Presence.Untrack` | usb_guard.c:72-82 | keeps the invariant; under the invariant a NULL or unrelated handle changes nothing (NULL with nothing tracked takes the branch and clears a flag that is already clear); the tracked handle clears the slot and the flag and drops its count by exactly one |
| `Presence.TrackThenUntrack` | usb_guard.c:61-82 | `track(d)` then `untrack(d)` from a state where `d` is not tracked gives back that state, every reference count included |
| `Presence.TrackUntrackClears` | usb_guard.c:61-82 | from an empty slot, or with `d` tracked, `track(d)` then `untrack(d)` leave nothing tracked, the flag clear and no reference held |
| `Presence.Shutdown` | usb_guard.c:152-158 | always leaves nothing tracked and the flag clear; releases exactly the tracked device's reference; from a valid state no reference remains |
| `Presence.Notify` | usb_guard.c:84-102 | keeps the invariant; ADD tracks the device exactly when it matches; REMOVE untracks; any other action changes nothing |
| `Presence.RemoveIgnoresMatcher` | usb_guard.c:93-96 | REMOVE behaves the same under every configuration and read size: the matcher is not consulted |
| `Presence.UnrelatedEventsChangeNothing` | usb_guard.c:84-102 | an event about a handle other than the tracked device changes nothing, unless it is the ADD of a matching device into an empty slot |
| `Presence.AddWhileTrackedChangesNothing` | usb_guard.c:89-92 | while a device is tracked, no ADD changes the state |
| `Presence.ScanStep` | usb_guard.c:109-116 | keeps the invariant; one scan callback acts exactly as a live ADD of the same device |
| `Presence.Scan` | usb_guard.c:140-141 | the startup enumeration keeps the invariant |
| `Presence.FirstMatch` | usb_guard.c:109-116 | gives the least position of a matching device, or none when no device matches |
| `Presence.FirstMatchAt` | usb_guard.c:109-116 | a matching device with no matching device before it is the first match |
| `Presence.FirstMatchSnoc` | usb_guard.c:141 | appending a device changes the first match only when there was none before |
| `Presence.ScanTracksFirstMatch` | usb_guard.c:109-116 | into an empty slot, the scan tracks the first matching device and ignores every later one; with a device tracked, it changes nothing |
| `Presence.ScanFindsAttachedKey` | usb_guard.c:140-141 | a matching device attached at load time sets the flag without any live event |
| `ProcFile.FlagText` | usb_guard.c:120-122 | the text is two bytes: a decimal digit whose value is 1 when the flag is set and 0 otherwise, then a newline |
| `ProcFile.SimpleReadFromBuffer` | usb_guard.c:123 | a negative position gives -EINVAL; a position at or past the end reads 0 bytes and keeps the position; otherwise it returns `min(count, len - pos)` bytes, the content from `pos`, and advances the position by that many |
| `ProcFile.ConsecutiveReads` | usb_guard.c:123 | two reads, the second at the position the first left, return together exactly what one read of both counts returns |
| `ProcFile.ReadFromStartYieldsFlag` | usb_guard.c:118-124 | a read of at least 2 bytes from offset 0 returns the whole flag line |
| `Monitor.Guard.constructor` | usb_guard.c:27-29 | the statics start valid, as the initial state, with the given configuration and read size |
| `Monitor.Guard.TrackDevice` | usb_guard.c:61-70 | the new state is `Presence.Track` of the old one; a tracked slot leaves the object unchanged; an empty one ends holding exactly one reference on `d` |
| `Monitor.Guard.UntrackIfSame` | usb_guard.c:72-82 | the new state is `Presence.Untrack` of the old one; a different pointer leaves the object unchanged |
| `Monitor.Guard.Notifier` | usb_guard.c:84-102 | the new state is `Presence.Notify` of the old one; the return value is always `NOTIFY_OK` |
| `Monitor.Guard.FindExistingCb` | usb_guard.c:109-116 | the new state is `Presence.ScanStep` of the old one; the return value is 0, so enumeration continues |
| `Monitor.Guard.ScanExisting` | usb_guard.c:140-141 | the loop over the attached devices ends in `Presence.Scan` of the starting state |
| `Monitor.Guard.Exit` | usb_guard.c:152-158 | the new state is `Presence.Shutdown` of the old one: nothing tracked, flag clear, no reference held |
| `Monitor.Guard.ProcRead` | usb_guard.c:118-124 | the result is `simple_read_from_buffer` over the flag line; at offset 2 or past it reads nothing at the same position; otherwise it returns the line from `pos`, `min(count, 2 - pos)` bytes, and advances the position by that many |
| `Scenarios.PlugAndUnplug` | usb_guard.c:84-102 | with VID/PID only, attaching the key sets the flag; detaching it clears the flag and gives back the initial state |
| `Scenarios.WrongSerialRejected` | usb_guard.c:50-58 | a device with the right VID/PID and serial "SN002" leaves the flag at 0 when "SN001" is configured |
| `Scenarios.RightSerialAfterWrongOne` | usb_guard.c:84-92 | of two devices sharing VID/PID, the wrong-serial one is rejected and the right one, attaching next, is tracked |
| `Scenarios.KeyPresentAtLoad` | usb_guard.c:108-116 | the scan tracks the first matching device of the enumeration, whatever follows it |
| `Scenarios.LongSerialKeyNeverPresent` | usb_guard.c:54-58 | a key configured with its own 127-byte serial (`é` and 125 `A`) leaves the flag at 0 on ADD in the source; the corrected read size tracks it |
| `Scenarios.ReadPastEndIsEmpty` | usb_guard.c:118-124 | a read at offset 2 or more returns 0 bytes, no error, and the same position |

## Findings

| source | as written | input that shows it | evidently intended | confidence | as-written member | corrected member |
|---|---|---|---|---|---|---|
| usb_guard.c:54 | `usb_string(..., buf, sizeof(buf) - 1)`: `usb_string` already keeps one byte of `size` for the NUL, so at most 126 bytes of the serial are read, although `serial` accepts 127. ASCII serials are unaffected: a string descriptor holds at most 126 UTF-16 units, so an ASCII serial is at most 126 bytes | `serial` = `é` and 125 `A` (126 units, 127 UTF-8 bytes), and a device with that serial, is rejected; `serial` = 63 `é` (126 bytes), and a device whose serial is 63 `é` and `A`, is accepted; `serial` = 124 `A` and `B`, and a device whose serial is 124 `A`, `€` and `B` (126 units, 128 bytes), is accepted, because `€` no longer fits and is skipped | read up to 127 bytes (`size == sizeof(buf)`), so that a serial of up to 127 bytes matches by exact equality | medium, not executed | `Matcher.MatchesAsWritten` with `Matcher.AsWrittenRejectsFullLengthSerial`, `Matcher.AsWrittenAcceptsLongerSerial`, `Matcher.AsWrittenSkipsWideCharacter` and `Scenarios.LongSerialKeyNeverPresent` | `Matcher.Matches` with `Matcher.SerialMatchIsEquality` |

The tracker, the dispatch and `Monitor.Guard` take the read size as a
parameter, and every lemma about them holds for both sizes.
`Matcher.AsWrittenAgreesOnShortSerials` shows that the two matchers differ
only for device serials longer than 126 bytes, which only non-ASCII
serials can be.

## Left out

- Module parameter parsing (`module_param*`). The configuration is an
  immutable `Config` value. `SerialParam` states what `module_param_string`
  guarantees: at most 127 bytes, no NUL.
- `mutex_lock`/`mutex_unlock` and the `atomic_t`. Each locked region is one
  atomic step. Concurrency between hotplug callbacks and readers is not
  modelled.
- `proc_create`/`proc_remove`, `usb_register_notify`/`usb_unregister_notify`
  and the `-ENOMEM` path of `usb_guard_init`. These are kernel registration
  with no logic of the module's own. Of `usb_guard_init`, only the
  enumeration scan is modelled.
- `pr_info`/`pr_err` logging.
- The descriptor reading inside `usb_string` (language id lookup,
  descriptor I/O) and the decoding of its UTF-16 units (`get_utf16`,
  surrogate pairing). The device carries the decoded characters, an
  unpaired surrogate keeping its own value, and a failed read is `None`.
  The limit of 126 UTF-16 units per descriptor is not a constraint of
  `Device`.
- `Matcher.Matches`: exact equality is proved only for a device whose text
  is shorter than 128 bytes (`Matcher.SerialMatchIsEquality`). A longer
  text is read cut short, characters that no longer fit skipped, so at
  either size a device whose serial differs can still match
  (`Matcher.CorrectedSkipsWideCharacter`). No read size up to
  `sizeof(buf) == 128` closes this. A descriptor holds at most 126 UTF-16
  units, so at most 378 bytes of text, and a buffer of at least 379 bytes
  would read every serial whole; `Device` does not carry that bound, so
  inside the model no finite size closes it.
- `copy_to_user` faults inside `simple_read_from_buffer` (-EFAULT and short
  copies). The model always copies in full.
- The kernel's own reference counting behind `usb_get_dev`/`usb_put_dev`.
  `Presence.State.refs` counts only the references this module holds, and
  `Monitor.Guard.refs` is a ghost field.
- `track_device(NULL)` is never called in the source, because the matcher
  rejects NULL first. So `Monitor.Guard.TrackDevice` takes a device and not
  a handle.
- usb_launch.c, the user-space launcher. It does file I/O and `execl` and
  has no logic of the module's own.
