# Settings store of the ESP32 signal generator, in Dafny

The firmware keeps small typed settings in the ESP32's emulated EEPROM: strings,
`unsigned long` words and IPv4 addresses. `Settings_Module` hands each
caller-chosen handle a byte offset ("slot") in a 1000-byte EEPROM image. It
remembers the slots in an in-memory table `addresses[256]` and advances a
cursor `current_address` past every slot it hands out. It also writes each
handle's slot into a table of 32-bit words at the start of the image (handle
`h` at byte `4*h`), so that a later boot can reread the table.

The model has three layers:

- `Bytes`, `CText` and `IpText` model what the store gets from the EEPROM and
  IPAddress libraries. `Bytes` covers little-endian 32-bit words (signed for
  table entries, unsigned for `unsigned long`, which is 4 bytes on the ESP32).
  `CText` covers NUL-terminated text, and `IpText` covers dotted-decimal
  address text.
- `SettingsSpec` is the store as values. A `State` holds the table, the
  cursor, the working image and the flash image. Construction, registration,
  the three stores, the three loads and commit are functions on it.
- `SettingsModule.Settings` is the class the firmware uses. The table is an
  `array<int>` updated in place, and the cursor, image and flash are fields.
  Its constructor has the table-scan loop. Every method is proved to compute
  the matching `SettingsSpec` function. `SettingsProps` proves what the store
  guarantees about those functions.

What is proved:

- The cursor moves forward by exactly each valid store's slot width: 256 for a
  string, 4 for an `unsigned long`, 16 for an address. This holds even when the
  handle already had a slot.
- Slots never overlap, come in increasing order and start after the table.
- An invalid handle changes nothing on store. On load it gives `""`, `0` or
  `0.0.0.0`.
- Store then load gives the value back. It still does after later stores that
  leave the handle and its slot alone, and after commit and restart.

The store's hazards are proved as lemmas:

- Handles are checked against 256, not against the table size. A handle at or
  past `num_handles` writes its table word into the value region
  (`TableWordClobbersValue`).
- Handles 250 to 255 pass the check, but their table word lies past the end
  of the image (`HighHandleNotRecorded`).
- Nothing compares the cursor with the image size. A value that does not fit
  is lost while the cursor still advances (`StoreBeyondCapacityIsLost`).
- Nothing limits a string to `STRBUF_LEN`. Only strings shorter than 256 bytes
  keep their slot to themselves (`SlotFits`, and the hypothesis of
  `StoreSurvives`).
- The cursor is not persisted. After a restart the next store reuses the slot
  of the first value stored before it (`RestartReusesSlot`).

Three facts about the code shape the model. Handles are checked against
`MAX_NUM_ENTRIES` (256), not against `num_handles`. Every store registers the
handle again, so it takes a fresh slot even when it already has one. Strings
are stored as NUL-terminated text.

The EEPROM library is not part of this model. Its buffer is a sequence of
1000 bytes. A write that does not fit inside it is dropped, a word read that
does not fit gives 0, and a text read with no terminator after its offset
gives `""`.

## Model

| member | source | states |
|---|---|---|
| `SettingsModule.Settings.constructor` | Settings_Module.cpp:3-13 | the table-scan loop leaves the object equal to `Construct(num_handles, flash)`: cursor `4*num_handles`, entry `i` the word at `4*i` |
| `SettingsSpec.Construct` | Settings_Module.cpp:8-12 | image and flash are the stored bytes; the cursor is `4*num_handles` (0 for a negative count); for `i < num_handles`, `addresses[i]` is the signed 32-bit word at bytes `4*i..4*i+4` |
| `SettingsModule.Settings.RegisterAddress` | Settings_Module.cpp:15-19 | updates the array, cursor and image in place exactly as `Register` says |
| `SettingsSpec.Register` | Settings_Module.cpp:15-19 | `addresses[h]` becomes the old cursor and no other entry changes; the cursor advances by exactly `len`; the table word at `4*h` then reads back as the old cursor; no byte outside that word changes |
| `SettingsModule.Settings.StoreString` | Settings_Module.cpp:21-30 | the object's new state is `Store(old state, h, Str(value))` |
| `SettingsModule.Settings.StoreULong` | Settings_Module.cpp:32-41 | the object's new state is `Store(old state, h, ULong(value))` |
| `SettingsModule.Settings.StoreIp` | Settings_Module.cpp:43-52 | the object's new state is `Store(old state, h, Addr(value))` |
| `SettingsSpec.Store` | Settings_Module.cpp:21-52 | an out-of-range handle leaves the state unchanged; a valid one gets the old cursor as its slot and the cursor advances by the kind's width; no other handle's entry changes; flash is untouched; what it does to the image is stated by `SettingsProps.StoreFrame` |
| `SettingsProps.StoreFrame` | Settings_Module.cpp:15-52 | a store with a valid handle changes no image byte outside the handle's table word and the value's bytes at the old cursor; when those fit, they hold exactly the value's encoding |
| `SettingsSpec.Width` | Settings_Module.cpp:28 | every kind claims a positive width, so every valid store moves the cursor forward (256 for a string at line 28, 4 for a word at line 39, 16 for an address at line 50); whether the value's bytes fit that width is `SlotFits` |
| `SettingsSpec.Encoding` | Settings_Module.cpp:29 | a word is written as exactly 4 bytes (line 40); a string or an address text is written as a non-empty byte string (lines 29 and 51) |
| `SettingsSpec.Commit` | Settings_Module.cpp:54-58 | a successful commit copies the working image to flash; a failed one leaves flash as it was and rolls nothing back; table, cursor and image never change |
| `SettingsModule.Settings.Commit` | Settings_Module.cpp:54-58 | the object's new state is `Commit(old state, ok)` |
| `SettingsSpec.LoadString` | Settings_Module.cpp:60-69 | `""` for an out-of-range handle; the result never contains a NUL byte |
| `SettingsSpec.LoadULong` | Settings_Module.cpp:71-80 | 0 for an out-of-range handle |
| `SettingsSpec.LoadIp` | Settings_Module.cpp:82-95 | `0.0.0.0` for an out-of-range handle, and for text at the slot that does not parse |
| `SettingsModule.Settings.LoadString` | Settings_Module.cpp:60-69 | changes nothing; `""` for an out-of-range handle, else the text at the handle's slot as `SettingsSpec.LoadString` gives it |
| `SettingsModule.Settings.LoadULong` | Settings_Module.cpp:71-80 | changes nothing; 0 for an out-of-range handle, else the word at the handle's slot |
| `SettingsModule.Settings.LoadIp` | Settings_Module.cpp:82-95 | changes nothing; `0.0.0.0` for an out-of-range handle or unparsable text, else the parsed address |
| `SettingsProps.SlotReadsBack` | Settings_Module.cpp:60-95 | when a handle's slot holds exactly a value's encoding, the load of that kind returns the value |
| `SettingsProps.StoreThenLoad` | Settings_Module.cpp:21-95 | a store then a load of the same handle returns the value (a string as its C string) whenever its bytes fit in the image |
| `SettingsProps.RestoreTakesNewSlot` | Settings_Module.cpp:21-52 | storing a registered handle again moves it to a fresh slot and advances the cursor by both widths |
| `SettingsProps.CursorAdvances` | Settings_Module.cpp:15-19 | over any sequence of stores, the cursor advances by exactly the widths of the valid ones; it grows strictly if and only if one of them is valid |
| `SettingsProps.SlotsDisjoint` | Settings_Module.cpp:15-19 | the slots handed out by successive stores are non-empty and in increasing order, each ending at or before the next starts, and all lie between the cursor before and after |
| `SettingsProps.SlotsAfterTable` | Settings_Module.cpp:8-19 | after construction every slot lies at or after byte `4*num_handles` |
| `SettingsProps.SlotFits` | Settings_Module.h:6-7 | a value's bytes fit its slot exactly when it is not a string whose C string is 256 bytes or more; every address text fits 16 bytes |
| `SettingsProps.RunPreserves` | Settings_Module.cpp:15-19 | later stores that do not register `h` again and write no table word into a range below the cursor leave that range and `h`'s entry unchanged |
| `SettingsProps.StoreSurvives` | Settings_Module.cpp:15-95 | a stored value still loads back after later stores that do not register the handle again or write a table word into its slot, when it fits its slot |
| `SettingsProps.StoreRecordsSlot` | Settings_Module.cpp:15-19 | a store leaves the handle's table word holding the slot's offset when that word lies below the slot |
| `SettingsProps.WordSurvives` | Settings_Module.cpp:15-19 | after a store and later calls that do not register the handle again, the handle's table word still holds the slot's offset |
| `SettingsProps.SlotSurvives` | Settings_Module.cpp:15-52 | after a store whose bytes fit and later calls that neither register the handle again nor write a table word over its slot, the slot still holds the value's encoding |
| `SettingsProps.RestartRereadsTable` | Settings_Module.cpp:8-12 | after a successful commit and a new construction, the image is the committed one and each entry below `num_handles` is its table word |
| `SettingsProps.PersistsFrom` | Settings_Module.cpp:8-58 | from a state whose cursor is past the table, a value stored under a handle below `num_handles` loads back after commit and restart, as long as later stores leave the handle and its slot alone |
| `SettingsProps.RestartLoadsBack` | Settings_Module.cpp:8-12 | when a handle's table word records offset `c` and the bytes at `c` are a value's encoding, the value loads back after a successful commit and a new construction |
| `SettingsProps.PersistsAcrossRestart` | Settings_Module.cpp:3-58 | after construction, any stores, a store of `v` under `h < num_handles`, stores that leave `h` and its slot alone, commit and a new construction, `v` loads back |
| `SettingsProps.RestartScenario` | Settings_Module.cpp:8-80 | with 4 handles over zeroed flash, 1000 stored under handle 2 and committed loads back after restart; never-stored handle 3 has entry 0 and loads 0 |
| `SettingsProps.RestartReusesSlot` | Settings_Module.cpp:8-19 | the cursor restarts at `4*num_handles`, so a value committed before a restart is replaced by the next value stored under another handle |
| `SettingsProps.SlotTakenOver` | Settings_Module.cpp:15-41 | a handle whose slot starts at the cursor loads back the word that the next store under another handle writes |
| `SettingsProps.TableWordClobbersValue` | Settings_Module.cpp:15-41 | storing handle `num_handles` writes its table word over the first slot, so the value stored there loads back as `4*num_handles+4` |
| `SettingsProps.TableWordOverSlot` | Settings_Module.cpp:15-41 | when handle `h`'s slot is where handle `k`'s table word lies, storing `k` makes `h` load back the cursor at that moment |
| `SettingsProps.StoreBeyondCapacityIsLost` | Settings_Module.cpp:15-19 | a store whose bytes do not fit still advances the cursor, but changes no image byte outside the handle's table word |
| `SettingsProps.HighHandleNotRecorded` | Settings_Module.cpp:15-26 | a handle from 250 to 255 passes the check, but its store changes no image byte outside the value's own bytes: no table word records it |
| `Bytes.DecodeEncodeLE` | Settings_Module.cpp:18 | decoding the `n`-byte little-endian encoding of any value below `256^n` gives the value back |
| `Bytes.EncodeDecodeLE` | Settings_Module.cpp:10 | encoding the value of any byte sequence gives the sequence back |
| `Bytes.DecodeLE` | Settings_Module.cpp:79 | the value of `n` bytes is below `256^n` |
| `Bytes.I32RoundTrip` | Settings_Module.cpp:10-18 | the table word written by `writeInt` reads back under `readInt` as the same signed value for every 32-bit value |
| `Bytes.U32RoundTrip` | Settings_Module.cpp:40-79 | `writeULong` then `readULong` of the same bytes gives the value back |
| `Bytes.ReadU32` | Settings_Module.cpp:79 | `readULong` gives 0 when the four bytes do not lie inside the buffer |
| `Bytes.ReadU32Encodes` | Settings_Module.cpp:79 | the word `readULong` returns is the one whose little-endian encoding is the four bytes read |
| `Bytes.ReadI32` | Settings_Module.cpp:10 | `readInt` gives a signed 32-bit value, and 0 when the four bytes do not lie inside the buffer |
| `Bytes.ReadI32Encodes` | Settings_Module.cpp:10 | the value `readInt` returns is the one whose two's complement image is the four bytes read |
| `Bytes.ReadU32OfI32` | Settings_Module.cpp:18 | a non-negative table word written by `writeInt` reads back under `readULong` as the same number |
| `Bytes.Write` | Settings_Module.cpp:18 | a write that fits puts its bytes at its offset and changes no other byte; one that does not fit changes nothing |
| `Bytes.WriteOutside` | Settings_Module.cpp:18-29 | a write leaves every range it does not overlap unchanged |
| `CText.CStr` | Settings_Module.cpp:29 | the stored text is the longest NUL-free prefix of the value, ending where the value ends or at its first NUL |
| `CText.Encode` | Settings_Module.cpp:29 | `writeString` writes the value's C string and one NUL; the last byte is the only NUL, and a NUL-free value is written whole before it (also line 51) |
| `CText.ReadText` | Settings_Module.cpp:68 | `readString` never returns a NUL; a non-empty result is the bytes at the offset up to a NUL that follows them inside the buffer (also line 90) |
| `CText.ScanNul` | Settings_Module.cpp:68 | finds the first NUL at or after an offset, or reports that none follows |
| `CText.ReadEncoded` | Settings_Module.cpp:68 | NUL-free text laid out with its terminator at an offset reads back as that text |
| `CText.WriteReadText` | Settings_Module.cpp:29-68 | `writeString` then `readString` at the same offset gives back the value's C string |
| `IpText.DecimalValue` | Settings_Module.cpp:51 | reading back the decimal numeral of `n` gives `n` |
| `IpText.JoinFields` | Settings_Module.cpp:91 | splitting text at dots and joining the fields with dots gives the text back |
| `IpText.FieldsJoin` | Settings_Module.cpp:51 | joining dot-free fields and splitting again gives the fields back |
| `IpText.ParseFormat` | Settings_Module.cpp:51-91 | the dotted-decimal text of every address parses back to that address |
| `IpText.FormatIp` | Settings_Module.cpp:51 | `toString` writes four dot-separated fields, each the decimal numeral of one octet |
| `IpText.ParseIp` | Settings_Module.cpp:91 | `fromString` accepts only text of exactly four dot-separated fields made of digits and dots |
| `IpText.FormatLength` | Settings_Module.h:7 | address text is 7 to 15 bytes, so with its terminator it fits `IPADDR_LEN` = 16 |
| `IpText.NonDecimalRejected` | Settings_Module.cpp:90-94 | text containing a byte that is neither a digit nor a dot does not parse, so `LoadIp` yields `0.0.0.0` |

## Left out

- `EEPROM.begin` failure: the constructor takes the flash contents as a parameter. The source only logs the failure and carries on with a buffer the model does not describe.
- `Serial.println` logging on every error path: invalid input is modelled as no state change or a sentinel result.
- The destructor, which is empty.
- The EEPROM library's own code: writes that do not fit are modelled as dropped, and reads as described above. The exact bounds checks of `writeString`/`readString` are not modelled.
- `SettingsSpec.LoadULong`: a word read at an offset whose 4 bytes do not fit gives 0 here. The library leaves the result indeterminate. This happens, for example, for a never-stored handle whose entry is -1 in erased flash.
- `IpText.ParseIp`: `IPAddress::fromString` is not part of this model. The model accepts exactly four dot-separated, non-empty decimal fields, each at most 255 (leading zeros allowed).
- `SettingsSpec.Construct`: it requires `num_handles <= 250`. Then the table words it reads lie inside the 1000-byte image, and the loop stays inside `addresses[256]`. The source does not check this.
- `SettingsSpec.Construct`: table entries at or past `num_handles` start at 0, as in a global instance. A stack or heap instance would leave them indeterminate.
- The cursor and table entries are unbounded integers. Signed overflow of the source's 32-bit `int` after millions of stores is not modelled. Lemmas that reread a table word need the cursor to fit 32 bits and say so.
- Strings are byte strings (`seq<Byte>`). Character encodings of Arduino `String` are not modelled.
- `SettingsModule.Settings.Commit`: whether the flash write succeeds is a parameter. A failed commit is modelled as leaving flash unchanged, not as partly written.
- The EEPROM buffer is a field of the settings object, not the library's global `EEPROM` instance, so other users of that instance are not modelled.
- DAC, PWM and WiFi modules: they are register programming and network I/O with range checks, not part of the store.
