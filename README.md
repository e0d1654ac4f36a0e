# rpi-messages, modelled in Dafny

rpi-messages sends short texts and small pictures to a Raspberry Pi Pico W with a 160x128 screen.
A server stores messages per device. The device polls the server over TCP, caches what it
fetches in fixed slots (10 texts, 2 images), and cycles through the active ones on screen. A web
endpoint and two Python scripts write UF2 flash images that put the Wi-Fi credentials and the
device id into the Pico's flash.

This project models the sequential core of that system and proves properties of it:

- **Shared crate.**
  - `Wire`: the fixed-length big-endian wire codec of `common/src/lib.rs`.
  - `Pico`: the protocol values, payload size rule, text-length check and buffer contract of
    `common/src/protocols/pico.rs`.
  - `Types`: the `DeviceID`/`UpdateID` parsers, hex rendering and ordering of
    `common/src/types.rs`.
  - `Consts`: the constants of `common/src/consts.rs`.
- **Device.**
  - `MessageBuf`: the slot cache of `pico/src/messagebuf.rs`, as a class over two fixed arrays.
  - `StaticData`: the NUL-terminated flash configuration of `pico/src/static_data.rs`.
  - `Firmware`: the fetch cursor and the display rotation loops of `pico/src/main.rs`, as methods
    over finite traces.
  - `Rotation`: what the rotation guarantees over many turns.
- **Server.**
  - `Repository`, `MemoryDb`, `ServerMessage`: the append-only message stores of
    `server/src/db/memory_db.rs` and `server/src/message.rs`, with text checking and chunking.
  - `CommandLoop`: the accept and per-client command loops shared by the three device servers.
  - `DeviceService`, `LegacyDeviceHandler`, `Dummy`: the reply logic of
    `server/src/handlers/device.rs`, `server/src/device_handler.rs` and `server/src/bin/dummy.rs`.
- **UF2 images.**
  - `Uf2Format`: the block layout (Microsoft UF2 specification, "File format" section) and the
    two configuration payloads.
  - `Uf2Handler`, `CreateUf2`, `CreateWifiUf2`: the builders in `server/src/handlers/uf2.rs`,
    `create_uf2.py` and `create_wifi_uf2.py`.
- **Helpers.** `Bytes` (u32 byte encodings), `Utf8` (UTF-8 well-formedness), `MinBy` (the
  first-minimum selection that `position` and `min_by_key` perform) and `Wrappers`
  (`Option`, `Result`, and `Outcome` for a value or a panic).

Each source file's own constants are used. The shared crate's `lib.rs` has a 70-byte text
buffer (`Wire.TEXT_BUFFER_SIZE`). `consts.rs` has 8 * 17 = 136 (`Consts.TEXT_BUFFER_SIZE`),
which `pico.rs`, `message.rs` and the device cache use. Time is a natural number of
embassy-time ticks; the clock enters as a `now` parameter.

## Model

| member | source | states |
|---|---|---|
| Wire.ValidKindFitsBuffer | common/src/lib.rs:42-61 | a valid kind announces at most TEXT_BUFFER_SIZE text bytes, or exactly the 160*128*2 = 40960 image bytes |
| Wire.KindEncoding | common/src/lib.rs:66-74 | the 5-byte kind: an image is five zero bytes, a text is tag 1 then its length big-endian |
| Wire.SerializeKind | common/src/lib.rs:63-75 | fills the output array in place; `None` exactly for a text longer than TEXT_BUFFER_SIZE, otherwise the 5-byte kind encoding |
| Wire.KindRoundTrip | common/src/lib.rs:63-88 | decoding the encoding of a valid kind gives the kind back |
| Wire.KindDecoding | common/src/lib.rs:77-88 | decoding succeeds iff the tag is 0, or the tag is 1 with a length within the buffer; a tag-1 decode re-encodes to the same bytes |
| Wire.UpdateEncoding | common/src/lib.rs:92-98 | 13 = 4 + 4 + 5 bytes: lifetime big-endian at 0..4, uuid at 4..8, kind at 8..13 |
| Wire.SerializeUpdate | common/src/lib.rs:92-98 | fails exactly when the kind is invalid, otherwise yields the 13-byte layout |
| Wire.UpdateRoundTrip | common/src/lib.rs:92-110 | every update with a valid kind decodes back from its encoding |
| Wire.ResultEncoding | common/src/lib.rs:114-124 | 14 = 1 + 13 bytes: `NoUpdate` is all zeros, `Update` is tag 1 then the update's 13 bytes |
| Wire.SerializeResult | common/src/lib.rs:114-124 | fails exactly for an update with an invalid kind, otherwise yields the 14-byte layout |
| Wire.ResultRoundTrip | common/src/lib.rs:113-135 | every valid result decodes back from its encoding |
| Wire.ResultDecoding | common/src/lib.rs:126-135 | tag 0 decodes to `NoUpdate` whatever follows; decoding succeeds iff the tag is 0, or it is 1 with a decodable update |
| Wire.CommandEncoding | common/src/lib.rs:139-149 | 5 = 1 + 4 bytes: `CheckUpdate` is all zeros, `RequestUpdate` is tag 1 then the uuid big-endian |
| Wire.SerializeCommand | common/src/lib.rs:139-149 | total: every command has its 5-byte encoding |
| Wire.CommandRoundTrip | common/src/lib.rs:139-159 | every command decodes back from its encoding |
| Wire.CommandDecoding | common/src/lib.rs:151-159 | decoding succeeds iff the tag is 0 or 1, and a tag-1 decode re-encodes to the same bytes |
| Bytes.CopyFromSlice | common/src/lib.rs:94-96 | `copy_from_slice` into a sub-range: the array holds the source there and is unchanged elsewhere |
| Bytes.BE32RoundTrip | common/src/lib.rs:101-102 | `from_be_bytes` undoes `to_be_bytes` |
| Bytes.LE32RoundTrip | server/src/handlers/uf2.rs:26-32 | reading back a `to_le_bytes` word gives the number |
| Pico.Size | common/src/protocols/pico.rs:66-73 | an image announces IMAGE_BUFFER_SIZE payload bytes, a text its own length |
| Pico.CheckValid | common/src/protocols/pico.rs:75-91 | `Err(Length(n, TEXT_BUFFER_SIZE))` exactly for an update of kind `Text(n)` with n above the buffer; `Ok` for `NoUpdate` and images |
| Pico.AcceptedPayloadFits | common/src/protocols/pico.rs:66-91 | an update that passes the check announces a payload that fits the device's text or image buffer |
| Pico.ErrorMessage | common/src/protocols/pico.rs:28-33 | the texts "Length is {length} but max is {max}." and "Serialization error: {error}" |
| Pico.LengthMessageInjective | common/src/protocols/pico.rs:28-33 | two `Length` errors with the same text carry the same length and maximum |
| Pico.ToBytes | common/src/protocols/pico.rs:110-116 | succeeds iff the encoding fits the buffer; the encoding is then at its front and the whole buffer is returned, not just the written prefix |
| Pico.FromBytes | common/src/protocols/pico.rs:118-122 | succeeds exactly when the decoder does, with its value; a decoder error becomes a `Postcard` error |
| Types.Accumulate | common/src/types.rs:24 | base-radix u32 accumulation: `Ok` iff every character is a digit and the value fits 32 bits, and then it is the value of the digits |
| Types.DigitsParse | common/src/types.rs:24 | a non-empty digit string parses iff its value is below 2^32, and to that value |
| Types.DeviceIdRejects | common/src/types.rs:22-26 | "0x" and "" are `Empty`; "0x0x1" and "0xg" are `InvalidDigit`: only one prefix is stripped |
| Types.LargeValueOverflows | common/src/types.rs:24 | a digit string whose value reaches 2^32 is rejected with `PosOverflow` |
| Types.DeviceIdOverflows | common/src/types.rs:22-26 | a hex string of value 2^32 or more is rejected with `PosOverflow`, with or without the prefix |
| Types.RenderValue | common/src/types.rs:37-47 | the digits rendered for a number have that number as their value |
| Types.HexRenderingParses | common/src/types.rs:19-27 | any hex digit string whose value is an id parses to that id, with or without "0x" |
| Types.HexRoundTrip | common/src/types.rs:19-47 | lower-hex, upper-hex and zero-padded renderings of an id parse back to the id |
| Types.DecimalRoundTrip | common/src/types.rs:29-35 | the decimal rendering of an update id parses back to it |
| Types.CompareDeviceId | common/src/types.rs:7-11 | the derived order is the inner u32's: `Less` iff the other is greater, `Equal` iff the ids are equal |
| Types.CompareUpdateId | common/src/types.rs:12-17 | the same for update ids |
| Types.MaxUpdateId | pico/src/main.rs:346 | `cmp::max` on update ids is one of its arguments and at least both |
| MessageBuf.NewMeta | pico/src/messagebuf.rs:82-88 | a fresh slot (updated at `Instant::MIN`, lifetime `Duration::MIN`) is inactive at every time |
| MessageBuf.SetMeta | pico/src/messagebuf.rs:118-121 | the data is unchanged; the slot is active exactly before now + lifetime, so it is active now iff the lifetime is positive |
| MessageBuf.NextAvailableIndex | pico/src/messagebuf.rs:231-245 | the lowest-index inactive slot if any; otherwise the slot updated longest ago, the lowest index among ties |
| MessageBuf.NextDisplayIndex | pico/src/messagebuf.rs:185-213 | `None` iff no slot is active; otherwise an active slot |
| MessageBuf.NextDisplayIndexOrder | pico/src/messagebuf.rs:192-204 | the oldest active slot newer than the last one shown, first among ties (texts before images); if none is newer, the oldest active slot, first among ties |
| MessageBuf.Messages.constructor | pico/src/messagebuf.rs:162-179 | ten empty texts and two black images, all inactive |
| MessageBuf.Messages.NextDisplayMessage | pico/src/messagebuf.rs:185-213 | `None` iff no slot of either array is active; otherwise exactly the slot `NextDisplayIndex` picks over the texts then the images, named within its array |
| MessageBuf.Messages.NextAvailableText | pico/src/messagebuf.rs:216-221 | picks the slot the write rule chooses, clears its text, keeps its metadata, and changes no other slot |
| MessageBuf.Messages.NextAvailableImage | pico/src/messagebuf.rs:223-228 | picks the slot the write rule chooses, zero-fills its image, and changes no other slot |
| MessageBuf.Messages.SetTextMeta | pico/src/messagebuf.rs:118-121 | only the chosen text slot's metadata changes, as `set_meta` says |
| MessageBuf.Messages.SetImageMeta | pico/src/messagebuf.rs:118-121 | only the chosen image slot's metadata changes, as `set_meta` says |
| MinBy.FirstWhere | pico/src/messagebuf.rs:236 | `position`: `None` iff no element matches, else the first match |
| MinBy.FirstWhereIs | pico/src/messagebuf.rs:236 | a matching element with no match before it is the one `position` finds |
| MinBy.MinByKey | pico/src/messagebuf.rs:192-195 | `filter` then `min_by_key`: `None` iff nothing is kept, else a kept element of least key, the first of equal keys |
| MinBy.MinByKeyUnique | pico/src/messagebuf.rs:241-244 | a kept element whose key is strictly below that of every other kept one is the one chosen |
| StaticData.CStrUntilNul | pico/src/static_data.rs:50-56 | `Some` iff there is a NUL and the bytes before the first one are valid UTF-8, and then those bytes |
| StaticData.WifiSsid | pico/src/static_data.rs:49-64 | the string `CStrUntilNul` reads from the SSID buffer: shorter than 32 bytes, NUL-terminated and valid UTF-8; a buffer with no NUL gives `None` |
| StaticData.WifiPassword | pico/src/static_data.rs:66-81 | the same contract over the password buffer |
| StaticData.FirstNulReads | pico/src/static_data.rs:50-56 | a NUL at k with none before it and a valid UTF-8 prefix reads as exactly the bytes before k |
| StaticData.PaddedReadsBack | pico/src/static_data.rs:49-64 | a string zero-padded to n bytes reads back iff it is shorter than n and contains no NUL; at exactly n bytes it reads as `None` |
| StaticData.DefaultIsEmpty | pico/src/static_data.rs:31-36 | the all-zero default configuration yields an empty SSID and an empty password |
| StaticData.ServerEndpoint | pico/src/static_data.rs:83-91 | the IPv4 address is the four configured bytes in order, with the configured port |
| Firmware.WifiCredential | pico/src/main.rs:212-240 | a missing credential is `StaticDataError`, an empty one `WifiConfiguration`; only a non-empty one is used |
| Firmware.UnconfiguredDeviceStops | pico/src/main.rs:212-240 | with the default flash contents, Wi-Fi setup stops on a configuration error |
| Firmware.ConfiguredSsidIsUsed | pico/src/main.rs:212-225 | a non-empty, NUL-free UTF-8 SSID below 32 bytes, zero-padded in flash, is the SSID used |
| Firmware.Advance | pico/src/main.rs:346 | after a handled update the cursor is set and at least both the old cursor and the update id |
| Firmware.CursorIsMaximum | pico/src/main.rs:344-346 | folding handled ids into the cursor gives the largest of the start and all the ids, and never decreases |
| Firmware.CursorIsLargestHandled | pico/src/main.rs:318-349 | after any run of attempts the cursor is `None` iff no update was handled, else the largest id handled |
| Firmware.Poll | pico/src/main.rs:334-351 | the polling loop sends the cursor with each request, moves it per handled update, and the cursors it sends never decrease |
| Firmware.FetchData | pico/src/main.rs:312-360 | over all attempts: the cursor as above, the cursors sent in non-decreasing order, one close per connection, one soft error per failed connection or `Err` exit |
| Firmware.ScreenOf | pico/src/main.rs:390-413 | a text slot shows its text, an image slot its image, and no slot shows "No messages :(" |
| Firmware.ScreenAt | pico/src/main.rs:390-413 | the placeholder is shown iff no slot is active at that time |
| Firmware.ScreenOfTurn | pico/src/main.rs:386-419 | turn k shows the screen for the timestamp left by the turns before it; it is the placeholder iff nothing is active then |
| Firmware.DisplayMessages | pico/src/main.rs:381-420 | over one cache that no fetch changes between turns, the display loop from `Instant::MIN` shows those screens, and the rotation timestamp is the chained `Rotation.Step` |
| Rotation.Step | pico/src/main.rs:390-391 | after showing a slot the timestamp is that slot's update time; with nothing to show it is unchanged |
| Rotation.TimeAfterSnoc | pico/src/main.rs:386-391 | one more turn applies one more step to the timestamp |
| Rotation.ShownWhenReached | pico/src/messagebuf.rs:192-199 | when a step lands on an active slot's unique update time, that slot is the one shown |
| Rotation.BelowShrinks | pico/src/messagebuf.rs:192-195 | moving toward a later active slot strictly shrinks the count of active slots between the timestamp and it |
| Rotation.AboveShrinks | pico/src/messagebuf.rs:192-195 | while newer active slots exist, each turn moves the timestamp forward and leaves fewer of them |
| Rotation.WrapGoesBelow | pico/src/messagebuf.rs:197-208 | when nothing is newer, the wrap goes to the oldest active slot, at or before any active slot |
| Rotation.ReachesFromBelow | pico/src/main.rs:386-391 | from a timestamp below an active slot, the rotation reaches that slot within as many turns as active slots lie in between |
| Rotation.RotationReachesFrom | pico/src/main.rs:386-391 | from a timestamp at or after an active slot, the rotation wraps and reaches it within the count of newer active slots plus the slot count |
| Rotation.ReachedTurnShows | pico/src/main.rs:386-391 | a turn whose step lands on the slot's unique time displays that slot |
| Rotation.RotationReaches | pico/src/main.rs:381-420 | with the cache unchanged and the clock read once for all turns, every active slot with a unique update time is shown within 2 * (slot count) turns, from any starting timestamp |
| Repository.MessageIndex | server/src/db/memory_db.rs:131-133 | the first position holding that id, or `None` iff no message has it |
| Repository.GetMessage | server/src/db/memory_db.rs:131-133 | `None` iff no message has the id; otherwise a stored message with that id |
| Repository.AfterTime | server/src/db/memory_db.rs:122 | the creation time of the message the cursor names, `None` when there is no cursor or the id is unknown |
| Repository.NextMessageIndex | server/src/db/memory_db.rs:121-129 | `None` iff nothing is pending for the device; else a message for it created after the cursor's message, earliest creation time, first among ties |
| Repository.GetNextMessage | server/src/db/memory_db.rs:121-129 | the message at that position, or `None` |
| Repository.NoCursorMeansOldest | server/src/db/memory_db.rs:121-129 | without a usable cursor, every message for the device qualifies (`None < Some`), so the answer is its oldest message |
| Repository.NextId | server/src/db/memory_db.rs:135-137 | the number of stored messages, wrapped to u32 |
| Repository.StampedAppendKeepsIds | server/src/db/memory_db.rs:206-212 | appending a message stamped with `next_id` keeps every id equal to its position |
| Repository.LookupByPosition | server/src/db/memory_db.rs:131-137 | with ids equal to positions, `get_message(i)` is the i-th message |
| Repository.NextAfterAnswerIsLater | server/src/db/memory_db.rs:121-133 | feeding back the id just answered moves the device forward: the next answer was created strictly later |
| MemoryDb.FromInsert | server/src/db/memory_db.rs:209 | the stored message carries the given id and every field of the inserted one |
| MemoryDb.InnerMemoryDb.constructor | server/src/db/memory_db.rs:172-176 | the store holds exactly the given devices, messages, users, admin and requests |
| MemoryDb.InnerMemoryDb.GetDevices | server/src/db/memory_db.rs:108-110 | one entry per registered device, and exactly the registered devices |
| MemoryDb.InnerMemoryDb.GetDevice | server/src/db/memory_db.rs:112-114 | `Some` iff the id is registered, with its device |
| MemoryDb.InnerMemoryDb.AddMessage | server/src/db/memory_db.rs:116-119 | appends at the end; devices, users and auth requests are unchanged |
| MemoryDb.InnerMemoryDb.GetNextMessage | server/src/db/memory_db.rs:121-129 | `None` iff nothing is pending for the device; otherwise the message at `Repository.NextMessageIndex`: pending, earliest created, first among ties |
| MemoryDb.InnerMemoryDb.GetMessage | server/src/db/memory_db.rs:131-133 | `None` iff no message has the id; otherwise the first message with that id (`Repository.MessageIndex`) |
| MemoryDb.InnerMemoryDb.NextId | server/src/db/memory_db.rs:135-137 | the number of stored messages while it fits 32 bits |
| MemoryDb.InnerMemoryDb.IsUserAuthorized | server/src/db/memory_db.rs:139-141 | `Some` iff the user is in the authorized map, with the stored record |
| MemoryDb.InnerMemoryDb.AddAuthorizedUser | server/src/db/memory_db.rs:143-145 | afterwards the user is authorized as given; every other user's answer is unchanged, as are the other maps |
| MemoryDb.InnerMemoryDb.GetTelegramAdminId | server/src/db/memory_db.rs:147-149 | the configured admin id |
| MemoryDb.InnerMemoryDb.GetAuthRequest | server/src/db/memory_db.rs:151-153 | `Some` iff a request has that id, with the request |
| MemoryDb.InnerMemoryDb.AddAuthRequest | server/src/db/memory_db.rs:155-157 | afterwards the request is found by its id; other requests and the other maps are unchanged |
| MemoryDb.MemoryDb.constructor | server/src/db/memory_db.rs:172-176 | wraps the given store |
| MemoryDb.MemoryDb.AddMessage | server/src/db/memory_db.rs:206-212 | returns `next_id` (the old count), appends the message stamped with it, and keeps ids equal to positions |
| ServerMessage.NewText | server/src/message.rs:32-38 | accepted iff the UTF-8 byte length is at most TEXT_BUFFER_SIZE |
| ServerMessage.KindOf | server/src/message.rs:74-81 | a text announces its byte length, an image announces `Image` |
| ServerMessage.NewTextPassesDeviceCheck | server/src/message.rs:32-38 | an accepted text's header passes the device's `check_valid` and announces exactly its byte count |
| ServerMessage.FullChunksShape | server/src/message.rs:44-50 | the chunks are consecutive TEXT_BUFFER_SIZE slices from the front, and the last 1..TEXT_BUFFER_SIZE bytes of a non-empty text are in none of them |
| ServerMessage.NewTextsAsWritten | server/src/message.rs:39-52 | the loop as written: panics iff a full chunk is not valid UTF-8, otherwise one text per full chunk |
| ServerMessage.SplitCharacterPanics | server/src/message.rs:46 | a chunk boundary inside a character makes the chunk invalid UTF-8, so `unwrap` panics |
| ServerMessage.ShortTextIsDropped | server/src/message.rs:44-51 | a text of at most one buffer yields no chunk at all |
| ServerMessage.AllChunksCover | server/src/message.rs:39-52 | the corrected chunks concatenate to the text, each non-empty and at most one buffer, all but the last full |
| ServerMessage.NewTexts | server/src/message.rs:39-52 | corrected loop: panics iff a chunk is not valid UTF-8, otherwise one text per chunk including the remainder |
| ServerMessage.ChunksAreTexts | server/src/message.rs:32-52 | every corrected chunk passes `new_text`, and together they are the whole text |
| ServerMessage.NewMessage | server/src/message.rs:107-123 | every field as given; the lifetime is the seconds cast to u32, exact when in range |
| ServerMessage.Messages.constructor | server/src/message.rs:158-160 | the store starts empty |
| ServerMessage.Messages.AddMessage | server/src/message.rs:178-181 | appends at the end |
| ServerMessage.Messages.GetNextMessage | server/src/message.rs:183-199 | same answer as the database query: `None` iff nothing is pending for the device, else the message at `Repository.NextMessageIndex` (earliest created, first among ties) |
| ServerMessage.Messages.GetMessage | server/src/message.rs:201-203 | `None` iff no message has the id, else the first message with it (`Repository.MessageIndex`) |
| ServerMessage.Messages.NextId | server/src/message.rs:205-207 | the number of stored messages while it fits 32 bits |
| CommandLoop.DropError | server/src/bin/dummy.rs:104-108 | `.ok()`: a decoded command iff the decoder succeeds, with its value |
| CommandLoop.SessionReadsWholeCommands | server/src/handlers/device.rs:25-48 | the k-th reply answers the command decoded from bytes k*size..(k+1)*size, with the state left by the replies before it |
| CommandLoop.SessionEndsOnNextCommand | server/src/handlers/device.rs:25-30 | the session ends at the first command that is short, does not decode, or panics, after as many replies as commands before it |
| CommandLoop.FailuresEndOnlyTheClient | server/src/handlers/device.rs:19-30 | a failed read or decode ends only that client: without panics every accepted connection gets its own session from the initial state |
| CommandLoop.ServeClient | server/src/handlers/device.rs:25-63 | the `'client` loop computes the session of the stream |
| CommandLoop.AcceptLoop | server/src/handlers/device.rs:19-67 | the accept loop serves every accepted connection in turn and stops at the first panic |
| DeviceService.ContentBytes | server/src/handlers/device.rs:53-60 | a text writes its bytes, an image its bytes |
| DeviceService.Announce | server/src/handlers/device.rs:35-39 | the header carries the message's lifetime, id and content kind |
| DeviceService.Reply | server/src/handlers/device.rs:31-61 | `CheckUpdate` answers `NoUpdate` iff nothing is pending for the device, else announces the message at `Repository.NextMessageIndex`; `RequestUpdate` writes the bytes of the first message with the id and panics iff the id is unknown |
| DeviceService.AnnouncedUpdateIsDelivered | server/src/handlers/device.rs:31-60 | in a well-formed store, requesting the message just announced never panics and delivers exactly the announced byte count, and the header passes `check_valid` |
| DeviceService.Run | server/src/handlers/device.rs:15-68 | the server's sessions are the shared loop over this reply step |
| DeviceService.SessionAnswersEachCommand | server/src/handlers/device.rs:25-82 | each reply of a session answers the command decoded from its own BUFFER_SIZE bytes |
| LegacyDeviceHandler.LegacyKind | server/src/device_handler.rs:34 | a text announces its byte length, an image `Image` |
| LegacyDeviceHandler.CheckResult | server/src/device_handler.rs:26-39 | `NoUpdate` iff there is no next message, else its lifetime, id and kind |
| LegacyDeviceHandler.Reply | server/src/device_handler.rs:26-56 | `CheckUpdate` writes the 14-byte encoding and panics iff the announced text is longer than 70 bytes; `RequestUpdate` writes the stored bytes and panics iff the id is unknown |
| LegacyDeviceHandler.ReplyDecodesToResult | server/src/device_handler.rs:41-42 | what the server writes decodes back to the result it built |
| LegacyDeviceHandler.NoPanicWhenTextsFit | server/src/device_handler.rs:41 | when every stored text fits 70 bytes, `CheckUpdate` never panics |
| LegacyDeviceHandler.AcceptedTextPanicsHere | server/src/device_handler.rs:41 | a 100-byte text passes `new_text` yet makes this handler panic |
| LegacyDeviceHandler.Run | server/src/device_handler.rs:11-69 | the server's sessions are the shared loop over this reply step |
| Dummy.TextLengths | server/src/bin/dummy.rs:11-12 | the two texts are 22 and 33 ASCII bytes |
| Dummy.ScriptedResult | server/src/bin/dummy.rs:27-68 | stages 0..3 announce update id = stage with lifetime 6000 s, images at odd stages; later stages answer `NoUpdate` |
| Dummy.ScriptedPayload | server/src/bin/dummy.rs:75-95 | an unknown id writes nothing |
| Dummy.AnnouncedPayloadMatches | server/src/bin/dummy.rs:27-91 | every announced update's payload has exactly the announced length, and the header passes `check_valid` |
| Dummy.Answer | server/src/bin/dummy.rs:25-95 | `CheckUpdate` writes a result and moves to the next stage; `RequestUpdate` writes a payload and keeps the stage |
| Dummy.StageCountsCheckUpdates | server/src/bin/dummy.rs:22-74 | the stage when the k-th command is answered is the number of `CheckUpdate`s before it, counted from 0 on each connection |
| Dummy.Run | server/src/bin/dummy.rs:14-108 | the server's sessions are the shared loop over this step, starting every connection at stage 0 |
| Uf2Format.BlockLayout | server/src/handlers/uf2.rs:18-44 | a built block reads as the UF2 magics, the family-ID flag, the address, 256 payload bytes, the block number, 16 blocks, the RP2040 family and the end magic, with the payload then 220 zeros as data |
| Uf2Format.BlockIsDetermined | server/src/handlers/uf2.rs:18-44 | the only bytes that read as that RP2040 block are the built block |
| Uf2Format.PackU32 | create_uf2.py:24-30 | `struct.pack('<I', x)`: four little-endian bytes of x, failing outside 0..2^32 |
| Uf2Format.PackI32 | create_wifi_uf2.py:22-28 | `struct.pack('<i', x)`: the two's complement word, failing outside -2^31..2^31 |
| Uf2Format.FileLayout | server/src/handlers/uf2.rs:66-71 | 16 blocks; block i reads as the block at base + 256*i numbered i, with the payload in block 0 and zeros after |
| Uf2Format.WifiPayload | server/src/handlers/uf2.rs:59-64 | 256 bytes: the SSID zero-padded to 32, the password zero-padded to 32, then zeros |
| Uf2Format.DevPayloadReadsBack | create_uf2.py:55-57 | the device id reads back as the little-endian word at the start, followed by zeros |
| Uf2Format.WifiPayloadReadsBack | create_uf2.py:41-44 | a readable credential shorter than 32 bytes reads back on the device; one of exactly 32 reads as `None` |
| Uf2Format.FullLengthSsidIsUnreadable | create_uf2.py:7-8 | a 32-byte SSID passes the script's assert but the device reads no SSID |
| Uf2Handler.GenBlock | server/src/handlers/uf2.rs:18-44 | the appended pieces form exactly the block `Uf2Format.Block` describes |
| Uf2Handler.BuildWifiData | server/src/handlers/uf2.rs:59-64 | panics iff a credential exceeds 32 bytes, otherwise builds the wifi payload |
| Uf2Handler.BuildWifiFile | server/src/handlers/uf2.rs:66-71 | block 0 and the loop over 1..16 build the 16-block image |
| Uf2Handler.SubmitWifiConfigAsWritten | server/src/handlers/uf2.rs:46-71 | as written: the error iff a credential has 64 bytes or more, a panic iff one has 33..63, else the image |
| Uf2Handler.MidLengthSsidPassesGuard | server/src/handlers/uf2.rs:49-64 | a 40-byte SSID passes the guard and then underflows `32 - len` |
| Uf2Handler.SubmitWifiConfig | server/src/handlers/uf2.rs:46-71 | corrected guard: the error iff a credential leaves no room for the NUL, otherwise the image of its payload, never a panic |
| Uf2Handler.SubmittedConfigReadsBack | server/src/handlers/uf2.rs:55-71 | an accepted image's block 0 targets the wifi sector, and the device reads back the submitted SSID and password |
| CreateUf2.GenBlock | create_uf2.py:13-39 | fails iff the address or block id is outside the u32 range, else the UF2 block |
| CreateUf2.GenFile | create_uf2.py:46-50 | block 0 then the loop over 1..16 build the 16-block image at the base |
| CreateUf2.GenWifi | create_uf2.py:41-53 | the wifi image of the padded credentials |
| CreateUf2.GenDev | create_uf2.py:55-66 | the device image of the id word and zeros |
| CreateUf2.CreateFiles | create_uf2.py:7-69 | corrected asserts: an `AssertionError` iff a credential leaves no room for the NUL, otherwise both images |
| CreateUf2.FlashedFilesReadBack | create_uf2.py:41-66 | a device flashed with both images reads the SSID, password and id, and every device block targets base + 256*i |
| CreateWifiUf2.GenBlock | create_wifi_uf2.py:11-37 | fails iff a word is outside the signed 32-bit range; a negative word lands as its two's complement |
| CreateWifiUf2.AddressesFitSigned | create_wifi_uf2.py:44-48 | every block address 0x10fff000 + 256*i and block id of the image fits a signed word |
| CreateWifiUf2.GenFile | create_wifi_uf2.py:44-48 | the loop builds the same 16-block image as the unsigned builders |
| CreateWifiUf2.CreateWifiFile | create_wifi_uf2.py:6-51 | corrected asserts: an `AssertionError` iff a credential leaves no room for the NUL, otherwise the wifi image |

## Left out

- Concurrency: the mutexes around the device cache, the server stores and the display are not modelled. Each server run answers from one snapshot of the store. `Firmware.DisplayMessages` runs over one cache that no fetch changes between turns, and `Rotation.RotationReaches` reads the clock once for all its turns.
- Sockets: a read is the next bytes of a finite stream. A failed `write_all(..).unwrap()` panic is not modelled. Accept failures are inputs.
- Postcard's byte format comes from a library outside this model. `Pico.ToBytes`, `Pico.FromBytes` and the postcard-speaking servers take the encoder or decoder as a parameter. Replies are recorded as values, not byte counts. So the model cannot show that the two servers write replies of different lengths. `server/src/bin/dummy.rs:70` writes `to_allocvec`, whose length depends on the value. `server/src/handlers/device.rs:45` writes a whole `BUFFER_SIZE` buffer. Both device clients read a fixed-size reply (`pico/src/fetch_protocol.rs:101-103`, `pico/src/protocol.rs:58-60`).
- Pico.ToBytes: the source's `assert!` on the buffer length is a `requires`, not a modelled panic. The same holds for `Pico.FromBytes`, `MessageBuf.NextAvailableIndex` (non-empty slice) and the 256-byte data asserts of the UF2 builders. Every caller in the source meets them.
- Time: `Instant` and `Duration` are natural numbers of ticks. The overflow panic of `Instant + Duration` is not modelled. Timers, sleeps and socket timeouts are opaque steps.
- The loops in `fetch_data`, `display_messages` and the servers run forever. They are modelled over finite traces of inputs (connection outcomes, clock readings, accepted connections).
- Firmware.FetchData: `request_update` and `handle_update` belong to the device's socket client and are inputs here. The client validates an update with `check_valid` (`Pico.CheckValid`).
- The dummy server's `stage` is an `i32` and its overflow after 2^31 commands is not modelled.
- Repository.NextId: the `as u32` cast wraps modulo 2^32. The contracts about positions hold while fewer than 2^32 messages are stored.
- MemoryDb.InnerMemoryDb.GetTelegramAdminId: a plain getter.
- Image conversion (`new_image`), the sample store (`dummy`), and JSON loading and storing of the stores are not modelled.
- Also not modelled: the web form and its response headers, logging, display rendering, the chat bot, and the device's socket clients.
- server/src/db/message.rs is not part of this model. `MemoryDb.FromInsert` assumes `Message::from_insert` copies every field and sets the id.
- memory.x is not part of this model. The SSID and password buffers are taken to sit at the start of the `.wifi_info` section, in declaration order, which matches the payload layout the builders write.
- Version skew: `server/src/device_handler.rs` uses the 70-byte codec of `common/src/lib.rs`, while `server/src/message.rs` admits 136-byte texts (`LegacyDeviceHandler.AcceptedTextPanicsHere`).
- LegacyDeviceHandler.LegacyKind: `server/src/device_handler.rs:34` converts content into `common/src/lib.rs`'s `MessageUpdateKind`, but no such conversion exists in the source (`server/src/message.rs:74-81` converts only to the protocol's `UpdateKind`). The model assumes it would work the same way: a text's byte length, or `Image`.

## Findings

| source | as written | input that shows it | evidently intended | confidence | as-written member | corrected member |
|---|---|---|---|---|---|---|
| server/src/handlers/uf2.rs:49-53 | rejects only credentials of 64 bytes or more, then pads with `32 - len` | an SSID of 40 bytes passes the guard and `32 - 40` underflows (a panic in debug builds) | reject anything that leaves no room for the NUL in the 32-byte flash buffers | high (not executed) | Uf2Handler.SubmitWifiConfigAsWritten | Uf2Handler.SubmitWifiConfig |
| create_uf2.py:7-8, create_wifi_uf2.py:6-7 | asserts `len(ssid) <= 32` | a 32-byte SSID fills the buffer with no NUL, and the device's `wifi_ssid` reads `None` | `len(ssid) < 32` (and the same for the password) | high (not executed) | Uf2Format.FullLengthSsidIsUnreadable | CreateUf2.CreateFiles, CreateWifiUf2.CreateWifiFile |
| server/src/message.rs:44-51 | loops while more than TEXT_BUFFER_SIZE bytes remain and never emits the rest | "Hi" yields no message at all; 200 bytes yield one 136-byte chunk and drop 64 | emit the remainder as a final chunk | high (not executed) | ServerMessage.ShortTextIsDropped | ServerMessage.NewTexts (its chunks cover the text: ServerMessage.AllChunksCover) |
