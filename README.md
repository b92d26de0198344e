# Stream Deck driver core in Dafny

This project models the sequential core of `elgato-streamdeck`, a Rust driver for Elgato Stream Deck HID devices, and proves properties of the model. It covers four parts:

- **`Info`** (`info.dfy`): the capability table of the nine device families. For each family it gives the product IDs, the key grid, the encoders, the LCD strip, whether the keys have displays, and the key-image format.
- **`Util`** (`util.dfy`) and **`Utf8`** (`utf8.dfy`):
  - `flip_key_index` mirrors a key within its row on the Original.
  - `extract_str` decodes a reply as UTF-8 and drops every NUL. UTF-8 decoding follows `std::str::from_utf8`: the well-formed sequences of table 3-7 of the Unicode standard.
- **`Paging`** (`paging.dfy`) and **`Codec`** (`codec.dfy`): the report codec of `StreamDeck`.
  - The brightness and reset feature reports.
  - The serial-number and firmware-version queries and their text offsets.
  - The dispatch of input reports, and `is_empty` (`Codec.IsEmpty`).
  - The paged image transfers of `write_image` and `write_lcd`. Each page is a fixed-length report: a family-specific header, a chunk of the payload, then zero padding.
  - `StreamDeck` is a class whose `log` field records, in order, the transport calls listed under "Left out". `WriteImage` and `WriteLcd` keep the source's `while bytes_remaining > 0` loops. They are proved to append exactly the reports the functions `ImageReports` and `LcdReports` specify. Lemmas then give the byte layout, page count and reassembly of those reports.
- **`StateReader`** (`reader.dfy`): `AsyncDeviceStateReader`.
  - `DeviceStateReader` is a class holding the stored button and encoder vectors.
  - `Read` turns one decoded input into edge events and replaces the stored vector, as `read` does.
  - The loops of `read` are the methods `CollectButtonUpdates`, `CollectEncoderUpdates` and `CollectTwistUpdates`. Each is proved against a recursive specification function: `ButtonEvents`, `EncoderEvents` and `TwistEvents`.
  - The lemmas characterise those functions:
    - which slots produce events, and of what kind;
    - the ascending order of the events;
    - the down/up pairs of pulse-style families;
    - that an unchanged snapshot produces nothing.

`Wrappers` (`wrappers.dfy`) holds `Option`, `Result` and `Outcome`. `Bytes` (`bytes.dfy`) holds the fixed-width integer types, the truncating casts and the little-endian byte halves of the report headers.

Rust's `u8` arithmetic is modelled as the wrapping arithmetic of a release build. This covers `as u8` casts, the sum in `flip_key_index` and the touch-point subtraction in `read`.

## Model

| member | source | states |
|---|---|---|
| Info.ProductId | src/info.rs:64-76 | every family's product ID is one of the nine known IDs |
| Info.FromPid | src/info.rs:48-61 | `from_pid` returns `Some(k)` exactly when `k`'s product ID is the argument, and `None` exactly for IDs outside the nine constants |
| Info.VendorId | src/info.rs:79-81 | every family reports Elgato's vendor ID 0x0fd9 |
| Info.RowCount | src/info.rs:95-103 | every family has at least one row |
| Info.ColumnCount | src/info.rs:106-114 | every family has at least one column |
| Info.KeyCount | src/info.rs:84-92 | the key count is rows times columns |
| Info.EncoderCount | src/info.rs:117-122 | a family has encoders exactly when it is the Plus |
| Info.LcdStripSize | src/info.rs:125-130 | a family has an LCD strip exactly when it has encoders |
| Info.IsVisual | src/info.rs:133-138 | a family has key displays exactly when it is not the Pedal |
| Info.DefaultImageFormat | src/info.rs:201-210 | the default format has no image mode, size (0, 0), no rotation and no mirroring |
| Info.KeyLayout | src/info.rs:141-143 | the pair is (rows, columns) in that order, and rows times columns is the key count |
| Info.KeyImageFormat | src/info.rs:146-185 | a visual family has a square, non-empty BMP or JPEG key image; the Pedal gets the default format |
| Info.IdentityRoundTrip | src/info.rs:48-81 | every family has vendor ID 0x0fd9, and its product ID maps back to it |
| Info.ProductIdInjective | src/info.rs:64-76 | different families have different product IDs |
| Info.PlusOnlyExtras | src/info.rs:117-130 | the Plus has 4 encoders and an 800x100 strip; every other family has 0 and none |
| Info.OnlyPedalIsBlind | src/info.rs:133-185 | only the Pedal lacks key displays, and only its image mode is "none" |
| Bytes.AsByte | src/lib.rs:342 | a truncating `as u8` cast keeps every value below 256 |
| Bytes.LoHiRoundTrip | src/lib.rs:382-383 | the `& 0xff` and `>> 8` header bytes of a 16-bit value give that value back |
| Bytes.LoHiWrap | src/lib.rs:384-385 | the two header bytes of any page number keep it modulo 2^16 |
| Bytes.Zeros | src/lib.rs:392 | `vec![0u8; n]` has n bytes, all zero |
| Utf8.EncodeChar | src/util.rs:45 | a scalar value encodes to 1 to 4 bytes |
| Utf8.DecodeFirst | src/util.rs:45 | a decoded first sequence takes between 1 and all of the remaining bytes |
| Utf8.DecodeFirstEncodeChar | src/util.rs:45 | decoding the start of a character's encoding gives that character and its length |
| Utf8.EncodeCharDecodeFirst | src/util.rs:45 | a well-formed first sequence is exactly the encoding of the character it decodes to |
| Utf8.DecodeEncode | src/util.rs:45 | decoding the encoding of any string gives the string |
| Utf8.EncodeDecode | src/util.rs:45 | re-encoding any successfully decoded bytes gives the bytes |
| Utf8.ValidIffEncoding | src/util.rs:45 | `from_utf8` succeeds exactly on byte strings that are the encoding of some string |
| Util.FlipKeyIndex | src/util.rs:49-52 | for a key on the grid, the result is on the grid, in the same row, at the mirrored column |
| Util.MirrorInRow | src/util.rs:50-51 | in a rows-by-cols grid, `key - col + (cols - 1 - col)` stays in the grid and row and mirrors the column, so no u8 overflow occurs |
| Util.FlipKeyIndexInvolution | src/util.rs:49-52 | mirroring twice gives back the key |
| Util.FlipKeyIndexMiddleFixed | src/util.rs:50-51 | with an odd column count, keys in the middle column stay put |
| Util.FlipKeyIndexOriginal | src/util.rs:49-52 | on the Original, 0 and 4 swap, 5 and 9 swap, 2 stays, and 14 goes to 10 |
| Util.StripNul | src/util.rs:45 | `replace('\0', "")` leaves no NUL, never lengthens the string, and does not change a string without NUL |
| Util.StripNulAppend | src/util.rs:45 | removing NUL distributes over concatenation |
| Util.StripNulChar | src/util.rs:45 | one character is dropped exactly when it is NUL, so with `StripNulAppend` every other character is kept in order |
| Util.StripNulMembers | src/util.rs:45 | a character is in the result exactly when it is in the input and is not NUL |
| Util.StripZeroBytes | src/util.rs:45 | the byte-level reference for removing NUL: no zero byte is left |
| Util.StripZeroBytesAppend | src/util.rs:45 | removing zero bytes distributes over concatenation |
| Util.StripZeroBytesEncodeChar | src/util.rs:45 | only NUL's encoding holds a zero byte, and that encoding is the zero byte alone |
| Util.EncodeStripNul | src/util.rs:45 | removing NUL characters and then encoding equals removing the zero bytes of the encoding |
| Util.ExtractStr | src/util.rs:44-46 | `extract_str` succeeds exactly on UTF-8 input; its result holds no NUL, and its encoding is the input with every zero byte removed |
| Util.ExtractStrIdempotent | src/util.rs:44-46 | extracting again from the encoding of an extracted string gives the same string |
| Paging.PagesFrom | src/lib.rs:330-398 | pages are numbered consecutively; each carries 1 to `size` bytes; only the final page is marked last; every other page is full; there are no pages exactly when there is no data |
| Paging.PagesFromStep | src/lib.rs:333-335 | the first page takes `min(remaining, size)` bytes and is last exactly when that is everything |
| Paging.ProgressStep | src/lib.rs:333-397 | one loop pass sends page `page`, which starts at `page * size`, takes `min(remaining, size)` bytes, and is last exactly when `remaining <= size`; afterwards the loop state is the next page's |
| Paging.PagesFromAt | src/lib.rs:334-335 | page i starts at byte `i * size` and takes `min(remaining, size)` bytes |
| Paging.PagesReassemble | src/lib.rs:389 | the chunks taken in page order make up the payload |
| Paging.PagesCount | src/lib.rs:333-397 | a payload of n bytes takes `ceil(n / size)` pages |
| Codec.BrightnessReport | src/lib.rs:266-297 | the brightness report has the family's length and prefix, the level clamped to 100 at the family's offset, and zeros after it |
| Codec.ResetReport | src/lib.rs:245-263 | the reset report is `0B 63` plus 15 zeros on the Original, Mini and Mini Mk2, and `03 02` plus 30 zeros on the others |
| Codec.BrightnessClamps | src/lib.rs:267 | any level of 100 or more gives the report for 100 |
| Codec.BrightnessInjective | src/lib.rs:266-297 | different levels in 0..=100 give different reports |
| Codec.ResetIsNotBrightness | src/lib.rs:245-297 | no brightness report equals the reset report |
| Codec.SerialNumberQuery | src/lib.rs:154-171 | the serial number's text offset lies inside the reply buffer |
| Codec.FirmwareVersionQuery | src/lib.rs:174-186 | the firmware version's text offset lies inside the reply buffer |
| Codec.FeatureString | src/lib.rs:154-186 | the reply's text is valid exactly when the bytes after the offset are UTF-8; a failure is `Utf8Error`; the text holds no NUL and encodes to those bytes with the zeros removed |
| Codec.ReadLength | src/lib.rs:189-231 | `read_input` asks for 14 bytes on the Plus, 1 + keys on the Original, Mini and Mini Mk2, and 4 + keys on the others |
| Codec.DecodeInput | src/lib.rs:189-242 | a zero first byte gives `NoData`; the Plus dispatches byte 1 (0 buttons, 2 LCD, 3 encoders, else `BadData`); other families report buttons; only the Plus can give `BadData` |
| Codec.DecodeInputErrors | src/lib.rs:189-242 | a failed decode needs the Plus, a non-zero first byte, and either an unknown sub-type or a failing sub-decoder |
| Codec.IsEmpty | src/lib.rs:103-109 | an input is empty exactly when it is `NoData` |
| Codec.DecodeInputEmpty | src/lib.rs:103-109 | on every family but the Plus, the decoded input is empty exactly when the first byte is zero |
| Codec.Frame | src/lib.rs:389-392 | a report is exactly `length` bytes: the header, then the chunk, then zeros |
| Codec.FrameHeader | src/lib.rs:389-392 | the first bytes of a report are its header |
| Codec.WireKey | src/lib.rs:305-309 | the key sent on the wire, mirrored on the Original, is still a key of the family |
| Codec.ImageHeader | src/lib.rs:338-387 | the image header is 16 bytes on the Original, Mini and Mini Mk2, and 8 bytes on the other families |
| Codec.ImageHeaderFields | src/lib.rs:338-387 | the header fields of each family: `02 01`, then page+1 (Original) or page (Mini families) at byte 2, the last flag at byte 4, key+1 at byte 5 and zero at byte 3 and bytes 6-15 on the 16-byte headers; `02 07`, key, last flag, then little-endian chunk length and page on the others |
| Codec.ImageReportFields | src/lib.rs:338-392 | an image report has its family's length and header fields (zero at byte 3 and bytes 6-15 of a 16-byte header), then the chunk, then zeros |
| Codec.ImageReportsAt | src/lib.rs:330-398 | unfolding of `ImageReports`: one report per page, built from the wire key |
| Codec.ImageReportPayload | src/lib.rs:325-392 | report i carries image bytes from `i * payload` on, full on every report but the last, followed by zeros |
| Codec.ImageReportHeader | src/lib.rs:305-387 | the header of report i: page i (i+1 on the Original); the last flag set on the final report only; `flip_key_index(key)+1` on the Original, key+1 on the Mini families, zero at byte 3 and bytes 6-15 of the 16-byte headers, key and little-endian length and page on the others |
| Codec.ImageReportCount | src/lib.rs:325-335 | an image of n bytes takes `ceil(n / payload)` reports; the Original takes 2 for even n and 3 for odd n |
| Codec.ImageReportsReassemble | src/lib.rs:389 | the chunks of the image reports, taken in order, are the image |
| Codec.LcdHeader | src/lib.rs:426-443 | the LCD header is 16 bytes |
| Codec.LcdHeaderFields | src/lib.rs:426-443 | the LCD header is `02 0c`, then x, y, width and height little-endian, the last flag, the page and chunk length little-endian, then 0 |
| Codec.LcdReportFields | src/lib.rs:426-448 | an LCD report is 1024 bytes: the header fields, the chunk at byte 16, then zeros |
| Codec.LcdReportsAt | src/lib.rs:418-454 | unfolding of `LcdReports`: one report per 1008-byte page of the region |
| Codec.LcdReportLast | src/lib.rs:437-438 | the last flag is 1 exactly on the final report, which is exactly the report with at most 1008 bytes remaining; the page field counts reports |
| Codec.LcdReportPayload | src/lib.rs:422-445 | report i is 1024 bytes and its length field gives its chunk (full on all reports but the last), which follows the 16-byte header and is the region's bytes from `i * 1008` |
| Codec.LcdReportChunk | src/lib.rs:440-445 | an LCD report's length field gives the length of the chunk that follows the header |
| Codec.LcdPayloadsFrom | src/lib.rs:418-454 | reading the reports from k on by their length fields gives the chunks of the pages from k on |
| Codec.LcdReportsReassemble | src/lib.rs:418-454 | a receiver that trusts the length fields reassembles exactly the region data |
| Codec.ImageLoopReport | src/lib.rs:333-392 | the buffer the `write_image` loop builds for a page is that page's report |
| Codec.LcdLoopReport | src/lib.rs:421-448 | the buffer the `write_lcd` loop builds for a page is that page's report |
| Codec.BuildImageReport | src/lib.rs:333-392 | for every page the `write_image` loop reaches, the buffer one pass builds (header, next image bytes, zero padding) is that page's report |
| Codec.BuildLcdReport | src/lib.rs:421-448 | for every page the `write_lcd` loop reaches, the buffer one pass builds is that page's report |
| Codec.StreamDeck.Connect | src/lib.rs:125-133 | connecting opens vendor ID 0x0fd9, the family's product ID and the serial |
| Codec.StreamDeck.SerialNumber | src/lib.rs:154-171 | `serial_number` issues the family's query and returns the extracted text of the reply |
| Codec.StreamDeck.FirmwareVersion | src/lib.rs:174-186 | `firmware_version` issues the family's query and returns the extracted text of the reply |
| Codec.StreamDeck.ReadInput | src/lib.rs:189-242 | `read_input` reads the family's length and returns the decoded input |
| Codec.StreamDeck.Reset | src/lib.rs:245-263 | `reset` sends the family's reset report and nothing else |
| Codec.StreamDeck.SetBrightness | src/lib.rs:266-297 | `set_brightness` sends the family's report for the clamped level and nothing else |
| Codec.StreamDeck.WriteImage | src/lib.rs:300-401 | an off-grid key gives `InvalidKeyIndex` and a family without displays `NoScreen`, both with nothing sent; otherwise exactly the image reports are written, in order |
| Codec.StreamDeck.WriteLcd | src/lib.rs:404-457 | a family other than the Plus gives `UnsupportedOperation` with nothing sent; the Plus writes exactly the LCD reports, in order |
| StateReader.TouchIndex | src/asynchronous.rs:236-240 | for a slot at or past the keys, the touch-point number is the slot minus the key count |
| StateReader.TransitionSlot | src/asynchronous.rs:229-240 | for a slot below 256, a transition event names that slot, and it is a press exactly when the slot is now down |
| StateReader.TransitionInjective | src/asynchronous.rs:229-240 | different slots, or different new states, give different events |
| StateReader.ButtonEventsAreTransitions | src/asynchronous.rs:222-242 | on a transitioning family, slot i gives its transition event exactly when it changed, and every event is the transition of a changed slot |
| StateReader.ButtonEventsAscending | src/asynchronous.rs:222-242 | on a transitioning family, the events name slots below n in strictly ascending order |
| StateReader.MiraboxShape | src/asynchronous.rs:224-228 | on a mirabox family, only key events are emitted, presses at even positions and releases at odd ones, even at touch-point slots |
| StateReader.MiraboxPairs | src/asynchronous.rs:224-228 | on a mirabox family, each release follows the press of the same key |
| StateReader.MiraboxAscending | src/asynchronous.rs:224-228 | on a mirabox family, the pressed keys strictly ascend |
| StateReader.MiraboxMembers | src/asynchronous.rs:224-228 | on a mirabox family, key i is pressed exactly when slot i is down now |
| StateReader.MiraboxIgnoresState | src/asynchronous.rs:224-228 | on a mirabox family, the events do not depend on the stored vector |
| StateReader.ButtonEventsSkipUnchanged | src/asynchronous.rs:229 | on a transitioning family, unchanged slots add no events |
| StateReader.EncoderEventsAreTransitions | src/asynchronous.rs:256-264 | on a transitioning family, encoder i is pressed or released exactly when it changed to down or up; only such events occur, in ascending encoder order |
| StateReader.PulseShape | src/asynchronous.rs:250-255 | on Akp03E/Akp03R, only encoder presses at even positions and releases at odd ones are emitted |
| StateReader.PulsePairs | src/asynchronous.rs:250-255 | on Akp03E/Akp03R, each release follows the press of the same encoder |
| StateReader.PulseMembers | src/asynchronous.rs:250-255 | on Akp03E/Akp03R, encoder i is pressed exactly when it is down now |
| StateReader.PulseIgnoresState | src/asynchronous.rs:250-255 | on Akp03E/Akp03R, the events do not depend on the stored vector |
| StateReader.EncoderEventsQuiet | src/asynchronous.rs:257 | on a transitioning family, an unchanged encoder vector yields no events |
| StateReader.TwistEventsNonZero | src/asynchronous.rs:271-277 | there is one twist event per non-zero change, carrying that change, in ascending encoder order, and nothing else |
| StateReader.UpdatesForward | src/asynchronous.rs:279-291 | touch reports are forwarded as one identical event; `NoData` yields nothing; twist and touch reports leave the stored vectors alone |
| StateReader.SecondReadQuiet | src/asynchronous.rs:222-269 | on a transitioning family, reading the same button or encoder snapshot a second time yields no events |
| StateReader.TwoPressesExample | src/asynchronous.rs:222-242 | from all released with slots 2 and 5 down: `[Down 2, Down 5]` on a transitioning family, `[Down 2, Up 2, Down 5, Up 5]` on a mirabox family |
| StateReader.PressThenReleaseExample | src/asynchronous.rs:222-244 | on a 15-key family, pressing key 7 gives `[Down 7]`, and releasing it afterwards gives `[Up 7]` |
| StateReader.TouchPointExample | src/asynchronous.rs:236-240 | with 8 keys, slot 9 going down is touch point 1 going down |
| StateReader.CollectButtonUpdates | src/asynchronous.rs:222-242 | the button loop of `read` computes `ButtonEvents` over the common length of the two vectors |
| StateReader.CollectEncoderUpdates | src/asynchronous.rs:247-266 | the encoder loop of `read` computes `EncoderEvents` over the common length of the two vectors |
| StateReader.CollectTwistUpdates | src/asynchronous.rs:271-277 | the twist loop of `read` computes `TwistEvents` |
| StateReader.DeviceStateReader.GetReader | src/asynchronous.rs:196-204 | a new reader has key + touch-point count released buttons and encoder count released encoders |
| StateReader.DeviceStateReader.Read | src/asynchronous.rs:215-297 | a failed read is passed on with no state change; otherwise the events of the input are returned, and a button or encoder report replaces the stored vector |

## Left out

- The HID transport is foreign code. `StreamDeck.log` records one entry per call of `open_serial` (`Open`), `get_feature_report` (`GetFeature`), `send_feature_report` (`SendFeature`), `write_data` (`Write`) and `read_data` (`Read`, with its length). The `set_blocking_mode` call and the choice between `read` and `read_timeout` inside `read_data` are not logged. `get_manufacturer_string` and `get_product_string` are not modelled at all. The bytes the transport would return are parameters (`reply`, `data`).
- Codec.StreamDeck.Connect, SerialNumber, FirmwareVersion, ReadInput, WriteImage, WriteLcd, Reset, SetBrightness: the transport never fails in the model, so the `HidError` path of `open_serial(...)?`, `get_feature_report(...)?`, `read_data(...)?`, `write_data(...)?` and `send_feature_report(...)?` is not modelled. In the source, such a failure returns the error at once, and a failed write ends a transfer early.
- `manufacturer`, `product` and `kind` are pure transport or field reads and are not modelled. The read timeout of `read_input` is a transport parameter and is left out.
- `read_button_states`, `read_lcd_input` and `read_encoder_input` (the per-family decoding of an input report's payload) are not part of this model. They are the function-typed fields of `Codec.InputDecoders`, which the model takes as given.
- The error payloads (`HidError`, `Utf8Error`, `ImageError`) are tags without contents. `JoinError`, the `Display`/`From` plumbing and the `Utf8Error` position details are not modelled.
- src/images.rs, `set_button_image` and `clear_button_image` are left out, including the cached blank image. They are calls into the `image` crate.
- `list_devices`, `new_hidapi` and `refresh_device_list` are left out. They filter the transport's device list.
- The `AsyncStreamDeck` wrappers, the `Mutex` around the reader state, `block_in_place` and the poll rate of `read` are concurrency and timing. `DeviceStateReader.Read` takes the result of `read_input` as a parameter.
- `is_mirabox`, `touchpoint_count` and the families `Akp03E`/`Akp03R` are used by src/asynchronous.rs but are not defined in src/info.rs. The reader takes them as a `Quirks` record: a touch-point count, a mirabox flag, and a flag for the pulse-style encoder families.
- Codec.StreamDeck.WriteImage requires `ImageWritable`. On the Original, a 1-byte image makes the loop send 0 bytes per pass forever. Half an image over 8175 bytes makes the padding length underflow. Both inputs are excluded.
- Debug-build overflow panics are not modelled. The u8 arithmetic wraps as in a release build (`Util.FlipKeyIndex` for off-grid keys, `StateReader.TouchIndex`). The model rules out a panic at `key + 1` because keys are below the key count.
- StateReader lemmas about `ButtonEvents`, `EncoderEvents` and `TwistEvents` hold for the first 256 slots. Past that, `index as u8` wraps and slots share event numbers.
- `write_image` sends each image at once; there is no write cache and no `flush`.
- Pulse-style families store the button vector after a read, like every other family.
- A family without displays gets `NoScreen` from `write_image`, and `reset` is sent to every family.
- Enum variants are renamed where the Rust names clash in Dafny: `ImageMode::None` is `NoImage`, `ImageMirroring::None` is `NoMirror`, `X`/`Y`/`Both` are `MirrorX`/`MirrorY`/`MirrorBoth`, and `BMP`/`JPEG` are `Bmp`/`Jpeg`.
