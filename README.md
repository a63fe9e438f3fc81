# galsrv core in Dafny

galsrv is a gateway between a web back end and the devices on a shop floor.
Those devices are scales (Tenzo-M, Mettler Toledo MT-SICS, DIGI DI-160) and
Datamax label printers that speak DPL (Datamax Programming Language).

This project models the protocol and session core of galsrv and proves
properties of that model:

- **Printers.** It models the DPL control-code dialects and the Unicode label
  encoder, which turns inline tokens into control bytes and text into hex.
  It also models the TrueType font and image upload streams, with their file
  name sanitising, and the printer driver's command, response and defaults
  hooks.
- **Labels.** It models the back end's label template engine: `{prefix.path}`
  variables resolved along dotted paths, and `{prefix.path:n}` variables
  that consume a long text in space-aware chunks.
- **Scales.**
  - The Tenzo-M CRC-8 and frame codec, including the simulator's frame
    builder and the older client with its request commands.
  - The MT-SICS line parser.
  - The DIGI stream parser.
- **Registries and validation.** It models the driver and controller
  registries, and request validation in both services.
- **Server state.** It models the stateful parts of the servers:
  - the connection pool of each service, as a class over a map of writers;
  - the device controller's websocket handler, with its `ACTIVE_WEBSOCKETS`
    registry;
  - the weighing service's handler, with its `SCALE_LOCKS` table.

The style follows the source, file by file:

- Pure code becomes datatypes, functions and lemmas.
- Loops become methods whose `ensures` ties them to a specification function.
- Objects that update their state become classes. Each method ensures that
  the new `Model()` is a step function of the old one, and the lemmas prove
  what those step functions promise.

Python's `float` becomes `real`, bytes become `seq<Byte>` with `Byte = x: int
| 0 <= x < 256`, and an exception becomes `None` or an `Err` result. The
network, clocks, files and asyncio scheduling become parameters: an open
outcome, a reading, whether a file exists, the message sequence a client
sends.

One source defect changes how the model is built. `_encode_load_image` in
the back end's DPL driver passes the image bytes where a path is expected, so
the driver can never build an image upload. The model follows that code
(`Dpl.EncodeLoadImage` is always `None`). It proves the image stream itself
on the builder (`ImageUpload.BuildImageUpload`).

## Model

| member | source | states |
|---|---|---|
| ControlCodes.GetControlCodes | src/device_controller/devices/printers/dpl/control_codes.py:30-33 | a table is returned exactly for ids -3..2, as Python list indexing allows; otherwise the lookup raises (None); any table returned is one of the three dialects |
| ControlCodes.DialectTables | src/device_controller/devices/printers/dpl/control_codes.py:1-27 | ids 0, 1 and 2 give the standard, alternate and alternate-2 tables byte for byte; the default id 0 is the standard table |
| ControlCodes.NegativeIds | src/device_controller/devices/printers/dpl/control_codes.py:30-33 | a negative id -3..-1 selects the same table as id+3 |
| ControlCodes.SharedCodes | src/device_controller/devices/printers/dpl/control_codes.py:1-27 | ESC, FNC1 and GS are the same in every dialect; every code is 7-bit |
| SendLabel.SubstituteInlineTokens | src/device_controller/devices/printers/dpl/send_label.py:40-62 | the scanning loop gives the same bytes (or the same refusal) as the specification `Substitute` |
| SendLabel.SubstituteFailsOnNonAscii | src/device_controller/devices/printers/dpl/send_label.py:40-62 | substitution succeeds iff the segment is ASCII (the `.encode('ascii')` of each piece) |
| SendLabel.SubstituteVerbatim | src/device_controller/devices/printers/dpl/send_label.py:40-62 | an ASCII segment with no '<' is sent byte for byte |
| SendLabel.SubstituteToken | src/device_controller/devices/printers/dpl/send_label.py:51-58 | a known token at the head of the segment becomes its dialect bytes, and scanning resumes after the token |
| SendLabel.TokenTableFacts | src/device_controller/devices/printers/dpl/send_label.py:27-34 | `<STX>`, `<SOH>`, `<ESC>`, `<FNC1>` and `<GS>` map to the dialect's codes; `<CR>` is not an inline token |
| SendLabel.HexText | src/device_controller/devices/printers/dpl/send_label.py:36-38 | the encoded text is uppercase hex digits only, hence ASCII |
| SendLabel.HexTextRoundTrip | src/device_controller/devices/printers/dpl/send_label.py:36-38 | for BMP text, each character takes four digits that read back as its code point |
| SendLabel.RecordTerminated | src/device_controller/devices/printers/dpl/send_label.py:78-120 | every record that encodes ends with the dialect's CR |
| SendLabel.NonTextRecord | src/device_controller/devices/printers/dpl/send_label.py:76-87 | a record that is not a text record encodes iff it is ASCII, as its substituted bytes plus CR |
| SendLabel.TextRecordNeedsTwoP | src/device_controller/devices/printers/dpl/send_label.py:89-97 | a text record with fewer than two 'P' is refused |
| SendLabel.TextRecordFields | src/device_controller/devices/printers/dpl/send_label.py:89-120 | with its first two 'P' at p1 and p2, a text record encodes iff the second P-field has its three characters, the prefix through them is ASCII and the text after them holds no control token; the output is then the substituted prefix, the text as hex code points, and CR |
| SendLabel.RecordSevenBit | src/device_controller/devices/printers/dpl/send_label.py:67-120 | every encoded record is 7-bit |
| SendLabel.EncodeAllNone | src/device_controller/devices/printers/dpl/send_label.py:65-122 | the label is refused iff some non-empty segment is refused |
| SendLabel.EncodeAllAppend | src/device_controller/devices/printers/dpl/send_label.py:65-122 | encoding two runs of segments in turn is encoding their concatenation; a refusal in the first run refuses the whole |
| SendLabel.EmptySegmentIgnored | src/device_controller/devices/printers/dpl/send_label.py:70-71 | an empty segment adds nothing |
| SendLabel.EncodeAllSevenBit | src/device_controller/devices/printers/dpl/send_label.py:67-122 | with a 7-bit dialect, every encoded run of segments is 7-bit |
| SendLabel.LabelSevenBit | src/device_controller/devices/printers/dpl/send_label.py:65-122 | a whole encoded label is 7-bit |
| SendLabel.LabelIds | src/device_controller/devices/printers/dpl/send_label.py:22-23 | a label encodes only with a dialect id 0..2, although the table lookup also takes -3..-1 |
| SendLabel.BuildDplUnicodeLabel | src/device_controller/devices/printers/dpl/send_label.py:22-122 | the segment loop returns exactly the specification `BuildLabel` of the input |
| FontUpload.FontName | src/backend/device_controller/printers/dpl/upload_font.py:26-28 | the stored font name is non-empty, at most 32 characters, made of `[A-Za-z0-9_.-]` only, hence ASCII |
| FontUpload.BackendIdAccepts | src/backend/device_controller/printers/dpl/upload_font.py:31-39 | an int id is accepted iff 11..99; a str id iff it is two ASCII digits worth at least 11; the id sent is two digits |
| FontUpload.BackendIntId | src/backend/device_controller/printers/dpl/upload_font.py:31-34 | an int id is written as `%02d` |
| FontUpload.RevisionsDisagree | src/device_controller/devices/printers/dpl/upload_font.py:33-34 | the device revision accepts the id "5A", which the back-end revision refuses |
| FontUpload.DialectsDifferOnlyInStxCr | src/backend/device_controller/printers/dpl/upload_font.py:15-52 | two dialects with the same STX and CR give the same stream |
| FontUpload.ParseFontStreamRoundTrip | src/backend/device_controller/printers/dpl/upload_font.py:41-54 | for a two-character id and a name the CR cannot occur in, the stream parses back to its module, id, name, size field and font data |
| FontUpload.SizeField | src/backend/device_controller/printers/dpl/upload_font.py:24 | the size field is eight uppercase hex digits worth the data length when it is below 2^32 |
| FontUpload.BackendLayout | src/backend/device_controller/printers/dpl/upload_font.py:13-54 | a successful back-end upload parses back to the module, the two-digit id, the sanitised name before the last dot, the size of the font and the font bytes |
| FontUpload.DeviceLayout | src/device_controller/devices/printers/dpl/upload_font.py:14-49 | a successful device upload parses back the same way, with the sanitised path stem as name |
| FontUpload.DeviceRefuses | src/device_controller/devices/printers/dpl/upload_font.py:16-49 | the device upload is refused iff the dialect is unknown, the id is not exactly two printable ASCII characters, or the module is not ASCII |
| ImageUpload.FormatOf | src/backend/device_controller/printers/dpl/upload_image.py:112-135 | a known extension gives designator b, p or i, and every format belongs to the extension table |
| ImageUpload.FormatTable | src/backend/device_controller/printers/dpl/upload_image.py:112-135 | the extension table exactly: .bmp, .pcx and .img direct, .png/.jpg/.jpeg via conversion |
| ImageUpload.HexUpper | src/backend/device_controller/printers/dpl/upload_image.py:156-159 | the ASCII-hex payload is uppercase hex digits |
| ImageUpload.HexUpperRoundTrip | src/backend/device_controller/printers/dpl/upload_image.py:156-159 | two digits per byte, and they read back as the bytes |
| ImageUpload.ImageName | src/backend/device_controller/printers/dpl/upload_image.py:137-138 | the image name is non-empty, at most 16 characters, name characters only, ASCII |
| ImageUpload.Refuses | src/backend/device_controller/printers/dpl/upload_image.py:102-161 | the upload is refused iff the dialect is unknown, the file is missing, the extension is unknown, a converted format has bad conversion arguments, or the module is not ASCII |
| ImageUpload.PrefixPresent | src/backend/device_controller/printers/dpl/upload_image.py:152-154 | the stream starts with SOH D iff the disable prefix is asked for and the payload is binary |
| ImageUpload.ParseRoundTrip | src/backend/device_controller/printers/dpl/upload_image.py:140-161 | the stream parses back to module, hex flag, format, name and payload |
| Dpl.DecodeIsNormalize | src/backend/device_controller/printers/dpl/dpl.py:36-40 | the two `replace` calls equal one left-to-right pass turning CR LF and lone CR into LF |
| Dpl.NormalizeNoCr | src/backend/device_controller/printers/dpl/dpl.py:39 | no CR is left in a decoded response |
| Dpl.NormalizeKeeps | src/backend/device_controller/printers/dpl/dpl.py:39 | a response with no CR is unchanged |
| Dpl.DecodeResponseFacts | src/backend/device_controller/printers/dpl/dpl.py:36-40 | the decoded response has no CR, keeps CR-free text, and decoding it again changes nothing |
| Dpl.PhraseSurvivesDecoding | src/backend/device_controller/printers/dpl/dpl.py:50-52 | a phrase with no CR or LF that occurs in a response still occurs in the decoded response |
| Dpl.TestSurvivesDecoding | src/backend/device_controller/printers/dpl/dpl.py:36-52 | a response that passes the connection test ("PRINTER INFORMATION" in it) still passes once decoded |
| Dpl.DefaultCommandBytes | src/backend/device_controller/printers/dpl/dpl.py:8-48 | the default and the test command are both GET_CONFIGURATION and are sent as 02 4B 43 0D |
| Dpl.VerbatimCommand | src/backend/device_controller/printers/dpl/dpl.py:24-26 | a non-empty ASCII command with no '<' that is not a text record is sent verbatim, followed by the standard CR |
| Dpl.StandardModeSwitch | src/backend/device_controller/printers/dpl/dpl.py:11-12 | the switch back to standard mode, `~KcCCS` followed by a bar, is sent verbatim plus the standard CR, and its first and last characters are the alternate-2 dialect's STX and CR |
| Dpl.EncodeLoadFontIds | src/backend/device_controller/printers/dpl/dpl.py:28-30 | a font load is encoded iff the id is 11..99 |
| DplNames.SanitizeIsName | src/backend/device_controller/printers/dpl/upload_font.py:28 | `re.sub` leaves name characters only, never lengthens, and keeps a non-empty input non-empty |
| DplNames.SanitizeKeeps | src/backend/device_controller/printers/dpl/upload_image.py:138 | sanitising leaves a string unchanged iff it already holds only name characters |
| DplNames.SanitizeIdempotent | src/backend/device_controller/printers/dpl/upload_image.py:138 | sanitising twice equals sanitising once |
| DplNames.SafeNameFacts | src/backend/device_controller/printers/dpl/upload_font.py:27-28 | for a valid fallback, the name is non-empty, within the limit and name characters only; it is the fallback iff the raw name is empty or its sanitised, truncated form equals the fallback |
| DplNames.StemSuffix | src/device_controller/devices/printers/dpl/upload_font.py:29-30 | stem plus suffix is the file name; the suffix is empty or a dot followed by no other dot |
| DplNames.BeforeLastDotFacts | src/backend/device_controller/printers/dpl/upload_font.py:27 | `rsplit('.', 1)[0]` is a prefix of the name; the name holds a dot iff that prefix stops at a dot after which no other dot comes |
| DplNames.AsciiLower | src/backend/device_controller/printers/dpl/upload_image.py:112 | lower-casing keeps the length and maps A..Z to a..z and nothing else |
| Labels.Resolve | src/backend/labels/utils.py:14-38 | a walk that fails (at a None, or at a key or attribute the value lacks) reports not found with value None; a string's attributes, like those of any object, can be walked |
| Labels.ResolvePath | src/backend/labels/utils.py:14-38 | the walking loop returns exactly `Resolve` of the root over the parts of `path.split(".")`: each part must be a key of a mapping or an attribute `hasattr` finds on any other value, strings included |
| Labels.ResolveAppend | src/backend/labels/utils.py:20-38 | walking parts `a + b` walks `a`, then `b` from where `a` ended, and fails if `a` fails |
| Labels.ResolveDotted | src/backend/labels/utils.py:20-36 | `first.rest` is the key or attribute `first` of any value that is not None (a mapping, a string or another object), then `rest` inside it; a None or a value without `first` is not found |
| Labels.ResolveField | src/backend/labels/utils.py:20-38 | a name without a dot is one key or attribute: found with its value iff the value is not None and has it, whatever kind of value it is |
| Labels.ConsumeChunkSpec | src/backend/labels/utils.py:41-65 | nothing is taken for a non-positive length or empty text; a text that fits is taken whole; otherwise the chunk ends at the last space after the first character of the window, which is dropped, or is a hard cut of `max_len` characters; a non-empty text always yields a non-empty chunk and a shorter rest |
| Labels.ConsumeChunkParts | src/backend/labels/utils.py:41-65 | the chunk is a prefix of the text and the rest a suffix of it |
| Labels.TakeChunkSpec | src/backend/labels/utils.py:170-177 | the chunk comes from the variable's remaining text, or from its whole value the first time; only that variable's remaining text changes |
| Labels.ExhaustedIsEmpty | src/backend/labels/utils.py:170-177 | once a variable's text is used up, later occurrences become "" and change nothing |
| Labels.ParseVarRoundTrip | src/backend/labels/utils.py:113-146 | a written `prefix.path` or `prefix.path:n` is read back as that prefix, path and length, when neither part has `str.isspace` whitespace at its ends (the whitespace `strip()` would remove) |
| Labels.NoDotInvalid | src/backend/labels/utils.py:137-139 | a variable without a dot is malformed and replaced by INVALID_VAR_MSG |
| Labels.UnknownPrefixReplace | src/backend/labels/utils.py:148-151 | a well-formed variable (after `str.strip()` of its parts) whose prefix has no model is left as written |
| Labels.UnknownPrefixKept | src/backend/labels/utils.py:148-183 | the substitution keeps such a token in the template unchanged |
| Labels.ReplaceMatch | src/backend/labels/utils.py:112-181 | `replace(match)`, with the path walked by the loop, gives exactly the specification `Replace` and its new remaining-text map; parts are stripped of `str.isspace` whitespace and the length is read as `int()` does, underscores included |
| Labels.NextBrace | src/backend/labels/utils.py:11 | the scan's next stop is the first brace at or after the position, or the end |
| Labels.TokenEnd | src/backend/labels/utils.py:11 | a match of `\{([^{}]+)\}` at a '{' ends at a '}' with at least one character between |
| Labels.Step | src/backend/labels/utils.py:183 | each step of the substitution scan moves forward |
| Labels.ScanStep | src/backend/labels/utils.py:183 | the method's step emits, moves and updates the map exactly as `Step` |
| Labels.NoVarsUnchanged | src/backend/labels/utils.py:183 | the substitution keeps a text with no '{' unchanged |
| Labels.BuildPrintCommand | src/backend/labels/utils.py:68-183 | the scanning loop returns exactly the specification `PrintCommand`, whose stripping is `str.strip()` and whose length parsing is `int()` |
| Labels.PrintCommandFacts | src/backend/labels/utils.py:101-183 | the result is None iff the template strips to empty, that is iff every character is `str.isspace` whitespace (no-break and ideographic spaces included); a non-blank template with no '{' or no values is returned unchanged |
| Labels.UnderscoreIgnored | src/backend/labels/utils.py:129-132 | `int()` of the length reads digits joined by one underscore as the digits without it, and refuses a doubled underscore |
| Labels.ParseIntDigits | src/backend/labels/utils.py:129-132 | a run of ASCII digits is read by `int()` as its decimal value |
| Schemas.FilenameLength | src/backend/printers/schemas.py:55-60 | an empty name is refused; otherwise the name is cut to its first min(length, 15) characters, as `value[:15]` |
| Schemas.FilenameIdempotent | src/backend/printers/schemas.py:55-60 | cutting a kept name again changes nothing |
| Schemas.FontIdRange | src/backend/printers/schemas.py:70-76 | a font id is accepted, unchanged, iff it lies in `range(11, 100)` |
| Schemas.ContentType | src/backend/printers/schemas.py:78-84 | a content type is accepted, unchanged, iff it is "ttf", "font/ttf" or "application/octet-stream" |
| Schemas.FontSchema | src/backend/printers/schemas.py:63-76 | a font passes iff its name is non-empty, its id is 11..99 and its type is one of the three; it then keeps the id, the bytes, the type and the cut name |
| Schemas.ImageSchema | src/backend/printers/schemas.py:78-90 | an image passes iff its name is non-empty; it then keeps the bytes and the cut name |
| Schemas.SchemaIdsMatchUpload | src/backend/printers/schemas.py:70-76 | the schema accepts exactly the font ids the back-end DPL driver's font upload accepts |
| Request.ParseCommand | src/device_controller/validators/request.py:10-15 | a parsed command carries that name |
| Request.CommandRoundTrip | src/device_controller/validators/request.py:10-15 | every command parses from its name, and a text parses iff it is one of the four names |
| Request.ValidateFacts | src/device_controller/validators/request.py:18-34 | a request is valid iff the command and IP parse, the port is 1024..65535 and the driver is one of the three scale drivers; it then keeps the command, and its socket is the compressed IP and the port |
| Registry.Get | src/backend/device_controller/controllers.py:21-28 | `dict.get`: Some iff the name is a key, and then the table's entry |
| Registry.TableKeys | src/backend/device_controller/controllers.py:8-16 | the scale table has exactly mt_sics, digi_di160 and tenzo_m; the printer table has exactly dpl |
| Registry.PrinterLookup | src/backend/device_controller/controllers.py:21-23 | a printer controller is found iff the name is "dpl" |
| Registry.ScalesLookup | src/backend/device_controller/controllers.py:26-28 | a scale controller is found iff the name is one of the three, and it is a scale |
| Registry.TablesDisjoint | src/backend/device_controller/controllers.py:8-16 | no name is both a scale and a printer |
| TenzoUtils.CrcStep | src/weighing_service/scales/tenzo_m/utils.py:6-27 | the eight-round loop returns exactly the specification `Step`, a byte |
| TenzoUtils.ComputeCrc | src/weighing_service/scales/tenzo_m/utils.py:30-40 | the result is the integer checksum, or (with `as_hex`) two uppercase hex digits that read back as it |
| TenzoUtils.StepIsShiftIn | src/weighing_service/scales/tenzo_m/utils.py:6-27 | one step shifts the byte's bits into the register, MSB first, with generator 0x69 |
| TenzoUtils.FoldIsShiftIn | src/weighing_service/scales/tenzo_m/utils.py:30-40 | folding the steps over a message shifts in all its bits |
| TenzoUtils.CrcOfIsAugmentedCrc8 | src/weighing_service/scales/tenzo_m/utils.py:30-40 | the checksum is the augmented CRC-8 of the message (its bits followed by eight zero bits), with generator 0x69 |
| TenzoUtils.RoundsLinear | src/weighing_service/scales/tenzo_m/utils.py:6-27 | the rotate/XOR rounds are linear: rounds of the XOR of two registers are the XOR of their rounds (the basis of the error-detection proof) |
| TenzoUtils.StepInjectiveInput | src/weighing_service/scales/tenzo_m/utils.py:6-27 | for a fixed register, different bytes give different steps |
| TenzoUtils.StepInjectiveCrc | src/weighing_service/scales/tenzo_m/utils.py:6-27 | for a fixed byte, different registers give different steps |
| TenzoUtils.FoldInjectiveCrc | src/weighing_service/scales/tenzo_m/utils.py:30-40 | over a fixed message, different starting registers end in different checksums |
| TenzoUtils.CrcDetectsSingleByteError | src/weighing_service/scales/tenzo_m/utils.py:30-40 | changing any one byte of a message, anywhere, changes its checksum |
| TenzoUtils.DecodeFieldsSpec | src/weighing_service/scales/tenzo_m/utils.py:73-92 | the fields decode iff W0, W1 and W2 are packed BCD (otherwise `int(digits)` raises); the weight is then the six-digit number W2 W1 W0 over 10^(CON & 7), negative iff bit 7 of CON, stable iff bit 4, overload iff bit 3 |
| TenzoUtils.DecodeWeightFrameSpec | src/weighing_service/scales/tenzo_m/utils.py:43-95 | a frame is accepted iff it has at least 10 bytes, FF first and FF FF last, byte 7 equal to the checksum of bytes 1..6, and BCD weight bytes; the reading is then the weight, sign and flags read from bytes 3..6 |
| TenzoUtils.DecodeLongFrame | src/weighing_service/scales/tenzo_m/utils.py:55-70 | bytes between the CRC and the trailer do not affect decoding |
| TenzoUtils.CorruptedFrameRejected | src/weighing_service/scales/tenzo_m/utils.py:62-70 | changing any byte 1..7 of an accepted frame makes it rejected |
| TenzoUtils.BcdPair | src/weighing_service/scales/tenzo_m/utils.py:113-114 | a two-digit pair packs into one BCD byte worth the pair |
| TenzoUtils.BuildFrame | src/weighing_service/scales/tenzo_m/utils.py:98-135 | a frame is built iff the scaled weight is non-negative (a '-' in the `%06d` text makes `int()` raise), and it has ten bytes |
| TenzoUtils.ConFields | src/weighing_service/scales/tenzo_m/utils.py:121-124 | the CON byte carries the decimals, sign, stable and overload flags that the decoder reads back |
| TenzoUtils.BuildFrameDecodes | src/weighing_service/scales/tenzo_m/utils.py:98-135 | every built frame passes every check of the decoder and reads back the first six digits of the `%06d` text, the decimals and both flags |
| TenzoUtils.BuildFrameRoundTrip | src/weighing_service/scales/tenzo_m/utils.py:98-135 | a scaled weight of at most 999999 with 2 or 3 decimals decodes back to itself and its flags |
| TenzoUtils.BuildFrameTruncates | src/weighing_service/scales/tenzo_m/utils.py:111-118 | a seven-digit scaled weight decodes as that weight divided by ten: its last digit is lost |
| TensoM.RequestFrame | src/weighing_service/scales/tenso_m.py:8-15 | a request is FF Adr COP CRC FF FF, the CRC being the checksum of Adr and COP |
| TensoM.CrcMaker | src/weighing_service/scales/tenso_m.py:25-45 | the older copy of the checksum step computes the same byte as `_crc_step` |
| TensoM.CalculateCrcWithNull | src/weighing_service/scales/tenso_m.py:22-56 | the data then a zero byte give two uppercase hex digits worth the protocol checksum, the same as `_compute_crc(data, as_hex=True)` |
| TensoM.CommandsAreRequestFrames | src/weighing_service/scales/tenso_m.py:8-18 | each written-in command is the request frame for address 1 and its operation code, so its checksum byte is right |
| TensoM.GrossCrc | src/weighing_service/scales/tenso_m.py:16 | the gross-weight command's CRC byte E3 is the checksum |
| TensoM.NetCrc | src/weighing_service/scales/tenso_m.py:17 | the net-weight command's CRC byte 8A is the checksum |
| TensoM.TareCrc | src/weighing_service/scales/tenso_m.py:18 | the tare command's CRC byte 58 is the checksum |
| TensoM.DecodeUncheckedAgrees | src/weighing_service/scales/tenso_m.py:58-76 | on every frame the checked decoder accepts, the unchecked decoder gives the same reading |
| TensoM.DecodeUncheckedIgnoresCrc | src/weighing_service/scales/tenso_m.py:58-76 | a concrete frame with a wrong CRC byte, refused by the checked decoder, is read by the unchecked one |
| MtSics.StatusFlags | src/backend/device_controller/scales/mettler_toledo/utils.py:44-54 | a status letter gives flags iff it is S, D or I |
| MtSics.InterpretStatus | src/backend/device_controller/scales/mettler_toledo/utils.py:44-54 | once the line matches and its value reads as a number, S gives stable, D gives moving, I gives overload, and any other letter gives None |
| MtSics.MatchComplete | src/backend/device_controller/scales/mettler_toledo/utils.py:5-7 | every line of the documented layout (command of 1-3 capitals, blanks, a status capital, blanks, an optionally signed number, a unit of letters) matches, with those parts as its groups |
| MtSics.MatchSound | src/backend/device_controller/scales/mettler_toledo/utils.py:5-7 | conversely, every line the pattern matches has that layout and its groups are those parts |
| MtSics.BlankIsNone | src/backend/device_controller/scales/mettler_toledo/utils.py:28-34 | a line of nothing but whitespace gives None |
| MtSics.UnreadableValue | src/backend/device_controller/scales/mettler_toledo/utils.py:36-39 | a matched value that `float()` cannot read (once spaces are removed) gives None, whatever the status |
| MtSics.DecodeMatched | src/backend/device_controller/scales/mettler_toledo/utils.py:32-60 | a line that strips to a match decodes as its groups say |
| MtSics.SpacesRemoved | src/backend/device_controller/scales/mettler_toledo/utils.py:39 | spaces between the sign and the digits vanish with `replace(b" ", b"")`, leaving the sign followed by the digits |
| MtSics.DecodeLayout | src/backend/device_controller/scales/mettler_toledo/utils.py:28-60 | a line laid out as the pattern describes, whose value is a decimal's spelling with spaces after its sign, decodes to that decimal with its status flags, or to None for any status other than S, D, I |
| MtSics.FormatShape | src/backend/device_controller/scales/mettler_toledo/utils.py:5-7 | a decimal's unsigned spelling has the number shape the pattern accepts |
| MtSics.SignedReadsBack | src/backend/device_controller/scales/mettler_toledo/utils.py:39 | a sign in front of a decimal's unsigned spelling reads back as that decimal |
| MtSics.SampleLine | src/backend/device_controller/scales/mettler_toledo/utils.py:9-11 | the documented sample "S S      2.168 kg" reads 2.168, stable, no overload |
| MtSics.SpaceAfterSign | src/backend/device_controller/scales/mettler_toledo/utils.py:36-39 | "S S - 5 kg" reads -5, stable |
| MtSics.WsAfterSign | src/backend/device_controller/scales/mettler_toledo/utils.py:5-7 | whitespace other than spaces between the sign and the digits passes the pattern but survives the space removal, so `float()` refuses it and the line gives None |
| MtSics.TabAfterSign | src/backend/device_controller/scales/mettler_toledo/utils.py:36-39 | the line "S S -", a tab, "5 kg" gives None |
| MtSics.LeadingWsRefused | src/backend/device_controller/scales/mettler_toledo/utils.py:39 | after a sign, `float()` refuses a body that starts with whitespace |
| Digi.BlankStrips | src/backend/device_controller/scales/digi/utils.py:20-22 | a segment is blank iff it strips to "" |
| Digi.ReadSegment | src/backend/device_controller/scales/digi/utils.py:24-35 | a segment reads iff `float()` reads its stripped text; the reading is always stable and never overloaded |
| Digi.NonBlankEmpty | src/backend/device_controller/scales/digi/utils.py:20-22 | the comprehension keeps nothing iff every segment is blank |
| Digi.AllBlankIsNone | src/backend/device_controller/scales/digi/utils.py:24-25 | input whose every CR-separated segment is blank gives None |
| Digi.FirstDecides | src/backend/device_controller/scales/digi/utils.py:24-35 | the first non-blank segment decides the result; the rest is ignored |
| Digi.BlankSkipped | src/backend/device_controller/scales/digi/utils.py:20-22 | a blank leading segment is skipped |
| Digi.SingleSegment | src/backend/device_controller/scales/digi/utils.py:20-35 | text without a CR is one segment: None if blank, else that segment's reading |
| Digi.SampleStream | src/backend/device_controller/scales/digi/utils.py:7-8 | the documented sample `000.745 CR 000.000 CR LF` reads 0.745, stable, no overload |
| Digi.ReadDotted | src/backend/device_controller/scales/digi/utils.py:28-31 | digits, a dot and digits read as that decimal, stable |
| Digi.ReadParsed | src/backend/device_controller/scales/digi/utils.py:28-35 | a stripped text that `float()` reads gives that weight, stable |
| Weights.ParseUnsignedDigits | src/backend/device_controller/scales/digi/utils.py:29 | a non-empty run of digits reads as its decimal value |
| Weights.ParseUnsignedDotted | src/backend/device_controller/scales/digi/utils.py:29 | digits, a dot and digits read as the number they spell with one decimal place per fraction digit |
| Weights.ParseSigned | src/backend/device_controller/scales/mettler_toledo/utils.py:39 | before a sign-free body, a '-' negates the value and no sign leaves it non-negative |
| Weights.FormatUnsignedFacts | src/backend/device_controller/scales/mettler_toledo/utils.py:9-11 | a decimal's unsigned spelling starts and ends with a digit, holds only digits and at most one dot, and reads back as that decimal |
| Weights.ParseFormatDecimal | src/backend/device_controller/scales/mettler_toledo/utils.py:39 | reading back a decimal's spelling, sign included, gives the same decimal |
| Common.JoinSplit | src/device_controller/devices/printers/dpl/send_label.py:65 | splitting loses nothing: joining the pieces with the separator gives the text back |
| Common.SplitPiecesFree | src/backend/device_controller/scales/digi/utils.py:20 | no piece of `split` contains the separator |
| Common.StripSpec | src/backend/device_controller/scales/mettler_toledo/utils.py:28-30 | `strip()` cuts whitespace off both ends and nothing else, and leaves no whitespace at either end |
| Common.TextStripSpec | src/backend/labels/utils.py:102 | `str.strip()` cuts `str.isspace` whitespace (ASCII, U+001C..U+001F, NEL, no-break, Unicode and ideographic spaces) off both ends and nothing else |
| Common.TextStripBlank | src/backend/labels/utils.py:102 | `str.strip()` gives the empty text iff every character is `str.isspace` whitespace |
| Common.FindFrom | src/device_controller/devices/printers/dpl/send_label.py:46 | `find` returns -1 or a position at or after the start that holds the character |
| Common.FindFromSkips | src/device_controller/devices/printers/dpl/send_label.py:90-91 | `find` skips no occurrence: none lies between the start and the result (or the end, for -1) |
| Common.Without | src/backend/device_controller/scales/mettler_toledo/utils.py:39 | `replace(b" ", b"")` leaves no space |
| Common.HexPadFacts | src/weighing_service/scales/tenzo_m/utils.py:40 | `%0wX` has at least `w` uppercase hex digits that read back as the number |
| Common.HexPadExact | src/backend/device_controller/printers/dpl/upload_font.py:24 | a number below 16^w fills exactly `w` hex digits (the `08X` size field) |
| Common.DecPadExact | src/backend/device_controller/printers/dpl/upload_font.py:34 | a number below 10^w is exactly `w` decimal digits worth it (`%02d` of the font id) |
| Common.DecPadNat | src/weighing_service/scales/tenzo_m/utils.py:111 | `%0wd` of a non-negative number has at least `w` digits that read back as the number |
| Connections.GetStep | src/device_controller/core/connections.py:16-42 | a live entry is returned as is; otherwise the outcome of opening decides: its writer is stored and returned, or an error is returned and the key stays absent; other keys are untouched |
| Connections.CloseStep | src/device_controller/core/connections.py:44-52 | the key is removed, its writer is closed, other keys are untouched, and a missing key changes nothing |
| Connections.CloseAllStep | src/device_controller/core/connections.py:54-61 | the table is empty and every writer it held is closed |
| Connections.GetThenAvailable | src/device_controller/core/connections.py:11-42 | after `get` the endpoint is taken iff the `get` succeeded |
| Connections.GetTwice | src/device_controller/core/connections.py:22-26 | a second `get` of a key just opened returns the same writer and changes nothing |
| Connections.CloseIdempotent | src/device_controller/core/connections.py:44-52 | closing twice equals closing once, and the key is then free |
| Connections.CloseOthers | src/device_controller/core/connections.py:44-52 | closing one key leaves every other entry unchanged |
| Connections.CloseAllFrees | src/device_controller/core/connections.py:54-61 | after `close_all` every key is free and every held writer is closed |
| Connections.WritersOfAll | src/device_controller/core/connections.py:54-61 | the writers stored under all the keys are exactly the dictionary's values, which the `close_all` loop closes |
| Connections.ScaleConnectionsPool.constructor | src/device_controller/core/connections.py:9 | the pool starts empty |
| Connections.ScaleConnectionsPool.DeviceAvailable | src/device_controller/core/connections.py:11-14 | the answer is true iff the endpoint has no live connection |
| Connections.ScaleConnectionsPool.Get | src/device_controller/core/connections.py:16-42 | the new table and the result are those of `GetStep` |
| Connections.ScaleConnectionsPool.Close | src/weighing_service/core/connections.py:40-48 | the new table is that of `CloseStep` |
| Connections.ScaleConnectionsPool.CloseAll | src/weighing_service/core/connections.py:50-57 | the loop leaves the table of `CloseAllStep` |
| DeviceHandler.EveryCommandHasHandler | src/device_controller/core/handler.py:28-35 | `getattr` finds a handler for every validated command, so `command_not_found` is never reached |
| DeviceHandler.StreamFacts | src/device_controller/core/handler.py:80-87 | a busy device changes nothing; a free one gets a task named after its socket, becomes busy, and the client hears "exchange started" |
| DeviceHandler.GetOnceFacts | src/device_controller/core/handler.py:89-102 | `get` never registers a task; on a free device it sends started, the reading and stopped, closes the connection and closes the client |
| DeviceHandler.StopFacts | src/device_controller/core/handler.py:104-138 | a free device is untouched; a busy one loses its task and its connection and the client hears "exchange stopped"; stopping twice equals stopping once |
| DeviceHandler.StatusCheckedFacts | src/device_controller/core/handler.py:108-113 | with the check awaited, exactly one reply is sent, ok iff the device is free, "busy" iff it is not |
| DeviceHandler.StatusEndsSession | src/device_controller/core/handler.py:108-113 | as written, `status` sends no reply, free or busy device alike, because the un-awaited coroutine given as the reply's `ok` fails the `bool` field; registry and pool are unchanged and the client's websocket is closed |
| DeviceHandler.StatusStopsServing | src/device_controller/core/handler.py:140-158 | as written, no message after a valid `status` request is served and nothing is sent for it |
| DeviceHandler.DispatchRegisters | src/device_controller/core/handler.py:28-120 | only a stream command adds a registry entry, and only under its own socket; other entries are kept |
| DeviceHandler.InvalidNotDispatched | src/device_controller/core/handler.py:48-56 | an invalid message gets the validation error and dispatches nothing |
| DeviceHandler.ServeRegistersOnlyStreamed | src/device_controller/core/handler.py:140-156 | over a session, registry keys come only from valid stream requests |
| DeviceHandler.MessageKeepsTaskNames | src/device_controller/core/handler.py:115-120 | one message keeps every task named after its socket |
| DeviceHandler.ServeKeepsTaskNames | src/device_controller/core/handler.py:140-156 | a whole session keeps every task named after its socket |
| DeviceHandler.DisconnectKeepsTask | src/device_controller/core/handler.py:156-158 | as written, the `finally` cleanup frees nothing: a client that streams and disconnects still has its device registered when the cleanup is done |
| DeviceHandler.DisconnectIntendedFrees | src/device_controller/core/handler.py:140-158 | with the intended cleanup, the last requested device is free after the disconnect |
| DeviceHandler.WebsocketsHandler.constructor | src/device_controller/core/handler.py:13 | the registry, the replies and the closed clients start empty, over the given pool |
| DeviceHandler.WebsocketsHandler.SendMessage | src/device_controller/core/handler.py:37-46 | one reply is appended for the client |
| DeviceHandler.WebsocketsHandler.CommandNotFound | src/device_controller/core/handler.py:33-35 | the unknown-command error is sent |
| DeviceHandler.WebsocketsHandler.ValidateRequest | src/device_controller/core/handler.py:48-56 | the result is the validated request; on failure the error reply is sent and nothing else changes |
| DeviceHandler.WebsocketsHandler.IsDeviceAvailable | src/device_controller/core/handler.py:58-60 | true iff no task is registered for the socket |
| DeviceHandler.WebsocketsHandler.TaskCreation | src/device_controller/core/handler.py:115-120 | a task named after the socket is registered |
| DeviceHandler.WebsocketsHandler.StopExchange | src/device_controller/core/handler.py:135-138 | the device's connection is closed and the client is told |
| DeviceHandler.WebsocketsHandler.TaskCancellation | src/device_controller/core/handler.py:122-133 | with a registered request, its task is removed and the exchange stopped; otherwise nothing changes |
| DeviceHandler.WebsocketsHandler.Stream | src/device_controller/core/handler.py:80-87 | the new state is that of `StreamStep` |
| DeviceHandler.WebsocketsHandler.Get | src/device_controller/core/handler.py:89-102 | the new state is that of `GetOnceStep` |
| DeviceHandler.WebsocketsHandler.Stop | src/device_controller/core/handler.py:104-106 | the new state is that of `StopStep` |
| DeviceHandler.WebsocketsHandler.Status | src/device_controller/core/handler.py:108-113 | the new state is that of `StatusStep`: no reply, and the client's websocket closed |
| DeviceHandler.WebsocketsHandler.Dispatch | src/device_controller/core/handler.py:28-31 | the new state is that of `DispatchStep`, where a `status` command ends the session without a reply |
| DeviceHandler.WebsocketsHandler.MainHandler | src/device_controller/core/handler.py:140-158 | the message loop and its cleanup leave the state of `Disconnect`; the loop stops once the client's websocket is closed, after `get` or after the error a `status` request raises |
| WeighingHandler.ParseWeighCommand | src/weighing_service/core/validators.py:6-8 | a parsed command carries that name |
| WeighingHandler.ValidateWeigh | src/weighing_service/core/validators.py:10-14 | a request is valid iff the command and IP parse and the port is 1024..65535 |
| WeighingHandler.GetDriver | src/weighing_service/scales/drivers.py:4-11 | a driver is found iff the model is "tenzo_m" |
| WeighingHandler.LocksIgnorePort | src/weighing_service/core/handlers.py:56-88 | the port plays no part in a request's effect on the locks |
| WeighingHandler.OtherPortBusy | src/weighing_service/core/handlers.py:68-71 | a scale started through one port is busy through every other port of the same IP |
| WeighingHandler.StartFacts | src/weighing_service/core/handlers.py:59-76 | an unknown model is refused; a locked IP is refused as busy; otherwise the IP is locked by this client's poll task |
| WeighingHandler.StopFacts | src/weighing_service/core/handlers.py:79-88 | a locked IP is released and the client hears "exchange stopped"; an unlocked IP changes nothing; stopping twice equals stopping once |
| WeighingHandler.StopKeepsDriverConnection | src/weighing_service/core/handlers.py:86 | as written, `stop` leaves the scale's connection open |
| WeighingHandler.StopClosingFacts | src/weighing_service/core/handlers.py:79-88 | with the address text passed, `stop` frees and closes the connection, with the same locks and replies |
| WeighingHandler.InvalidSkipped | src/weighing_service/core/handlers.py:48-54 | an invalid message changes nothing but the reply |
| WeighingHandler.MessageLocks | src/weighing_service/core/handlers.py:56-88 | one message locks at most the IP of a valid start, and leaves the driver's table alone |
| WeighingHandler.ServeLocks | src/weighing_service/core/handlers.py:44-88 | over the loop, new locks come only from valid starts |
| WeighingHandler.CleanupFacts | src/weighing_service/core/handlers.py:93-104 | the cleanup releases the last-named IP and closes every driver connection |
| WeighingHandler.CleanupReleasesForeignLock | src/weighing_service/core/handlers.py:93-101 | a client refused as busy releases the other client's lock when it leaves |
| WeighingHandler.CleanupLeaksEarlierLock | src/weighing_service/core/handlers.py:93-101 | a client that starts two scales leaves the first one locked after it leaves |
| WeighingHandler.CleanupOwnedFacts | src/weighing_service/core/handlers.py:93-104 | the intended cleanup releases every lock of the client's tasks and keeps every other lock |
| WeighingHandler.WeighingServer.constructor | src/weighing_service/core/handlers.py:14 | the lock table and the replies start empty, over the given driver table |
| WeighingHandler.WeighingServer.SendMessage | src/weighing_service/core/handlers.py:30-36 | one reply is appended for the client |
| WeighingHandler.WeighingServer.Handler | src/weighing_service/core/handlers.py:38-104 | the message loop and the cleanup leave the state of `HandleClient` |

## Left out

- Sockets, websockets, asyncio tasks and their scheduling are not modelled.
  The poll loops and `run_exchange` are not modelled either. What an exchange
  with a device returns is a parameter, and so is whether a connection opens.
- JSON decoding of requests is not modelled. A message that lacks the `ip`
  key raises `KeyError` at src/device_controller/core/handler.py:56, and that
  path is not modelled.
- IP address parsing is not modelled: an address is taken as given, with its
  compressed text.
- Floating point is modelled as exact reals. Python `float()` accepts more
  spellings than the model does (exponents, `inf`, `nan`, underscores), and
  those extra inputs are treated as refused.
- UTF-8 decoding with `errors='replace'` at
  src/backend/device_controller/printers/dpl/dpl.py:38 is not modelled. The
  response is taken as already decoded.
- PIL image conversion, `Path.is_file` and `read_bytes` are not modelled. The
  file's existence and its bytes are parameters. Pathlib path normalisation
  is not modelled.
- `str.isdigit` on non-ASCII digits is not modelled: only ASCII digits count
  as digits.
- Labels.ReplaceMatch: `int()` of the length at src/backend/labels/utils.py:130
  also reads non-ASCII decimal digits (Arabic-Indic "٦٠" is 60). The model
  reads ASCII digits, with underscores, only, and treats such a length as
  malformed. The 4300-digit limit of `int()` in recent Python versions is not
  modelled either.
- Labels.BuildPrintCommand: inherits the `int()` gap of Labels.ReplaceMatch
  for lengths written in non-ASCII digits.
- Labels.Resolve: the attributes `hasattr` finds on a value are part of the
  value (`Members`), not derived from Python's types. Attributes that raise
  when read, other than by being absent, are not modelled.
- DeviceHandler.DisconnectKeepsTask: the streaming task's own exit is not
  modelled. When its next send to the closed websocket fails,
  `exchange_loop` (src/device_controller/core/handler.py:62-71) catches the
  closed connection and removes its own registry entry. The lemma is about
  the state right after the `finally` cleanup.
- Logging, timeouts and configuration loading are not modelled.
- Dpl.EncodeLoadImage: `_encode_load_image`
  (src/backend/device_controller/printers/dpl/dpl.py:32-34) hands the image
  bytes to a builder that expects a file path. The model therefore returns
  None for every input. The image stream is proved on the builder instead.
- The registry key of `SCALE_LOCKS` is the IP alone, so two scales at one IP
  on different ports exclude each other. The model keeps this behaviour
  (`WeighingHandler.OtherPortBusy`).
- The device and weighing pools are one class. The weighing service's own
  driver table (src/weighing_service/scales/tenzo_m/tenso_m.py:24-68) has
  the same get/close/close-all behaviour, so it is modelled by that same
  class.
- `stop_exchange` (src/device_controller/core/handler.py:135-138) is modelled
  as closing the pool connection of the device it names.
- The device controller's modules import names that do not exist. For
  example, src/device_controller/validators/request.py:6 imports
  `BaseDeviceClient`. The model assumes these imports resolve to the
  intended classes.
- The DIGI docstring (src/backend/device_controller/scales/digi/utils.py:15)
  says stable is False. The code sets it to True at line 34, and the model
  follows the code.
- TenzoUtils.BuildFrame: the simulator draws its weight at random. Here the
  weight is a parameter.
- TenzoUtils.BuildFrameTruncates: a scaled weight with more than six digits
  loses its trailing digits in the simulator's frame, because only the first
  six characters of the `%06d` text are packed. This is modelled as written
  and stated as a lemma, not as a finding, since the simulator only draws
  weights of 0 to 2 kg (src/weighing_service/simulator.py:10-11).

## Findings

| source | as written | input that shows it | evidently intended | confidence | as-written member | corrected member |
|---|---|---|---|---|---|---|
| src/device_controller/core/handler.py:110 | `is_device_available` is called without `await`, and the coroutine is passed as the reply's `ok`, a pydantic `bool` field (src/device_controller/validators/response.py:33). Building the reply raises a validation error that nothing catches, so no reply is sent and the connection ends | any valid `status` request, for a free or a busy device | await the check and reply "available" with ok true when the device is free, "busy" with ok false when a task is registered | high; not executed | DeviceHandler.StatusEndsSession | DeviceHandler.StatusCheckedFacts |
| src/device_controller/core/handler.py:158 | `task_cancellation` receives the device socket in place of the websocket and no request, so the `finally` cleanup frees nothing; the device is freed only when the streaming task itself fails to send | a client sends a valid `stream` request and disconnects | cancel the task of the client's last request and free the device | high; not executed | DeviceHandler.DisconnectKeepsTask | DeviceHandler.DisconnectIntendedFrees |
| src/weighing_service/core/handlers.py:86 | `close_connection` receives the IP address object while the driver's table is keyed by its text, so no connection is closed | `start` then `stop` on one scale | close the scale's connection on `stop` | medium; not executed | WeighingHandler.StopKeepsDriverConnection | WeighingHandler.StopClosingFacts |
| src/weighing_service/core/handlers.py:93-101 | the cleanup pops whatever lock the last-named IP has, whoever holds it, and only that one | client B's `start` is refused as busy on A's scale, then B disconnects: A's lock is gone; or one client starts two scales: the first stays locked | release exactly the locks held by this client's own tasks | high; not executed | WeighingHandler.CleanupReleasesForeignLock | WeighingHandler.CleanupOwnedFacts |
