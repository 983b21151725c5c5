# BleCat secure DFU upload, modelled in Dafny

BleCat is a Xamarin app for Bluetooth Low Energy devices. Its main page view
model (`MainPageViewModel`) can push a firmware image to a Nordic device in
secure DFU mode. This project models the heart of that upload:

- **Starting an upload** (`StartDFU`). The selected device's service ids are
  searched for one whose lower-cased text starts with `0000fe59`. If one is
  found, a progress dialog at 0 % is created, the `runDat` and `runBin` flags
  are cleared, and `[06 01]` (select init command object) is written to the
  control point.
- **The control-point notification handler** (`DFUNotifyHandel`). Its first
  three bytes decide what happens:
  - The first `60 06 01` (`runDat` clear) sends the init packet `dat`.
  - The first notification that is exactly `60 04 01` (`runBin` clear), the
    peer's reply that the init object was executed, writes `[06 02]` (select
    data object) and sets the dialog to 100 %.
  - Any later `60 06 01`, the reply to that select, sends the image `bin`. Its
    progress values then replace the 100 %.
  - The handler does not check that the replies come in this order.
  - A notification shorter than three bytes, or a missing `dat` or `bin` buffer,
    makes the handler throw. The handler swallows the exception and keeps what
    it has already done.
- **The init upload.** A create frame, then the init bytes in 20-byte packet
  writes, then `[03]` (calculate checksum) and `[04]` (execute).
- **The image upload.** The image goes in objects of at most 4096 bytes. Each
  object is:
  - a create frame;
  - its bytes in 20-byte packet writes, each followed by a progress update of
    `(int)(offset * 100 / totalLength)`, where `offset` is where the object
    starts in the image;
  - `[03]` and `[04]`.
- **Choosing the firmware** (`PickFiles` and `GetFirmwareDetailFileAsync`):
  - a file whose name ends in `.bin` (case-sensitive) becomes the image;
  - any other file is read as a zip archive, whose `.bin` and `.dat` entries
    (case-insensitive) become the image and the init packet.
- **The hex dump** written to the debug log for each notification.
- **The de-duplicated device list** filled while scanning.

The model follows the code as it is written. Two points read differently from
the protocol's intent:

- **Create frames.** The code builds each create frame and then calls
  `imageSizeBuffer.ToList().AddRange(BitConverter.GetBytes(...))`. That appends
  the size to a fresh list, not to the array that is written. So the init
  object's create frame is `[01 01]` and a short image object's is `[01 02]`,
  both without the size. Only a full 4096-byte object gets the literal frame
  `[01 02 00 10 00 00]`.
- **Progress.** `offset * 100` is C# `int` arithmetic, where `offset` is an
  object start, a multiple of 4096. It can wrap only for images larger than
  21475328 bytes (5243 objects). The sign of the wrapped value then
  changes every 2^31 of the true product: negative for products in
  [2^31, 2^32), positive in [2^32, 3 * 2^31), negative in [3 * 2^31, 2^33),
  and so on. The model makes the
  wrap explicit (`Wrap32`, `TruncDiv`). The range lemmas assume images of at
  most 21474836 bytes, a simpler bound that is sufficient but not tight.

Module layout:

- `Wrappers`: `Option`.
- `Chunking`: slicing a buffer the way the source's `while (offset < totalLength)`
  loops do.
- `DfuProtocol`: the frames, the notification classification, and the writes
  each upload produces, as functions.
- `UploadShape`: lemmas about those writes and about the progress values.
- `Text`: ASCII case folding, prefix and suffix tests, and the hex dump.
- `DfuSession`: the handler's state as a value, with `Start`, `Step` and `Run`
  transition functions.
- `Firmware`: the firmware dictionary a picked file yields.
- `MainPage`: the view model as a class. Its methods update its fields in place
  and are proved against `DfuSession` and `DfuProtocol`.

## Model

| member | source | states |
|---|---|---|
| Chunking.SliceLength | BleCat/BleCat/BleCat/ViewModels/MainPageViewModel.cs:372 | `Math.Min(totalLength - offset, size)` is positive, at most `size`, stays inside the buffer, and is short only at the buffer's end |
| Chunking.Chunks | BleCat/BleCat/BleCat/ViewModels/MainPageViewModel.cs:369-388 | the chunking loop cuts no slice exactly when it starts at the end of the buffer; what the slices are is stated by ChunksRebuild, ChunksBounded and ChunksCount |
| Chunking.FlattenAppend | BleCat/BleCat/BleCat/ViewModels/MainPageViewModel.cs:369-388 | proof helper: concatenating two runs of slices concatenates their bytes |
| Chunking.ChunksRebuild | BleCat/BleCat/BleCat/ViewModels/MainPageViewModel.cs:369-388 | the slices the chunking loop cuts, concatenated, are exactly the buffer from the start offset on |
| Chunking.ChunksBounded | BleCat/BleCat/BleCat/ViewModels/MainPageViewModel.cs:369-388 | every slice is non-empty and at most the chunk size; all but the last are exactly the chunk size |
| Chunking.ChunksCount | BleCat/BleCat/BleCat/ViewModels/MainPageViewModel.cs:369-388 | the number of slices is the least `k` with `k * size >= length`, i.e. the ceiling of length / size |
| DfuProtocol.LittleEndian32 | BleCat/BleCat/BleCat/ViewModels/MainPageViewModel.cs:357 | `BitConverter.GetBytes(int)` yields four bytes, least significant first, that read back as the value for any 32-bit value |
| DfuProtocol.CreateDataFrame | BleCat/BleCat/BleCat/ViewModels/MainPageViewModel.cs:414-424 | an image object's create frame starts `01 02`; for a full 4096-byte object its tail is the little-endian encoding of 4096, otherwise it is just `[01 02]` (the size is appended to a copy) |
| DfuProtocol.Classify | BleCat/BleCat/BleCat/ViewModels/MainPageViewModel.cs:347-473 | a notification is malformed iff shorter than 3 bytes, selects the next object iff it starts `60 06 01`, and triggers the select-data step iff it is exactly `60 04 01` |
| DfuProtocol.Wrap32 | BleCat/BleCat/BleCat/ViewModels/MainPageViewModel.cs:447 | C# `int` multiplication lands in the 32-bit range, differs from the true product by a multiple of 2^32, and leaves in-range values unchanged |
| DfuProtocol.Repeat | BleCat/BleCat/BleCat/ViewModels/MainPageViewModel.cs:445-450 | one progress value per link chunk of an object, all equal |
| DfuProtocol.TruncDiv | BleCat/BleCat/BleCat/ViewModels/MainPageViewModel.cs:447 | C# `/` on `int` truncates toward zero: for a non-negative dividend the largest `r` with `r * b <= a`, for a negative one the smallest `r` with `a <= r * b` |
| DfuProtocol.Percent | BleCat/BleCat/BleCat/ViewModels/MainPageViewModel.cs:447 | `(int)(offset * 100 / totalLength)` is the mathematical quotient whenever the product fits a C# `int` |
| DfuProtocol.InitWrites | BleCat/BleCat/BleCat/ViewModels/MainPageViewModel.cs:356-395 | the init branch writes its create frame `[01 01]` first and checksum, execute last, with one packet write per link chunk between (the full shape is `UploadShape.InitUploadShape`) |
| DfuProtocol.ObjectWrites | BleCat/BleCat/BleCat/ViewModels/MainPageViewModel.cs:407-466 | one image object writes its create frame first and checksum, execute last, with one packet write per link chunk between |
| DfuProtocol.PacketWrites | BleCat/BleCat/BleCat/ViewModels/MainPageViewModel.cs:383 | one packet write per link chunk; that each carries its chunk, in order, is UploadShape.PacketWritesViews |
| DfuProtocol.LinkWrites | BleCat/BleCat/BleCat/ViewModels/MainPageViewModel.cs:428-454 | a buffer goes as ceil(\|buf\|/20) packet writes: the least `k` with `20k >= \|buf\|` |
| DfuProtocol.Objects | BleCat/BleCat/BleCat/ViewModels/MainPageViewModel.cs:405-410 | an image is cut into no objects exactly when it is empty |
| DfuProtocol.ObjectsWrites | BleCat/BleCat/BleCat/ViewModels/MainPageViewModel.cs:405-467 | the objects produce no writes exactly when there are none; their command triples are UploadShape.ObjectCommandsAt |
| DfuProtocol.ImageWrites | BleCat/BleCat/BleCat/ViewModels/MainPageViewModel.cs:400-467 | the image branch writes nothing exactly for an empty image, and otherwise starts with the first object's create frame (the full shape is `UploadShape.ImageUploadShape`) |
| DfuProtocol.ObjectProgress | BleCat/BleCat/BleCat/ViewModels/MainPageViewModel.cs:445-450 | an object reports one value per link chunk, ceil(\|obj\|/20) of them, each the percentage of the object's start |
| DfuProtocol.ProgressFrom | BleCat/BleCat/BleCat/ViewModels/MainPageViewModel.cs:405-457 | from an object start inside the image the first value reported is that start's percentage; from the image's end nothing is reported |
| DfuProtocol.ImageProgress | BleCat/BleCat/BleCat/ViewModels/MainPageViewModel.cs:405-457 | a non-empty image first reports 0; an empty one reports nothing |
| UploadShape.ControlFramesAppend | BleCat/BleCat/BleCat/ViewModels/MainPageViewModel.cs:360-395 | proof helper: the control-point frames of two logs in turn are those of the first, then those of the second |
| UploadShape.PacketPayloadsAppend | BleCat/BleCat/BleCat/ViewModels/MainPageViewModel.cs:383-445 | proof helper: the packet writes of two logs in turn are those of the first, then those of the second |
| UploadShape.CountAppend | BleCat/BleCat/BleCat/ViewModels/MainPageViewModel.cs:360-481 | proof helper: counting a frame in two runs of frames adds the counts |
| UploadShape.PacketWritesViews | BleCat/BleCat/BleCat/ViewModels/MainPageViewModel.cs:383-445 | chunk writes go only to the packet characteristic, one per chunk in order |
| UploadShape.ObjectViews | BleCat/BleCat/BleCat/ViewModels/MainPageViewModel.cs:360-395 | an object upload puts exactly create, checksum, execute on the control point and exactly its link chunks on the packet characteristic |
| UploadShape.InitUploadShape | BleCat/BleCat/BleCat/ViewModels/MainPageViewModel.cs:356-395 | the init upload writes exactly `[01 01]`, `[03]`, `[04]` to the control point, and packet writes of at most 20 bytes (all but the last exactly 20, ceil(\|dat\|/20) of them) that concatenate back to `dat` |
| UploadShape.ObjectCommands | BleCat/BleCat/BleCat/ViewModels/MainPageViewModel.cs:414-464 | three control-point commands per image object |
| UploadShape.ObjectsWritesViews | BleCat/BleCat/BleCat/ViewModels/MainPageViewModel.cs:405-467 | the objects' writes put exactly their command triples on the control point and their link chunks on the packet characteristic |
| UploadShape.ObjectLinkChunksRebuild | BleCat/BleCat/BleCat/ViewModels/MainPageViewModel.cs:428-454 | the link chunks of all objects concatenate to the objects' bytes |
| UploadShape.ObjectLinkChunksBounded | BleCat/BleCat/BleCat/ViewModels/MainPageViewModel.cs:434 | every link chunk of every object is 1 to 20 bytes |
| UploadShape.ImageUploadShape | BleCat/BleCat/BleCat/ViewModels/MainPageViewModel.cs:400-467 | the image objects are consecutive slices of at most 4096 bytes, all but the last full, ceil(\|bin\|/4096) of them, and they rebuild `bin`; the control point gets three commands per object; packet writes are at most 20 bytes and rebuild `bin`; an empty image writes nothing |
| UploadShape.ObjectCommandsAt | BleCat/BleCat/BleCat/ViewModels/MainPageViewModel.cs:414-464 | the i-th command triple is create, checksum, execute for the i-th object, created with `[01 02 00 10 00 00]` when full and `[01 02]` otherwise |
| UploadShape.TwoObjectImage | BleCat/BleCat/BleCat/ViewModels/MainPageViewModel.cs:405-424 | a 5000-byte image goes as objects `bin[..4096]` and `bin[4096..]`, created with the full frame and then the short one |
| UploadShape.OneFullObjectImage | BleCat/BleCat/BleCat/ViewModels/MainPageViewModel.cs:405-454 | a 4096-byte image is one full object sent in 205 link chunks |
| UploadShape.CountTriple | BleCat/BleCat/BleCat/ViewModels/MainPageViewModel.cs:391-395 | proof helper: counting a frame in a three-command sequence |
| UploadShape.ObjectCommandsCount | BleCat/BleCat/BleCat/ViewModels/MainPageViewModel.cs:414-464 | the image upload never writes `[01 01]` or `[06 02]` |
| UploadShape.UploadCommandCounts | BleCat/BleCat/BleCat/ViewModels/MainPageViewModel.cs:356-467 | the init upload writes `[01 01]` once and `[06 02]` never; the image upload writes neither |
| UploadShape.MulMonotone | BleCat/BleCat/BleCat/ViewModels/MainPageViewModel.cs:447 | proof helper: multiplying by a non-negative factor keeps order |
| UploadShape.DivMonotone | BleCat/BleCat/BleCat/ViewModels/MainPageViewModel.cs:447 | proof helper: integer division by a positive total keeps order |
| UploadShape.DivBelow | BleCat/BleCat/BleCat/ViewModels/MainPageViewModel.cs:447 | proof helper: `x < k * t` gives `x / t < k` |
| UploadShape.PercentInRange | BleCat/BleCat/BleCat/ViewModels/MainPageViewModel.cs:447 | for an image of at most 21474836 bytes the wrapped, truncated percentage is the mathematical `offset * 100 / total`, within [0, 100) |
| UploadShape.PercentMonotone | BleCat/BleCat/BleCat/ViewModels/MainPageViewModel.cs:447 | a later object start never reports a smaller percentage |
| UploadShape.ProgressFromBounds | BleCat/BleCat/BleCat/ViewModels/MainPageViewModel.cs:405-457 | every value reported from object start `from` on is between `Percent(from)` and 99 |
| UploadShape.SortedAfterRun | BleCat/BleCat/BleCat/ViewModels/MainPageViewModel.cs:445-450 | a run of one object's equal values followed by larger sorted values is sorted |
| UploadShape.ProgressFromSorted | BleCat/BleCat/BleCat/ViewModels/MainPageViewModel.cs:405-457 | the reported progress values never decrease |
| UploadShape.ImageProgressFacts | BleCat/BleCat/BleCat/ViewModels/MainPageViewModel.cs:405-457 | the image upload reports values in [0, 99], never decreasing and starting at 0, and reports none exactly when the image is empty |
| UploadShape.PercentOverflow | BleCat/BleCat/BleCat/ViewModels/MainPageViewModel.cs:447 | past the bound the product wraps: the last object of a 21475328-byte image still reports 99, object start 24576000 of a 30000000-byte image reports -61, object start 45056000 of a 50000000-byte image reports 4, and object start 70000640 of an 80000000-byte image reports -19: the sign alternates every 2^31 of the true product |
| Text.ToLower | BleCat/BleCat/BleCat/ViewModels/MainPageViewModel.cs:304 | lower-casing keeps the length and folds each character |
| Text.StartsWith | BleCat/BleCat/BleCat/ViewModels/MainPageViewModel.cs:304 | `StartsWith(p)` holds iff the string is at least as long as `p` and agrees with it character by character at the front |
| Text.EndsWith | BleCat/BleCat/BleCat/ViewModels/MainPageViewModel.cs:178 | the ordinal `EndsWith(x)` holds iff the string is at least as long as `x` and agrees with it character by character at the end |
| Text.EndsWithIgnoreCase | BleCat/BleCat/BleCat/ViewModels/MainPageViewModel.cs:219-226 | `EndsWith(x, OrdinalIgnoreCase)` holds iff the string is at least as long as `x` and its last characters agree with `x` character by character after lower-casing |
| Text.HexDigit | BleCat/BleCat/BleCat/ViewModels/MainPageViewModel.cs:143 | a digit of `ToString("X2")` is an upper-case hex digit that reads back as its value |
| Text.HexByte | BleCat/BleCat/BleCat/ViewModels/MainPageViewModel.cs:143 | `0x{b:X2}` is four characters, `0x` then two upper-case hex digits that read back as `b` (high digit first) |
| Text.Listing | BleCat/BleCat/BleCat/ViewModels/MainPageViewModel.cs:141-144 | the dump loop's text has byte i's `0xHH,` at position 5i, 5n characters in all |
| Text.TrimEnd | BleCat/BleCat/BleCat/ViewModels/MainPageViewModel.cs:145 | `TrimEnd(c)` returns a prefix that does not end in `c`, and everything it dropped is `c` |
| Text.ListingIsJoinedWithComma | BleCat/BleCat/BleCat/ViewModels/MainPageViewModel.cs:141-144 | the dump loop's text is the comma-joined bytes plus one trailing comma |
| Text.JoinedEnd | BleCat/BleCat/BleCat/ViewModels/MainPageViewModel.cs:145 | the joined dump is empty only for no bytes and never ends in a comma |
| Text.TrimmedListing | BleCat/BleCat/BleCat/ViewModels/MainPageViewModel.cs:141-145 | trimming the loop's trailing commas gives exactly the comma-joined bytes |
| Text.Joined | BleCat/BleCat/BleCat/ViewModels/MainPageViewModel.cs:145 | `string.Join(",", ...)` of the bytes: byte i is the field at 5i, fields separated by single commas, 5n - 1 characters (0 for none) |
| Text.HexDump | BleCat/BleCat/BleCat/ViewModels/MainPageViewModel.cs:139-145 | the dump loop followed by `TrimEnd(',')` returns the bytes as `0xHH` joined by commas, 5n - 1 characters long |
| DfuSession.ReportedAppend | BleCat/BleCat/BleCat/ViewModels/MainPageViewModel.cs:447-450 | proof helper: assigning one run of progress values and then another leaves the dialog and the record as assigning both at once |
| DfuSession.IsSecureDfuService | BleCat/BleCat/BleCat/ViewModels/MainPageViewModel.cs:304 | a service id is the DFU service iff it has at least 8 characters whose lower-case forms are `0000fe59` |
| DfuSession.HasSecureDfuService | BleCat/BleCat/BleCat/ViewModels/MainPageViewModel.cs:300-309 | the device is in DFU mode iff one of its service ids is the DFU service |
| DfuSession.Reported | BleCat/BleCat/BleCat/ViewModels/MainPageViewModel.cs:447-450 | without a dialog nothing is shown; with one, after a non-empty run of assignments it shows the last value assigned; with none it is unchanged |
| DfuSession.Recorded | BleCat/BleCat/BleCat/ViewModels/MainPageViewModel.cs:447-450 | the record only grows; with a dialog exactly the values are appended, without one nothing is |
| DfuSession.Start | BleCat/BleCat/BleCat/ViewModels/MainPageViewModel.cs:296-337 | in DFU mode the dialog starts at 0, both flags are cleared and exactly `[06 01]` is written; without a DFU service nothing changes; no value is recorded either way |
| DfuSession.Step | BleCat/BleCat/BleCat/ViewModels/MainPageViewModel.cs:340-497 | one notification only appends to the log and to the recorded values, never clears a flag, records nothing while there is no dialog, changes the dialog only when it records values, and then leaves it at the last one; what each guarded branch does is stated by the lemmas below |
| DfuSession.Run | BleCat/BleCat/BleCat/ViewModels/MainPageViewModel.cs:340-497 | the same guarantees hold over any sequence of notifications |
| DfuSession.RunFlags | BleCat/BleCat/BleCat/ViewModels/MainPageViewModel.cs:350-477 | the handler never clears a flag: after any notifications `runDat` is set iff it was set or one of them started `60 06 01`, and `runBin` iff it was set or one was exactly `60 04 01` |
| DfuSession.IgnoredNotifications | BleCat/BleCat/BleCat/ViewModels/MainPageViewModel.cs:347-496 | notifications that are too short or carry another header change nothing |
| DfuSession.InitUploadRunsOnce | BleCat/BleCat/BleCat/ViewModels/MainPageViewModel.cs:352-360 | over any notifications the init object is created once if `runDat` was clear, the init buffer exists and some notification started `60 06 01`, and never otherwise |
| DfuSession.SelectDataRunsOnce | BleCat/BleCat/BleCat/ViewModels/MainPageViewModel.cs:473-481 | over any notifications the select-data command `[06 02]` is written once if `runBin` was clear and some notification was exactly `60 04 01`, and never otherwise |
| DfuSession.RepeatedExecuteIgnored | BleCat/BleCat/BleCat/ViewModels/MainPageViewModel.cs:475 | once `runBin` is set, an exact `60 04 01` reply changes nothing |
| DfuSession.RepeatedExecutesIgnored | BleCat/BleCat/BleCat/ViewModels/MainPageViewModel.cs:473-491 | once `runBin` is set, any number of exact `60 04 01` replies change nothing |
| DfuSession.MissingInitPacket | BleCat/BleCat/BleCat/ViewModels/MainPageViewModel.cs:350-357 | the first `60 06 01` without an init buffer sets `runDat` and writes nothing: the lookup throws before the create frame |
| DfuSession.MissingImage | BleCat/BleCat/BleCat/ViewModels/MainPageViewModel.cs:398-400 | once `runDat` is set, a `60 06 01` without an image buffer changes nothing: the lookup throws before any write |
| DfuSession.FirstSelectSendsInit | BleCat/BleCat/BleCat/ViewModels/MainPageViewModel.cs:350-395 | the first `60 06 01` with an init buffer sets `runDat`, appends exactly the init upload, and leaves the dialog alone |
| DfuSession.FirstExecuteSelectsData | BleCat/BleCat/BleCat/ViewModels/MainPageViewModel.cs:473-485 | the first exact `60 04 01` sets `runBin`, appends `[06 02]`, and sets an existing dialog to 100 |
| DfuSession.LaterSelectSendsImage | BleCat/BleCat/BleCat/ViewModels/MainPageViewModel.cs:398-467 | once `runDat` is set, a `60 06 01` with an image appends exactly `ImageWrites(bin)`, keeps both flags, and reports `ImageProgress(bin)` |
| DfuSession.StepCounts | BleCat/BleCat/BleCat/ViewModels/MainPageViewModel.cs:350-491 | what one notification adds to the counts of `[01 01]` and `[06 02]` |
| DfuSession.RunKeepsPercentsInRange | BleCat/BleCat/BleCat/ViewModels/MainPageViewModel.cs:447-485 | for images of at most 21474836 bytes, every value the dialog is given stays within [0, 100] |
| DfuSession.RunThree | BleCat/BleCat/BleCat/ViewModels/MainPageViewModel.cs:340-497 | proof helper: three notifications are handled one after the other |
| DfuSession.ProtocolOrderUpload | BleCat/BleCat/BleCat/ViewModels/MainPageViewModel.cs:296-497 | a start in DFU mode followed by the replies in protocol order, `60 06 01`, `60 04 01`, `60 06 01`, writes select-init, the init upload, select-data and the image upload in that order, sets both flags, records 100 then the image's progress values, and leaves the dialog below 100 for a non-empty image within the overflow bound |
| DfuSession.SecondSelectBeforeExecute | BleCat/BleCat/BleCat/ViewModels/MainPageViewModel.cs:296-497 | with `60 06 01`, `60 06 01`, `60 04 01` the handler, which does not check the order, sends the init object, then the image, then select-data, and leaves the dialog at 100 |
| Firmware.EntryKey | BleCat/BleCat/BleCat/ViewModels/MainPageViewModel.cs:219-231 | an archive entry is stored under one of the two keys `bin` or `dat`, or skipped; which one is stated by `EntryKeyMatches` |
| Firmware.EntryKeyMatches | BleCat/BleCat/BleCat/ViewModels/MainPageViewModel.cs:219-231 | an archive entry is stored under `bin` iff its last four characters lower-case to `.bin`, under `dat` iff they lower-case to `.dat`, and skipped iff it passes neither case-insensitive suffix test |
| Firmware.SuffixFolded | BleCat/BleCat/BleCat/ViewModels/MainPageViewModel.cs:219 | a case-insensitive suffix test against an already lower-case suffix holds iff the name's tail of that length lower-cases to the suffix |
| Firmware.ArchiveFilesFrom | BleCat/BleCat/BleCat/ViewModels/MainPageViewModel.cs:217-233 | the entry loop keeps every key of the dictionary it is given and adds keys only `bin` and `dat` |
| Firmware.ArchiveFiles | BleCat/BleCat/BleCat/ViewModels/MainPageViewModel.cs:210-241 | an archive yields at most the keys `bin` and `dat` |
| Firmware.FirmwareFiles | BleCat/BleCat/BleCat/ViewModels/MainPageViewModel.cs:166-196 | a picked file yields at most `bin` and `dat`; a name ending in `.bin` yields its own bytes as the image; an init packet comes only from a readable archive |
| Firmware.ReadArchive | BleCat/BleCat/BleCat/ViewModels/MainPageViewModel.cs:210-241 | the entry loop returns the dictionary `ArchiveFiles` describes, with keys only `bin` and `dat` |
| Firmware.ArchiveKeys | BleCat/BleCat/BleCat/ViewModels/MainPageViewModel.cs:224-231 | only the keys `bin` and `dat` are ever stored |
| Firmware.LastMatchExists | BleCat/BleCat/BleCat/ViewModels/MainPageViewModel.cs:217-233 | a key some entry matches has a last matching entry |
| Firmware.ArchiveLastMatchWins | BleCat/BleCat/BleCat/ViewModels/MainPageViewModel.cs:217-233 | with every matching entry readable, a key is in the dictionary iff some entry matches it, and then holds the bytes of the last such entry |
| Firmware.ArchiveStopsAtUnreadable | BleCat/BleCat/BleCat/ViewModels/MainPageViewModel.cs:212-241 | an entry that throws while being read ends the loop: the result is what the entries before it give |
| Firmware.SuffixCaseSensitivity | BleCat/BleCat/BleCat/ViewModels/MainPageViewModel.cs:178-226 | for any spelling of `.bin` and `.dat` in any letter case, an archive entry with that suffix is stored as the image or the init packet (case-insensitive test), while a picked name ending in a spelling other than `.bin` is not an image (case-sensitive test) |
| MainPage.FindSecureDfuService | BleCat/BleCat/BleCat/ViewModels/MainPageViewModel.cs:300-309 | the service scan reports DFU mode iff some service id, lower-cased, starts with `0000fe59` |
| MainPage.MainPageViewModel.constructor | BleCat/BleCat/BleCat/ViewModels/MainPageViewModel.cs:35-40 | a new view model has no firmware, no devices, no dialog, both flags clear and nothing written |
| MainPage.MainPageViewModel.DiscoverPeripheral | BleCat/BleCat/BleCat/ViewModels/MainPageViewModel.cs:107-116 | a discovered device is appended iff it has a non-empty name and is not listed yet, so the list stays free of duplicates |
| MainPage.MainPageViewModel.PickFiles | BleCat/BleCat/BleCat/ViewModels/MainPageViewModel.cs:166-196 | cancelling keeps the firmware; otherwise the firmware becomes what the picked file yields (`FirmwareFiles`) |
| MainPage.MainPageViewModel.StartDfu | BleCat/BleCat/BleCat/ViewModels/MainPageViewModel.cs:296-337 | the new state is `Start` of the old one: with a selected device in DFU mode, dialog at 0, both flags cleared and `[06 01]` written; otherwise nothing changes |
| MainPage.MainPageViewModel.HandleNotify | BleCat/BleCat/BleCat/ViewModels/MainPageViewModel.cs:340-497 | the new state is `Step` of the old one for the notification and the current firmware |
| MainPage.MainPageViewModel.SendInit | BleCat/BleCat/BleCat/ViewModels/MainPageViewModel.cs:356-395 | the init branch appends exactly `InitWrites(dat)` to the log |
| MainPage.MainPageViewModel.SendObject | BleCat/BleCat/BleCat/ViewModels/MainPageViewModel.cs:407-466 | one loop turn appends exactly the object's writes, and gives the dialog one percentage of the object's start per link chunk |
| MainPage.MainPageViewModel.SetProgress | BleCat/BleCat/BleCat/ViewModels/MainPageViewModel.cs:449-450 | assigning a value to an open dialog shows it and records it; without a dialog nothing changes |
| MainPage.MainPageViewModel.SendObjectData | BleCat/BleCat/BleCat/ViewModels/MainPageViewModel.cs:428-454 | the inner loop writes the packet writes of the object's 20-byte link chunks, in order, and reports the object's start percentage once per chunk |
| MainPage.MainPageViewModel.SendImage | BleCat/BleCat/BleCat/ViewModels/MainPageViewModel.cs:400-467 | the image branch appends exactly `ImageWrites(bin)` and gives the dialog the values `ImageProgress(bin)` in order, ending at the last of them |
| MainPage.LinkStep | BleCat/BleCat/BleCat/ViewModels/MainPageViewModel.cs:372-386 | proof helper: one turn of a 20-byte chunking loop writes the next chunk, and one chunk fewer is left |
| MainPage.ObjectStep | BleCat/BleCat/BleCat/ViewModels/MainPageViewModel.cs:408-457 | proof helper: one turn of the image loop writes the next object and reports its progress values, leaving the rest for later turns |
| MainPage.RepeatSnoc | BleCat/BleCat/BleCat/ViewModels/MainPageViewModel.cs:449-450 | proof helper: one more progress update appends one more equal value |

## Left out

- Bluetooth I/O. Each `WriteAsync` is an entry in the `log` of writes, and every write is taken to succeed. A write that fails mid-upload is not modelled.
- Service and characteristic lookups, `StartUpdatesAsync` and the UUID constants are not modelled.
- The `Task.Delay` pauses are not modelled.
- Re-entrancy of the `async void` handler is not modelled. Notifications are handled one at a time, each to completion.
- `StartDFU` subscribes a new handler on every call. The model has a single handler, so the repeated handling after a second start is not modelled.
- The progress dialog's UI is reduced to its `PercentComplete` value (`dialog`). `Hide` and the loading indicators are not modelled. Every value assigned is recorded in the ghost field `percents`; the app keeps only the latest.
- Debug output is not modelled, except for the notification hex dump, which is modelled as `Text.HexDump`.
- Scanning, connecting and disconnecting (`ScanBluetooth`, `ConnectBluetooth`, `DisconnectBluetooth`, `ScanDFU`, `ConnectDFU`), and the list clearing in `ScanBluetooth`, are not modelled. Devices compare by value (`Device`).
- `SwitchDFU` writes to a vendor characteristic outside the secure DFU flow and is not modelled.
- App.xaml.cs is not part of this model.
- The file picker and zip decompression are not modelled. A picked file arrives as its name, its bytes, and its entries, or `None` when the archive cannot be opened. Each entry's bytes are `None` when reading it throws.
- `GetFirmwareDetailFileAsync` returns `null` for a null stream. The picker always supplies a stream, so this case is not modelled.
- The `totalLength` field that `PickFiles` sets is not modelled. The handler never reads it, since it uses a local of the same name.
- Text.ToLower: folds only ASCII letters, not the culture-sensitive `ToLower` of all of Unicode. Service ids are hexadecimal text, so nothing else occurs.
- Firmware.EntryKey: folds only ASCII letters for `OrdinalIgnoreCase`. The culture-sensitive `EndsWith(".bin")` on the picked name is compared ordinally.
- UploadShape.PercentInRange, UploadShape.PercentMonotone, UploadShape.ProgressFromBounds, UploadShape.ProgressFromSorted, UploadShape.ImageProgressFacts and DfuSession.RunKeepsPercentsInRange: require an image of at most 21474836 bytes, where `offset * 100` cannot overflow. The wrap-around above that bound is modelled (see UploadShape.PercentOverflow) but not bounded.
- DfuSession.ProtocolOrderUpload: states the dialog bound for images within the same 21474836-byte limit only.
- Entry sizes and stream reads are not modelled. A `.bin` entry's buffer is sized by the entry's `Length` and a `.dat` entry's by its stream's `Length`, and `Stream.Read`'s count is ignored. An entry's content is simply the bytes stored for it. A short read, which does not throw, is an entry whose content is the zero-padded buffer. The loop goes on after it. Content `None` stands only for the failures that throw: `entry.Open`, or `Length` on a stream that does not support it. Those end the loop (`ArchiveStopsAtUnreadable`).
