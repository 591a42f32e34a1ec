# Triggered RAW capture: a Dafny model

This project models the deterministic core of a camera capture pipeline in three languages:

- **The capture script** (`src/python/raw.py`). Two bounded deques hold the last 240 frames and their timestamps. A loop keeps buffering frames and takes a snapshot every 30 s until a trigger arrives, from the keyboard or a WebSocket message. It then captures exactly 120 more frames and flushes the deques as a session: one CSV table and one TIFF per frame, in a per-day directory.
- **The RAW10 unpacker** of `save_raw10_to_tiff` (`src/SimpleCapture/main.cpp`). It decodes the MIPI CSI-2 RAW10 layout: four 10-bit pixels in five bytes, then a partial group at the end of a row.
- **The preview tool** (`src/go/process_capture/process_capture.go`). Covered here:
  - the BGGR bilinear demosaic;
  - the rule that cuts the JSON metadata out of a TIFF's bytes;
  - the ordering and naming of the preview JPEGs.

One module per component:

| module | file | models |
|---|---|---|
| `Wrappers` | wrappers.dfy | `Option` |
| `Unsigned` | unsigned.dfy | `byte` and `u16` as subset types of `int` |
| `Decimal` | decimal.dfy | `str(n)`, `f"{n:04d}"`, `%04d`, and reading digits back |
| `Paths` | paths.dfy | `os.path.join`, the date directories, the session directory, the snapshot path and the frame file names |
| `RingBuffer` | ring_buffer.dfy | `deque(maxlen=…)` and `zip` |
| `PixelDepth` | pixel_depth.dfy | `<< 6` at capture, and `>> 8` or `astype(uint16)` at save |
| `Dispatch` | dispatch.dfy | the WebSocket listener's decision for one message |
| `SessionWriter` | session_writer.dfy | `save_metadata_csv` and `save_frames` as values |
| `CaptureLoop` | capture_loop.dfy | `main`'s loop as a step function over an explicit state, driven by events |
| `Raw10` | raw10.dfy | the unpacking loops of `save_raw10_to_tiff` |
| `Demosaic` | demosaic.dfy | `demosaicBGGR` |
| `Metadata` | metadata.dfy | `strings.Index` and the metadata slice |
| `StringOrder` | string_order.dfy | Go's byte-wise string order and `sort.Strings` |
| `Preview` | preview.dfy | `processTIFFs`: order, verdict per file, output names |

The capture loop sees the outside world as a stream of events:

- `Tick`: one turn of the loop, carrying the clock reading, the local date and a raw camera frame;
- `KeyPress`: the keyboard thread sets the flag;
- `Remote`: a WebSocket message.

A delivery can fall between any two turns. Timestamps are whole microseconds. Files written, snapshots, archive requests and sync requests are recorded as effects in the state.

The state also records which WebSocket listener the program runs. `CaptureLoop.Init(false)` runs the listener as written, where an archive request ends the listener (see Findings). `CaptureLoop.Init(true)` runs the corrected one. Every invariant is proved for both.

The preview tool's file-system results and decoder results are likewise parameters of `Preview.ProcessTIFFs`:

- a `Probe` per file;
- the JSON decoder's verdict.

Where the code and its documentation disagree, the model follows the code:

- The listener arms on the message type `"TRIGG"`, not `"TRIGGER"`.
- The session directory is recomputed only when the date changes, so every session of a day shares one `rawcap_<epoch>` directory.
- A WebSocket message that is not a JSON object raises inside the listener. Only `ConnectionClosed` is caught, so the listener ends.
- `last_snapshot_time` starts at 0, so the first buffering turn of the program takes a snapshot.

## Model

| member | source | states |
|---|---|---|
| RingBuffer.Push | src/python/raw.py:285-286 | an append grows a deque by one until it reaches its capacity, after which the length stays at the capacity |
| RingBuffer.PushKeepsNewest | src/python/raw.py:285-286 | an append keeps exactly the newest `cap` entries of the old contents followed by the new entry, and the new entry is last |
| RingBuffer.PushAllKeepsNewest | src/python/raw.py:285-286 | any run of appends leaves the newest `cap` of everything ever appended, oldest first |
| RingBuffer.PushAllShape | src/python/raw.py:250-254 | after appending `xs`, the deque holds min(cap, old length + \|xs\|) entries and, when `xs` fits, ends with `xs` itself |
| RingBuffer.NewestKeepsPairs | src/python/raw.py:239-240 | keeping the newest n entries of two equally long deques keeps equally many of each, taken from the same positions |
| RingBuffer.LockstepPush | src/python/raw.py:239-240 | two equally long deques appended in lockstep stay equally long, and their zip is the zip's own append, so entry i of one still pairs with entry i of the other |
| PixelDepth.ShiftLeft6 | src/python/raw.py:238 | a 10-bit sample shifted left by 6 is 64 times the sample and does not wrap in 16 bits |
| PixelDepth.TopByte | src/python/raw.py:101 | the 8-bit value is the top byte of the 16-bit sample: b·256 <= w < (b+1)·256 |
| PixelDepth.Capture | src/python/raw.py:238 | a captured frame has one 16-bit sample per raw sample, 64 times the raw value for every 10-bit sample |
| PixelDepth.EightBit | src/python/raw.py:101 | the 8-bit image has one byte per sample, the top byte of each |
| PixelDepth.SixteenBit | src/python/raw.py:104 | the 16-bit image is the captured frame unchanged |
| PixelDepth.TenBitSampleFits | src/python/raw.py:238 | shifting a 10-bit sample back by 6 recovers it, and its six low bits are clear |
| PixelDepth.EightBitDropsTwoLowBits | src/python/raw.py:101 | (v << 6) >> 8 equals v >> 2 for every 10-bit v |
| PixelDepth.SavedFrameOfTenBitCapture | src/python/raw.py:100-104 | a saved 8-bit frame holds each sample's top eight of ten bits; a saved 16-bit frame holds the sample times 64 |
| Decimal.Digits | src/python/raw.py:45 | the decimal form of n is a non-empty digit string with a leading '0' only for n = 0, and one digit exactly when n < 10 |
| Decimal.ValueOfDigits | src/python/raw.py:45 | reading the decimal form back gives n |
| Decimal.PadZeros | src/python/raw.py:98 | the padded form is all digits, has max(width, digit count) characters and reads back as n |
| Decimal.DigitsInjective | src/python/raw.py:125-126 | distinct numbers have distinct decimal forms |
| Decimal.PadZerosInjective | src/python/raw.py:98 | distinct numbers have distinct padded forms at any width |
| Paths.SessionDirLayout | src/python/raw.py:42-45 | the session directory is `<base>/<year>/<MM>/<DD>/rawcap_<epoch>`, with month and day two digits wide for calendar values |
| Paths.DateDirInjective | src/python/raw.py:42 | the date directory under a base determines the date |
| Paths.SessionDirInjective | src/python/raw.py:42-45 | the session directory determines the date and the epoch second it was created in |
| Paths.SnapshotPathInjective | src/python/raw.py:121-126 | the snapshot path determines the date and the whole second of the snapshot |
| Paths.FrameFileNameInjective | src/python/raw.py:98 | `frame_{i:04d}.tiff` determines i |
| Paths.FramePathInjective | src/python/raw.py:98 | inside one directory, different frame numbers give different paths |
| Dispatch.ReceiveAsWritten | src/python/raw.py:195-211 | as written: "TRIGG" (and nothing else) arms and the listener continues; "COMPRESS_AND_SYNC" never archives and ends the listener; any other object is ignored; a non-object or a closed connection ends the listener |
| Dispatch.Receive | src/python/raw.py:201-208 | corrected: "TRIGG" arms, "COMPRESS_AND_SYNC" archives and syncs, other objects are ignored, and the listener survives exactly the JSON objects |
| Dispatch.CompressMessageEndsRemoteTriggering | src/python/raw.py:205-211 | as written, a "TRIGG" after a "COMPRESS_AND_SYNC" is never acted upon; corrected, both commands are issued |
| Dispatch.CorrectedListenerSurvivesObjects | src/python/raw.py:195-208 | corrected, a listener that receives only JSON objects issues exactly one command per message, each message's own |
| SessionWriter.MaxPixel | src/python/raw.py:65 | `frame.max()` is a sample of the frame and no sample exceeds it |
| SessionWriter.MinPixel | src/python/raw.py:66 | `frame.min()` is a sample of the frame and no sample is below it |
| SessionWriter.MetadataTableShape | src/python/raw.py:57-73 | the table is a seven-column header followed by one seven-column row per frame, one per buffered frame when the deques are in lockstep |
| SessionWriter.MetadataRowOfFrame | src/python/raw.py:62-73 | row i+1 holds frame i's timestamp, the number i and the time relative to the trigger |
| SessionWriter.TableMatchesFiles | src/python/raw.py:52-104 | row i+1 of the table holds exactly the metadata embedded in the i-th TIFF, and the i-th TIFF holds the i-th frame at the chosen depth |
| SessionWriter.FrameFilesDistinct | src/python/raw.py:98 | no two frames of a session are written to the same path |
| SessionWriter.MetadataPathIsNotAFrame | src/python/raw.py:54-56 | `metadata.csv` in the session directory is never the path of a frame's TIFF |
| SessionWriter.SavedFilesAreTopBytes | src/python/raw.py:100-102 | with `save_as_8bit` set, every saved frame is an 8-bit image holding each sample's top byte |
| CaptureLoop.Record | src/python/raw.py:239-240 | appending a frame and its timestamp keeps the deques equally long and within capacity |
| CaptureLoop.Step | src/python/raw.py:222-259 | every event keeps the deques equally long and within capacity |
| CaptureLoop.Run | src/python/raw.py:222-259 | any run of events keeps the deques equally long and within capacity |
| CaptureLoop.StartSessionFacts | src/python/raw.py:225-234 | a session starts buffering with empty deques and a clear flag; it keeps the directory on the same date and makes a new `rawcap_<seconds>` directory on a new date |
| CaptureLoop.BufferTickFacts | src/python/raw.py:236-249 | a buffering turn with the flag set ends buffering and takes its clock reading as the trigger time; otherwise it appends frame and timestamp, and snapshots exactly when due |
| CaptureLoop.PostTickFacts | src/python/raw.py:250-259 | a post-trigger turn appends frame and timestamp and counts down; the last turn flushes the deques into the session directory, syncs, and returns to the start |
| CaptureLoop.RemoteMessageFacts | src/python/raw.py:195-211 | a message never touches the phase, the deques or the snapshot clock. It arms exactly on "TRIGG". A non-object ends the listener. As written, "COMPRESS_AND_SYNC" also ends the listener and archives nothing; corrected, it archives the current directory and the listener goes on |
| CaptureLoop.CompressMessageEndsRemoteArming | src/python/raw.py:205-211 | as written, after "COMPRESS_AND_SYNC" the listener is gone, nothing was archived, and a later "TRIGG" leaves the flag as it was |
| CaptureLoop.StepKeepsValid | src/python/raw.py:222-259 | every event preserves the invariant: lockstep within capacity, 1..120 post-trigger turns left with the flag set, the directory belongs to the current date, and snapshots are 30 s apart |
| CaptureLoop.RunKeepsValid | src/python/raw.py:222-259 | every run of events preserves the invariant |
| CaptureLoop.ReachableStatesValid | src/python/raw.py:214-259 | with either listener, every state reachable from the program's start satisfies the invariant, so both deques always hold equally many entries, at most 240 |
| CaptureLoop.ArmingIsIdempotent | src/python/raw.py:187 | arming twice is arming once, and a remote "TRIGG" arms exactly as a key press does |
| CaptureLoop.MalformedMessageEndsListener | src/python/raw.py:196-211 | after a non-object message the listener is gone and later messages change nothing |
| CaptureLoop.DeliveriesDoNotDisturbCapture | src/python/raw.py:183-208 | key presses and messages change neither the phase nor the deques nor the snapshot clock |
| CaptureLoop.ArmDuringLastPostTickIsLost | src/python/raw.py:232-236 | a trigger that arrives while a session is completing is cleared by the next session before it is looked at |
| CaptureLoop.SnapshotPolicy | src/python/raw.py:243-246 | a buffering turn snapshots its own frame exactly when 30 s have elapsed since the last snapshot, and the snapshot time then becomes that turn's time |
| CaptureLoop.NoSnapshotOutsideBuffering | src/python/raw.py:248-254 | no other event snapshots or moves the snapshot clock, so it persists across sessions |
| CaptureLoop.SnapshotFilesDistinct | src/python/raw.py:125-126 | no two snapshots of a run are written to the same file |
| CaptureLoop.PostCaptureRun | src/python/raw.py:250-259 | post-trigger capture runs exactly its remaining turns: fewer turns only append and count down; that many flush the session and return to the start |
| CaptureLoop.TriggeredSession | src/python/raw.py:248-257 | from the moment buffering sees the flag, the session holds min(240, pre + 120) entries, where pre is what the deques held; its last 120 frames and timestamps are exactly the post-trigger ones, and the rest are the newest entries the deques already held |
| CaptureLoop.BufferingRun | src/python/raw.py:236-246 | buffering turns with the flag clear append each reading's frame to one deque and its clock reading to the other, and stay buffering in the same directory |
| CaptureLoop.OpenAndArm | src/python/raw.py:225-240 | after a session opens, buffers `pre` and is armed, the deques hold the newest 240 frames and clock readings of `pre` and the flag is set |
| CaptureLoop.NewestPaired | src/python/raw.py:239-240 | the newest entries of the frames and of the clock readings are equally many, and entry i of both comes from the same reading |
| CaptureLoop.SessionOfReadings | src/python/raw.py:225-257 | a whole session, from its opening turn to its flush, writes to the directory chosen at its opening and holds the newest 240 readings buffered since it opened; entry i of its frames and entry i of its timestamps are the frame and clock reading of the same reading, in capture order |
| Raw10.Sample | src/SimpleCapture/main.cpp:73-76 | a decoded pixel is 10-bit, its high eight bits are the high byte and its low two bits are the selected field of the low-bits byte |
| Raw10.StrideLayout | src/SimpleCapture/main.cpp:60-84 | the stride is five bytes per full group plus exactly the bytes the remainder branch copies, and the remainder is below 4 |
| Raw10.StrideIsCeiling | src/SimpleCapture/main.cpp:60 | the stride is ceil(10·width/8) |
| Raw10.Unpacked | src/SimpleCapture/main.cpp:61 | the unpacked image holds exactly width·height samples |
| Raw10.UnpackGroups | src/SimpleCapture/main.cpp:66-78 | the group loop, reading five bytes per group, produces exactly the full-group pixels of the row |
| Raw10.UnpackRemainder | src/SimpleCapture/main.cpp:80-87 | the remainder branch produces exactly the last width mod 4 pixels of the row |
| Raw10.UnpackRow | src/SimpleCapture/main.cpp:63-87 | one row's loops produce the row's width pixels, each decoded from that row's packed bytes |
| Raw10.Unpack | src/SimpleCapture/main.cpp:57-88 | the whole unpacking produces width·height samples, row after row |
| Raw10.GroupStep | src/SimpleCapture/main.cpp:67-77 | the group at column col lies in bytes 5·col/4 .. +5 of the row and yields pixels col..col+3 |
| Raw10.RemainderStep | src/SimpleCapture/main.cpp:80-86 | remainder pixel i lies in the row's bytes and is decoded from the scratch array |
| Raw10.PixelOfRow | src/SimpleCapture/main.cpp:63-65 | output pixel (r, c) is column c decoded from packed row r alone |
| Raw10.RowDependsOnlyOnItsBytes | src/SimpleCapture/main.cpp:63-65 | two packed images that agree on row r unpack to the same row r |
| Raw10.SamplesAreTenBit | src/SimpleCapture/main.cpp:73-86 | every unpacked sample is below 1024 |
| Raw10.FullGroupPixel | src/SimpleCapture/main.cpp:67-77 | pixel k of a full group at offset g is (byte[g+k] << 2) \| ((byte[g+4] >> 2k) & 3) |
| Raw10.RemainderPixel | src/SimpleCapture/main.cpp:80-86 | only rem+1 bytes are copied, so every remainder pixel is its byte shifted left by two with both low bits clear |
| Raw10.UnpackPackGroup | src/SimpleCapture/main.cpp:73-76 | unpacking four packed 10-bit pixels returns them |
| Raw10.PackUnpackGroup | src/SimpleCapture/main.cpp:68-76 | packing an unpacked group returns its five bytes: decoding loses no bit |
| Demosaic.DemosaicBGGR | src/go/process_capture/process_capture.go:39-75 | the output has the input's bounds, and each pixel is the site rule's colour where the loops reach and blank elsewhere |
| Demosaic.WrittenAndUnwritten | src/go/process_capture/process_capture.go:41-71 | every written pixel is opaque, and the last row and last column stay blank |
| Demosaic.OwnChannelIsSensorValue | src/go/process_capture/process_capture.go:45-69 | the channel a site measures is the sensor value there |
| Demosaic.ChannelReadsOnlyItsColour | src/go/process_capture/process_capture.go:46-69 | corrected: each channel is read only from same-coloured sites in the 3×3 neighbourhood |
| Demosaic.GreenSiteReadsGreenForRed | src/go/process_capture/process_capture.go:53-56 | as written, the red of a green site on a blue row changes when only a green pixel changes |
| Demosaic.ExactAverageBetween | src/go/process_capture/process_capture.go:50 | corrected: the mean of two values lies between them |
| Demosaic.DemosaicWrapsGreen | src/go/process_capture/process_capture.go:50 | as written, green neighbours 200 and 100 give 22 instead of 150 |
| Demosaic.ExactChannelsStayInRange | src/go/process_capture/process_capture.go:46-69 | corrected: every channel of an interior site lies within the image's sensor range |
| Demosaic.LeftEdgeRedIsHalved | src/go/process_capture/process_capture.go:63 | at x = 0 on an odd row the missing left neighbour reads 0, so red is half the right neighbour |
| Metadata.IndexFrom | src/go/process_capture/process_capture.go:123 | the result is the first occurrence at or after `from`, or -1 exactly when there is none |
| Metadata.Index | src/go/process_capture/process_capture.go:123 | `strings.Index` returns the first occurrence, or -1 exactly when there is none |
| Metadata.IndexByte | src/go/process_capture/process_capture.go:127-128 | the first position of a character, or -1 exactly when it is absent |
| Metadata.IndexOfOneByte | src/go/process_capture/process_capture.go:127-128 | searching for a one-character string is searching for that character |
| Metadata.Extract | src/go/process_capture/process_capture.go:123-129 | as written: no description exactly when the tag is absent, and otherwise either a slice or a panic |
| Metadata.ExtractChecked | src/go/process_capture/process_capture.go:123-129 | corrected: no description exactly when the tag is absent, and never a panic |
| Metadata.FirstBracesSpan | src/go/process_capture/process_capture.go:127-129 | from the first '{' to the first '}' is one brace span when the '{' comes first |
| Metadata.PairedBracesSpan | src/go/process_capture/process_capture.go:127-129 | with a '{' before the first '}', both slices agree and enclose one brace span |
| Metadata.WellFormedExtraction | src/go/process_capture/process_capture.go:123-129 | after the tag with a '{' before the first '}', both versions extract the text from that '{' to that '}', which starts with '{', ends with '}' and has no earlier '}' |
| Metadata.CheckedExtractionIsBraceSpan | src/go/process_capture/process_capture.go:123-129 | corrected: text is extracted exactly when the braces pair up, and it is then one brace span |
| Metadata.UnclosedDescriptionPanics | src/go/process_capture/process_capture.go:127-129 | as written, a '{' but no '}' after the tag panics; corrected, the file is unusable |
| Metadata.UnclosedAfterPrefix | src/go/process_capture/process_capture.go:123-129 | as written, whatever bytes come before the first tag, a '{' and no '}' after it panics; corrected, the file is unusable |
| Metadata.UnclosedBracePanics | src/go/process_capture/process_capture.go:127-129 | as written, a file that starts with the tag followed by a '{' and no '}' panics |
| Metadata.NoBraceSlicesOneByte | src/go/process_capture/process_capture.go:127-133 | as written, with no brace after the tag the decoder gets the single byte before the tag; corrected, the file is unusable |
| StringOrder.LessEqAtFirstDifference | src/go/process_capture/process_capture.go:95 | the order is lexicographic: a prefix comes first, otherwise the smaller byte at the first difference wins |
| StringOrder.Reflexive | src/go/process_capture/process_capture.go:95 | every string is at most itself |
| StringOrder.Total | src/go/process_capture/process_capture.go:95 | any two strings are comparable |
| StringOrder.Antisymmetric | src/go/process_capture/process_capture.go:95 | strings each at most the other are equal |
| StringOrder.Transitive | src/go/process_capture/process_capture.go:95 | the order is transitive |
| StringOrder.SortSorted | src/go/process_capture/process_capture.go:95 | `sort.Strings` leaves the list in ascending order |
| StringOrder.SortPermutes | src/go/process_capture/process_capture.go:95 | `sort.Strings` keeps every name exactly as often as it was given |
| StringOrder.SortedPermutationIsUnique | src/go/process_capture/process_capture.go:95 | two sorted permutations of each other are equal |
| StringOrder.SortIsTheSortedPermutation | src/go/process_capture/process_capture.go:95 | any sorted rearrangement of the input is the sort's result, whatever algorithm produced it |
| Preview.FileVerdictOutcomes | src/go/process_capture/process_capture.go:104-155 | a file ends the run with an error exactly when it cannot be read, or when its preview cannot be written; it is skipped exactly when it is not a TIFF, lacks "ImageDescription", has no usable braces, fails JSON decoding or is not grayscale; it aborts the program exactly when the unchecked slice panics |
| Preview.ProcessTIFFs | src/go/process_capture/process_capture.go:90-101 | the total shown in the overlays counts every globbed file |
| Preview.VisitPlacesPreviews | src/go/process_capture/process_capture.go:103-145 | each preview carries the 1-based position of its source in the sorted list, and positions strictly increase |
| Preview.FinishedRunWritesExactly | src/go/process_capture/process_capture.go:103-156 | in a finished run, position j+1 has a preview exactly when file j is written, so skipped files leave gaps in the numbering |
| Preview.FinishesUnlessAFileFails | src/go/process_capture/process_capture.go:103-156 | the loop completes exactly when every file is written or skipped |
| Preview.OutputNameInjective | src/go/process_capture/process_capture.go:145 | `frame_%04d.jpg` determines the position |
| Preview.PreviewNamesDistinct | src/go/process_capture/process_capture.go:145 | no two previews of a run are written to the same file |
| Preview.FilesInSortedOrder | src/go/process_capture/process_capture.go:95-96 | files are visited in ascending byte order, each exactly as often as it was globbed |
| Preview.CheckedRunNeverCrashes | src/go/process_capture/process_capture.go:123-133 | corrected: no file can crash the run |
| Preview.UnclosedDescriptionCrashesRun | src/go/process_capture/process_capture.go:104-133 | as written, a readable first TIFF whose bytes hold the tag followed by a '{' and no '}' crashes the run before any preview is written; corrected, that file is skipped |
| Preview.TagAfterHeader | src/go/process_capture/process_capture.go:123 | in bytes that open with a little-endian TIFF header and then the tag, the tag is first found right after the header |
| Preview.HeaderedUnclosedDescriptionPanics | src/go/process_capture/process_capture.go:123-129 | as written, bytes made of a TIFF header, the tag, a '{' and no '}' make the extraction panic; corrected, the file is unusable |

## Left out

- Camera setup and the driver: Picamera2, libcamera, and the request queue and capture loop of main.cpp. These are foreign drivers. A captured frame is an input of each `Tick`.
- Threads, `asyncio` and the WebSocket transport. The keyboard thread and the listener appear only as `KeyPress` and `Remote` events between loop turns. The 0.1 s keyboard debounce is not modelled.
- `time.time()` as a float. Timestamps are whole microseconds, and `int(timestamp)` is the whole-second part.
- `time.localtime()`. The date is part of each turn's reading. The snapshot and the session start take the date from that reading.
- `zip`/`rsync` subprocesses, `os.makedirs`, `shutil.rmtree` and all file writes. They are I/O, recorded only as effects (`SnapshotSaved`, `SessionSaved`, `Archived`, `Synced`).
- Failing I/O. In the script, every I/O failure ends the program. Examples: an `OSError` from `os.makedirs`, `open` or `tifffile.imwrite`, or a `FileNotFoundError` when `rsync` or `zip` is missing. These propagate out of `main`, which catches only `KeyboardInterrupt` (raw.py:260-262). The model assumes every write and command succeeds, so its loop always goes on.
- Mean and median pixel statistics. They are floating point; their CSV cells are `Unmodelled`, and the TIFF metadata keeps max and min only.
- Float conversion of the metadata values (`float(...)`). Values are kept as integers.
- `KeyboardInterrupt` handling in `main`. Interrupting the program is outside the loop's logic.
- TIFF and JPEG encoding and decoding, `tifffile`, libtiff, `drawOverlay` (the `gg` library and float text) and `json.Unmarshal`. They are library wrappers. The decoder's outcome is the `decodes` parameter, and the decoded image's kind is part of each file's `Probe`.
- `filepath.Glob` and its error return. The glob result is an input; with the fixed pattern `*.tiff` it cannot report a bad pattern.
- The ffmpeg command at the end of `processTIFFs`. It is I/O; a finished run is where it would start.
- src/python/circ.py. It is not part of this model: it only wraps an encoder library.
- Integer widths in main.cpp. The model uses unbounded integers, so `width * 10`, `row * packed_stride` and `width * height` never overflow `int`. Widths large enough to overflow are not modelled.
- Demosaic image origin. The Go image is assumed to start at (0, 0), as the TIFF decoder returns it. Rectangles with other origins are not modelled.
- PixelDepth.Capture: its contract speaks only of samples below 1024. The function itself wraps larger values modulo 2^16, as numpy does, but nothing is proved about them: the sensor delivers 10-bit samples.
- CaptureLoop.RemoteMessageFacts: with the corrected listener, the archive request removes the session directory (`remove_source=True`). A later flush into that directory would then fail and end the program. The model records only the `Archived` effect and does not track which directories exist.

## Findings

| source | as written | input that shows it | evidently intended | confidence | as-written member | corrected member |
|---|---|---|---|---|---|---|
| src/python/raw.py:205-208 | `websocket_client` reads `OUTPUT_DIR`, which is only ever assigned as a local variable of `main` (line 229), so the lookup raises `NameError`; only `ConnectionClosed` is caught, so the listener thread ends | the message `{"type": "COMPRESS_AND_SYNC"}` followed by `{"type": "TRIGG"}` | archive and sync the current session directory, keep listening, then arm (archiving also removes the directory the next flush writes to; see Left out) | high (not executed) | Dispatch.CompressMessageEndsRemoteTriggering | Dispatch.CorrectedListenerSurvivesObjects |
| src/go/process_capture/process_capture.go:50 | two `uint8` neighbours are added in `uint8`, so the sum wraps modulo 256 before `/ 2` (also lines 55-56, 62-63 and 67) | a blue site whose green neighbours are 200 and 100 gets green 22 | the mean 150 | high (not executed) | Demosaic.DemosaicWrapsGreen | Demosaic.ExactAverageBetween |
| src/go/process_capture/process_capture.go:56 | at a green site, red on a blue row (and blue on a red row, line 62) averages (x, y±1) with (x+1, y±1), and the second of these is a green site | 3×3 images equal except for 200 at the green site (2, 1): the red of (1, 0) is 100 in one and 0 in the other | average the two nearest sites of the wanted colour, (x, y-1) and (x, y+1) | medium (not executed) | Demosaic.GreenSiteReadsGreenForRed | Demosaic.ChannelReadsOnlyItsColour |
| src/go/process_capture/process_capture.go:127-129 | neither brace index is checked before slicing, so a missing '}' makes the low bound exceed the high bound and the slice panics, ending the program | a readable TIFF whose bytes contain `ImageDescription` followed by '{' and no later '}', for example a little-endian TIFF header followed by `ImageDescription{` and no '}' | skip a file without a usable '{'..'}' pair, as the other metadata failures are skipped | medium (not executed) | Preview.HeaderedUnclosedDescriptionPanics | Metadata.CheckedExtractionIsBraceSpan |
