/**
  What the capture script writes when it flushes a session (`save_metadata_csv`
  and `save_frames` in src/python/raw.py): one metadata table with a header row
  and one row per buffered frame, and one TIFF file per buffered frame carrying
  the same per-frame metadata. Files are modelled as values; writing them is I/O.
 */
module SessionWriter {
  import opened Unsigned
  import opened PixelDepth
  import opened Paths

  /** The buffered frames and timestamps handed to the writers, with the trigger time. */
  datatype Session = Session(dir: string, triggerTime: nat, frames: seq<Frame>, timestamps: seq<nat>)

  /**
    One CSV cell. Mean and median are floating-point statistics the model does
    not compute; their cells are `Unmodelled`.
   */
  datatype Cell = Label(text: string) | Whole(value: int) | Unmodelled

  /** The header row of `metadata.csv`. */
  const HEADER: seq<Cell> := [
    Label("Timestamp"), Label("Frame Number"), Label("Relative Time (s)"),
    Label("Max Pixel Value"), Label("Min Pixel Value"),
    Label("Mean Pixel Value"), Label("Median Pixel Value")
  ]

  /** Name of the metadata table inside the session directory. */
  const METADATA_FILE: string := "metadata.csv"

  /** Whether frames are saved as 8-bit images (`save_as_8bit`). */
  const SAVE_AS_8BIT: bool := true

  /** `frame.max()`. */
  function MaxPixel(f: Frame): (m: u16)
    ensures m in f
    ensures forall i :: 0 <= i < |f| ==> f[i] <= m
    decreases |f|
  {
    if |f| == 1 then f[0]
    else
      var rest := MaxPixel(f[1..]);
      assert forall i :: 1 <= i < |f| ==> f[i] == f[1..][i - 1];
      if f[0] >= rest then f[0] else rest
  }

  /** `frame.min()`. */
  function MinPixel(f: Frame): (m: u16)
    ensures m in f
    ensures forall i :: 0 <= i < |f| ==> m <= f[i]
    decreases |f|
  {
    if |f| == 1 then f[0]
    else
      var rest := MinPixel(f[1..]);
      assert forall i :: 1 <= i < |f| ==> f[i] == f[1..][i - 1];
      if f[0] <= rest then f[0] else rest
  }

  /** The metadata both writers compute for one frame. */
  datatype FrameMeta = FrameMeta(timestamp: nat, frameNumber: nat, relativeTime: int, maxPixel: u16, minPixel: u16)

  /** How many frames the writers visit: `zip(buffer, timestamps)` stops at the shorter one. */
  function FrameCount(s: Session): nat {
    if |s.frames| <= |s.timestamps| then |s.frames| else |s.timestamps|
  }

  /** The metadata of the i-th (frame, timestamp) pair. */
  function Meta(s: Session, i: nat): (m: FrameMeta)
    requires i < FrameCount(s)
    ensures m.frameNumber == i
    ensures m.timestamp == s.timestamps[i]
    ensures m.relativeTime == s.timestamps[i] - s.triggerTime
    ensures m.maxPixel in s.frames[i] && m.minPixel in s.frames[i] && m.minPixel <= m.maxPixel
  {
    FrameMeta(s.timestamps[i], i, s.timestamps[i] - s.triggerTime, MaxPixel(s.frames[i]), MinPixel(s.frames[i]))
  }

  /** The CSV row written for one frame. */
  function MetaRow(m: FrameMeta): seq<Cell> {
    [Whole(m.timestamp), Whole(m.frameNumber), Whole(m.relativeTime),
     Whole(m.maxPixel), Whole(m.minPixel), Unmodelled, Unmodelled]
  }

  /** All rows of `metadata.csv`, header first. */
  function MetadataRows(s: Session): seq<seq<Cell>> {
    [HEADER] + seq(FrameCount(s), i requires 0 <= i < FrameCount(s) => MetaRow(Meta(s, i)))
  }

  /** The pixel data of one saved TIFF. */
  datatype Image = EightBitImage(bytes: seq<byte>) | SixteenBitImage(words: seq<u16>)

  /** One saved TIFF: its path, the metadata in its header and its pixels. */
  datatype TiffFile = TiffFile(path: string, meta: FrameMeta, image: Image)

  /** The TIFF written for the i-th frame: `<dir>/frame_{i:04d}.tiff`. */
  function FrameFile(s: Session, i: nat, eightBit: bool): TiffFile
    requires i < FrameCount(s)
  {
    TiffFile(
      Join(s.dir, FrameFileName(i)),
      Meta(s, i),
      if eightBit then EightBitImage(EightBit(s.frames[i])) else SixteenBitImage(SixteenBit(s.frames[i])))
  }

  /** Every TIFF `save_frames` writes, in order. */
  function FrameFiles(s: Session, eightBit: bool): seq<TiffFile> {
    seq(FrameCount(s), i requires 0 <= i < FrameCount(s) => FrameFile(s, i, eightBit))
  }

  /** `os.path.join(output_dir, "metadata.csv")`: where the table is written. */
  function MetadataPath(s: Session): string {
    Join(s.dir, METADATA_FILE)
  }

  /** The TIFFs a flush writes: the capture loop calls `save_frames` with `save_as_8bit`. */
  function SavedFiles(s: Session): seq<TiffFile> {
    FrameFiles(s, SAVE_AS_8BIT)
  }

  /**
    The frames a flush writes are 8-bit images: one byte per sample, the top
    byte of the captured 16-bit value.
   */
  lemma SavedFilesAreTopBytes(s: Session, i: nat)
    requires i < FrameCount(s)
    ensures |SavedFiles(s)| == FrameCount(s)
    ensures SavedFiles(s)[i].image.EightBitImage?
    ensures |SavedFiles(s)[i].image.bytes| == |s.frames[i]|
    ensures forall j :: 0 <= j < |s.frames[i]| ==>
      SavedFiles(s)[i].image.bytes[j] as int * 256 <= s.frames[i][j] < (SavedFiles(s)[i].image.bytes[j] as int + 1) * 256
  {
    assert SavedFiles(s)[i] == FrameFile(s, i, true);
  }

  /** The table never overwrites a frame: "metadata.csv" and "frame_<i>.tiff" differ in their first letter. */
  lemma MetadataPathIsNotAFrame(s: Session, eightBit: bool, i: nat)
    requires |s.dir| > 0 && s.dir[|s.dir| - 1] != '/'
    requires i < FrameCount(s)
    ensures MetadataPath(s) != FrameFiles(s, eightBit)[i].path
  {
    var a, b := METADATA_FILE, FrameFileName(i);
    assert a[0] == 'm' && b[0] == 'f';
    assert FrameFiles(s, eightBit)[i].path == Join(s.dir, b);
    if Join(s.dir, a) == Join(s.dir, b) {
      CommonPrefix(s.dir + "/", a, b);
    }
  }

  /**
    The metadata table has a seven-column header followed by one seven-column
    row per frame; when the buffers were kept in lockstep every buffered frame
    gets a row.
   */
  lemma MetadataTableShape(s: Session)
    ensures |MetadataRows(s)| == FrameCount(s) + 1
    ensures MetadataRows(s)[0] == HEADER && |HEADER| == 7
    ensures forall i :: 0 < i < |MetadataRows(s)| ==> |MetadataRows(s)[i]| == 7
    ensures |s.frames| == |s.timestamps| ==> FrameCount(s) == |s.frames|
  {
    var rows := MetadataRows(s);
    forall i | 0 < i < |rows|
      ensures |rows[i]| == 7
    {
      assert rows[i] == MetaRow(Meta(s, i - 1));
    }
  }

  /** Row i + 1 of the table describes frame i: its timestamp, frame number i and its time relative to the trigger. */
  lemma MetadataRowOfFrame(s: Session, i: nat)
    requires i < FrameCount(s)
    ensures MetadataRows(s)[i + 1][0] == Whole(s.timestamps[i])
    ensures MetadataRows(s)[i + 1][1] == Whole(i)
    ensures MetadataRows(s)[i + 1][2] == Whole(s.timestamps[i] - s.triggerTime)
  {
    assert MetadataRows(s)[i + 1] == MetaRow(Meta(s, i));
  }

  /**
    The table and the image files tell the same story: row i + 1 of the table
    holds exactly the metadata embedded in the i-th TIFF, and the i-th TIFF holds
    the i-th frame.
   */
  lemma TableMatchesFiles(s: Session, eightBit: bool)
    ensures |FrameFiles(s, eightBit)| + 1 == |MetadataRows(s)|
    ensures forall i :: 0 <= i < FrameCount(s) ==>
      MetadataRows(s)[i + 1] == MetaRow(FrameFiles(s, eightBit)[i].meta)
    ensures forall i :: 0 <= i < FrameCount(s) ==>
      FrameFiles(s, eightBit)[i].image ==
        (if eightBit then EightBitImage(EightBit(s.frames[i])) else SixteenBitImage(SixteenBit(s.frames[i])))
  {
  }

  /** No two frames of a session are written to the same file. */
  lemma FrameFilesDistinct(s: Session, eightBit: bool, i: nat, j: nat)
    requires |s.dir| > 0 && s.dir[|s.dir| - 1] != '/'
    requires i < j < FrameCount(s)
    ensures FrameFiles(s, eightBit)[i].path != FrameFiles(s, eightBit)[j].path
  {
    assert FrameFiles(s, eightBit)[i].path == Join(s.dir, FrameFileName(i));
    assert FrameFiles(s, eightBit)[j].path == Join(s.dir, FrameFileName(j));
    if Join(s.dir, FrameFileName(i)) == Join(s.dir, FrameFileName(j)) {
      FramePathInjective(s.dir, i, j);
    }
  }
}
