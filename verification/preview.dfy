/**
  The file handling of `processTIFFs` in src/go/process_capture/process_capture.go:
  the globbed TIFF names are sorted, each file is opened, decoded, searched for
  its metadata and demosaiced, and a JPEG named after the file's position in the
  sorted list is written to the output directory. What the file system and
  the decoders report about a file is a `Probe`; the JSON decoder's verdict is
  the `decodes` parameter. The pixel work (demosaic and overlay) does not
  affect which files are written, so it is not repeated here.
 */
module Preview {
  import opened Decimal
  import opened StringOrder
  import opened Paths
  import Metadata

  /** `outputDir` as `main` passes it. */
  const OUTPUT_DIR: string := "preview"

  /**
    `filepath.Join(outputDir, fmt.Sprintf("frame_%04d.jpg", position))`: the two
    components are already clean, so the join puts one separator between them.
   */
  function OutputName(position: nat): string {
    OUTPUT_DIR + "/frame_" + PadZeros(position, 4) + ".jpg"
  }

  /**
    What one globbed file turns out to be.
    - `readable`: `os.Open` and `image.Decode` both succeed.
    - `format`: the format name `image.Decode` reports.
    - `contents`: the bytes the second read returns. That `os.Open` error is
      discarded; a failed reopen reads as the empty text.
    - `grayscale`: the decoded image is an `*image.Gray`.
    - `writable`: `os.Create` and `jpeg.Encode` of the output both succeed.
   */
  datatype Probe = Probe(readable: bool, format: string, contents: string, grayscale: bool, writable: bool)

  /** What the loop body does with one file. */
  datatype Verdict =
    | Write        // a preview JPEG is written
    | Skip         // `continue`: the file is passed over
    | ReturnError  // `return err`: the run ends, ffmpeg is not started
    | Abort        // the metadata slice panics: the program dies

  /**
    The loop body's decision for one file, branch by branch. `checked` selects
    the metadata extraction with both brace positions checked instead of the
    code's unchecked slice.
   */
  function FileVerdict(p: Probe, decodes: string -> bool, checked: bool): Verdict {
    if !p.readable then ReturnError
    else if p.format != "tiff" then Skip
    else
      match DescriptionOf(p, checked)
      case NoDescription => Skip
      case Unusable => Skip
      case Panic => Abort
      case Slice(text) =>
        if !decodes(text) then Skip
        else if !p.grayscale then Skip
        else if !p.writable then ReturnError
        else Write
  }

  /** The metadata extraction the loop body applies to a file's bytes. */
  function DescriptionOf(p: Probe, checked: bool): Metadata.Extraction {
    if checked then Metadata.ExtractChecked(p.contents) else Metadata.Extract(p.contents)
  }

  /**
    What becomes of one file, outcome by outcome. An unreadable file, or a
    file whose preview cannot be written, ends the run with an error. A file
    that is not a TIFF, lacks the "ImageDescription" text, has no usable
    brace span, has metadata the JSON decoder rejects or is not grayscale is
    skipped. Only the unchecked slice can abort the program, and only a
    readable TIFF whose extraction panics does.
   */
  lemma FileVerdictOutcomes(p: Probe, decodes: string -> bool, checked: bool)
    ensures var v := FileVerdict(p, decodes, checked); var e := DescriptionOf(p, checked);
      && (v == ReturnError <==>
            !p.readable || (p.format == "tiff" && e.Slice? && decodes(e.text) && p.grayscale && !p.writable))
      && (v == Abort <==> p.readable && p.format == "tiff" && e.Panic?)
      && (v == Write <==>
            p.readable && p.format == "tiff" && e.Slice? && decodes(e.text) && p.grayscale && p.writable)
      && (v == Skip <==>
            p.readable &&
            (p.format != "tiff" || e.NoDescription? || e.Unusable? || (e.Slice? && (!decodes(e.text) || !p.grayscale))))
    ensures p.readable && p.format == "tiff" && Metadata.Index(p.contents, Metadata.TAG) == -1 ==>
      FileVerdict(p, decodes, checked) == Skip
    ensures checked ==> FileVerdict(p, decodes, checked) != Abort
  {
  }

  /** One written preview: its 1-based position in the sorted list and its source file. */
  datatype Written = Written(position: nat, source: string)
  {
    /** The JPEG it is written to. */
    function Name(): string {
      OutputName(position)
    }
  }

  /** How the run ends. `Finished` means the loop completed and ffmpeg is started. */
  datatype Stop = Finished | Failed | Crashed

  /** The result of a run: the count shown in the overlays, the previews written and how it ended. */
  datatype Run = Run(total: nat, written: seq<Written>, stop: Stop)

  /** The verdict on each file of the list, in order. */
  function Verdicts(files: seq<string>, probe: string -> Probe, decodes: string -> bool, checked: bool): (vs: seq<Verdict>)
    ensures |vs| == |files|
    ensures forall i :: 0 <= i < |files| ==> vs[i] == FileVerdict(probe(files[i]), decodes, checked)
  {
    seq(|files|, i requires 0 <= i < |files| => FileVerdict(probe(files[i]), decodes, checked))
  }

  /** The loop from index `i` on, given each file's verdict. */
  function Visit(files: seq<string>, verdicts: seq<Verdict>, i: nat): (r: (seq<Written>, Stop))
    requires |verdicts| == |files| && i <= |files|
    decreases |files| - i
  {
    if i == |files| then ([], Finished)
    else
      match verdicts[i]
      case Write =>
        var rest := Visit(files, verdicts, i + 1);
        ([Written(i + 1, files[i])] + rest.0, rest.1)
      case Skip => Visit(files, verdicts, i + 1)
      case ReturnError => ([], Failed)
      case Abort => ([], Crashed)
  }

  /**
    `processTIFFs(inputDir, "preview")` on the globbed names. `dirCreated` is
    whether `os.MkdirAll` succeeds. `total` is taken before any file is
    examined, so it counts every globbed file.
   */
  function ProcessTIFFs(globbed: seq<string>, dirCreated: bool, probe: string -> Probe, decodes: string -> bool, checked: bool): (run: Run)
    ensures run.total == |globbed|
  {
    var files := Sort(globbed);
    if !dirCreated then Run(|files|, [], Failed)
    else
      var r := Visit(files, Verdicts(files, probe, decodes, checked), 0);
      Run(|files|, r.0, r.1)
  }

  // ---------------------------------------------------------------------------
  // Properties
  // ---------------------------------------------------------------------------

  /** Whether every written preview sits at a position from `i + 1` on and comes from the file at that position. */
  predicate WellPlaced(files: seq<string>, i: nat, written: seq<Written>) {
    forall k :: 0 <= k < |written| ==>
      i + 1 <= written[k].position <= |files| && written[k].source == files[written[k].position - 1]
  }

  /** Whether the positions strictly increase along the list. */
  predicate Increasing(written: seq<Written>) {
    forall k, l :: 0 <= k < l < |written| ==> written[k].position < written[l].position
  }

  /**
    Every preview is named after the position of its source in the sorted list,
    and the positions strictly increase.
   */
  lemma {:induction false} VisitPlacesPreviews(files: seq<string>, verdicts: seq<Verdict>, i: nat)
    requires |verdicts| == |files| && i <= |files|
    ensures WellPlaced(files, i, Visit(files, verdicts, i).0)
    ensures Increasing(Visit(files, verdicts, i).0)
    decreases |files| - i
  {
    if i < |files| {
      VisitPlacesPreviews(files, verdicts, i + 1);
      var rest := Visit(files, verdicts, i + 1).0;
      if verdicts[i] == Write {
        var w := Visit(files, verdicts, i).0;
        assert w == [Written(i + 1, files[i])] + rest;
        assert forall k :: 1 <= k < |w| ==> w[k] == rest[k - 1];
      }
    }
  }

  /** Whether some preview of `written` has position `p`. */
  predicate HasPosition(written: seq<Written>, p: nat) {
    exists k :: 0 <= k < |written| && written[k].position == p
  }

  /**
    When the run finishes, position j + 1 has a preview exactly when file j of
    the sorted list is written; a skipped file leaves its number unused.
   */
  lemma {:induction false} FinishedRunWritesExactly(files: seq<string>, verdicts: seq<Verdict>, i: nat, j: nat)
    requires |verdicts| == |files| && i <= j < |files|
    requires Visit(files, verdicts, i).1 == Finished
    ensures verdicts[j] == Write <==> HasPosition(Visit(files, verdicts, i).0, j + 1)
    decreases |files| - i
  {
    var w := Visit(files, verdicts, i).0;
    VisitPlacesPreviews(files, verdicts, i + 1);
    var rest := Visit(files, verdicts, i + 1).0;
    if i < j {
      FinishedRunWritesExactly(files, verdicts, i + 1, j);
      if verdicts[i] == Write {
        assert w == [Written(i + 1, files[i])] + rest;
        if HasPosition(rest, j + 1) {
          var k :| 0 <= k < |rest| && rest[k].position == j + 1;
          assert w[k + 1] == rest[k];
        }
        if HasPosition(w, j + 1) {
          var k :| 0 <= k < |w| && w[k].position == j + 1;
          assert k > 0 && w[k] == rest[k - 1];
        }
      }
    } else if verdicts[i] == Write {
      assert w[0].position == j + 1;
    } else {
      assert w == rest;
      assert forall k :: 0 <= k < |w| ==> w[k].position > j + 1;
    }
  }

  /** A run finishes exactly when every file is written or skipped. */
  lemma {:induction false} FinishesUnlessAFileFails(files: seq<string>, verdicts: seq<Verdict>, i: nat)
    requires |verdicts| == |files| && i <= |files|
    ensures Visit(files, verdicts, i).1 == Finished <==>
      forall j :: i <= j < |files| ==> verdicts[j] == Write || verdicts[j] == Skip
    decreases |files| - i
  {
    if i < |files| {
      FinishesUnlessAFileFails(files, verdicts, i + 1);
    }
  }

  /** Distinct positions get distinct JPEG names. */
  lemma OutputNameInjective(a: nat, b: nat)
    requires OutputName(a) == OutputName(b)
    ensures a == b
  {
    Framed(OUTPUT_DIR + "/frame_", PadZeros(a, 4), PadZeros(b, 4), ".jpg");
    PadZerosInjective(a, b, 4);
  }

  /** No two previews of a run get the same JPEG name. */
  lemma PreviewNamesDistinct(globbed: seq<string>, dirCreated: bool, probe: string -> Probe, decodes: string -> bool, checked: bool, k: nat, l: nat)
    requires k < l < |ProcessTIFFs(globbed, dirCreated, probe, decodes, checked).written|
    ensures ProcessTIFFs(globbed, dirCreated, probe, decodes, checked).written[k].Name() !=
            ProcessTIFFs(globbed, dirCreated, probe, decodes, checked).written[l].Name()
  {
    var files := Sort(globbed);
    var vs := Verdicts(files, probe, decodes, checked);
    VisitPlacesPreviews(files, vs, 0);
    var w := ProcessTIFFs(globbed, dirCreated, probe, decodes, checked).written;
    assert w == Visit(files, vs, 0).0;
    if w[k].Name() == w[l].Name() {
      OutputNameInjective(w[k].position, w[l].position);
    }
  }

  /**
    The run visits the globbed files in ascending byte order, each exactly
    as often as it was globbed.
   */
  lemma FilesInSortedOrder(globbed: seq<string>)
    ensures Sorted(Sort(globbed)) && multiset(Sort(globbed)) == multiset(globbed)
  {
    SortSorted(globbed);
    SortPermutes(globbed);
  }

  /** With the checked extraction no file can crash the run. */
  lemma CheckedRunNeverCrashes(files: seq<string>, probe: string -> Probe, decodes: string -> bool)
    ensures Visit(files, Verdicts(files, probe, decodes, true), 0).1 != Crashed
  {
    var vs := Verdicts(files, probe, decodes, true);
    NoAbortNoCrash(files, vs, 0);
  }

  lemma {:induction false} NoAbortNoCrash(files: seq<string>, verdicts: seq<Verdict>, i: nat)
    requires |verdicts| == |files| && i <= |files|
    requires forall j :: 0 <= j < |files| ==> verdicts[j] != Abort
    ensures Visit(files, verdicts, i).1 != Crashed
    decreases |files| - i
  {
    if i < |files| {
      NoAbortNoCrash(files, verdicts, i + 1);
    }
  }

  /**
    As written, a readable TIFF whose bytes hold the tag followed by a '{' but
    no '}' (a description cut short), as the first file of the sorted list,
    crashes the run before any preview is written; with the check, that file
    is skipped.
   */
  lemma UnclosedDescriptionCrashesRun(files: seq<string>, probe: string -> Probe, decodes: string -> bool)
    requires |files| > 0 && probe(files[0]).readable && probe(files[0]).format == "tiff"
    requires Metadata.Index(probe(files[0]).contents, Metadata.TAG) >= 0
    requires var c := probe(files[0]).contents; var idx := Metadata.Index(c, Metadata.TAG);
      '{' in c[idx..] && '}' !in c[idx..]
    ensures Visit(files, Verdicts(files, probe, decodes, false), 0) == ([], Crashed)
    ensures FileVerdict(probe(files[0]), decodes, true) == Skip
  {
    Metadata.UnclosedDescriptionPanics(probe(files[0]).contents);
  }

  /**
    The first eight bytes of a little-endian TIFF (section 2 of the TIFF 6.0
    specification): the byte order "II", the number 42 in two bytes and the
    offset 8 of the first directory in four. `image.Decode` recognises a TIFF
    by its first four.
   */
  const TIFF_HEADER: string := "II*\0\U{8}\0\0\0"

  /** Behind a TIFF header, the first occurrence of the tag is the one right after the header. */
  lemma TagAfterHeader(tail: string)
    ensures Metadata.Index(TIFF_HEADER + Metadata.TAG + tail, Metadata.TAG) == |TIFF_HEADER|
  {
    var raw := TIFF_HEADER + Metadata.TAG + tail;
    var tag := Metadata.TAG;
    assert raw[|TIFF_HEADER|..|TIFF_HEADER| + |tag|] == tag;
    assert Metadata.OccursAt(raw, tag, |TIFF_HEADER|);
    forall i | 0 <= i < |TIFF_HEADER|
      ensures !Metadata.OccursAt(raw, tag, i)
    {
      assert raw[i] == TIFF_HEADER[i];
      assert raw[i + 1] == if i + 1 < |TIFF_HEADER| then TIFF_HEADER[i + 1] else tag[0];
      assert tag[0] == 'I' && tag[1] == 'm';
      var w := raw[i..i + |tag|];
      assert w[0] == raw[i] && w[1] == raw[i + 1];
      assert w[0] != tag[0] || w[1] != tag[1];
    }
  }

  /**
    The crash needs nothing a decodable file cannot have: bytes that open
    with a TIFF header and then hold the tag and a '{' with no '}' after it
    make the unchecked extraction panic.
   */
  lemma HeaderedUnclosedDescriptionPanics(tail: string)
    requires '{' in tail && '}' !in tail
    ensures Metadata.Extract(TIFF_HEADER + Metadata.TAG + tail) == Metadata.Panic
    ensures Metadata.ExtractChecked(TIFF_HEADER + Metadata.TAG + tail) == Metadata.Unusable
  {
    TagAfterHeader(tail);
    Metadata.UnclosedAfterPrefix(TIFF_HEADER, tail);
  }
}
