/**
  How `processTIFFs` in src/go/process_capture/process_capture.go finds the
  JSON metadata inside a raw TIFF file: it searches the file's bytes for the
  text "ImageDescription", then slices from the first '{' to the first '}'
  found after it. The file's bytes are a string of one character per byte.
  Go's `s[lo:hi]` panics unless `0 <= lo <= hi <= len(s)`.
 */
module Metadata {

  /** Whether `p` occurs in `s` starting at position `i`. */
  predicate OccursAt(s: string, p: string, i: int) {
    0 <= i && i + |p| <= |s| && s[i..i + |p|] == p
  }

  /** `strings.Index(s[from:], p) + from`, or -1 when `p` does not occur from `from` on. */
  function IndexFrom(s: string, p: string, from: nat): (r: int)
    requires from <= |s|
    ensures r == -1 || from <= r <= |s| - |p|
    ensures r == -1 <==> forall i :: from <= i <= |s| ==> !OccursAt(s, p, i)
    ensures r >= 0 ==> OccursAt(s, p, r) && forall i :: from <= i < r ==> !OccursAt(s, p, i)
    decreases |s| - from
  {
    if OccursAt(s, p, from) then from
    else if from + |p| >= |s| then
      assert forall i :: from < i <= |s| ==> !OccursAt(s, p, i);
      -1
    else IndexFrom(s, p, from + 1)
  }

  /** `strings.Index(s, p)`: the first position where `p` occurs in `s`, or -1. */
  function Index(s: string, p: string): (r: int)
    ensures r == -1 || 0 <= r <= |s| - |p|
    ensures r == -1 <==> forall i :: 0 <= i <= |s| ==> !OccursAt(s, p, i)
    ensures r >= 0 ==> OccursAt(s, p, r) && forall i :: 0 <= i < r ==> !OccursAt(s, p, i)
  {
    IndexFrom(s, p, 0)
  }

  /**
    `strings.Index(s, string(c))` for a one-byte pattern: the first position of
    `c` in `s`, or -1.
   */
  function IndexByte(s: string, c: char): (r: int)
    ensures -1 <= r < |s|
    ensures r == -1 <==> c !in s
    ensures r >= 0 ==> s[r] == c
    ensures forall i :: 0 <= i < r ==> s[i] != c
    decreases |s|
  {
    if |s| == 0 then -1
    else if s[0] == c then 0
    else
      var r := IndexByte(s[1..], c);
      assert forall i :: 1 <= i < |s| ==> s[i] == s[1..][i - 1];
      if r == -1 then -1 else r + 1
  }

  /** A one-character pattern occurs exactly where that character stands, so both searches agree. */
  lemma IndexOfOneByte(s: string, c: char)
    ensures Index(s, [c]) == IndexByte(s, c)
  {
    forall i | 0 <= i <= |s|
      ensures OccursAt(s, [c], i) <==> i < |s| && s[i] == c
    {
      if i < |s| {
        assert s[i..i + 1] == [s[i]];
      }
    }
  }

  const TAG := "ImageDescription"

  /** What the slice expression yields for one file. */
  datatype Extraction =
    | NoDescription        // "ImageDescription" does not occur: the file is skipped
    | Panic                // the slice bounds are out of range: the program aborts
    | Unusable             // the bounds are not a '{'..'}' pair (only after the correction)
    | Slice(text: string)  // the text handed to the JSON decoder

  /**
    The bounds the code computes, relative to the start of the tag:
    `strings.Index(raw[idx:], "{")` and `strings.Index(raw[idx:], "}") + 1`.
   */
  function MetaStart(raw: string, idx: nat): int
    requires idx <= |raw|
  {
    IndexByte(raw[idx..], '{')
  }

  function MetaEnd(raw: string, idx: nat): int
    requires idx <= |raw|
  {
    IndexByte(raw[idx..], '}') + 1
  }

  /**
    The slice as written, `raw[idx+metaStart : idx+metaEnd]`, with neither
    index checked: it panics when the bounds are out of range.
   */
  function SliceAfter(raw: string, idx: nat): (e: Extraction)
    requires idx <= |raw|
    ensures e.Slice? || e.Panic?
  {
    var lo, hi := idx + MetaStart(raw, idx), idx + MetaEnd(raw, idx);
    if 0 <= lo <= hi <= |raw| then Slice(raw[lo..hi]) else Panic
  }

  /**
    The code as written: a missing or misplaced brace either panics or hands a
    piece of non-JSON text to the decoder.
   */
  function Extract(raw: string): (e: Extraction)
    ensures e == NoDescription <==> Index(raw, TAG) == -1
    ensures e != Unusable
  {
    var idx := Index(raw, TAG);
    if idx == -1 then NoDescription else SliceAfter(raw, idx)
  }

  /** Whether a '{' comes after the tag and before the first '}' that follows the tag. */
  predicate BracePair(raw: string, idx: nat)
    requires idx <= |raw|
  {
    0 <= MetaStart(raw, idx) < MetaEnd(raw, idx) - 1
  }

  /** The slice with both brace positions checked; an unusable file is skipped. */
  function SliceAfterChecked(raw: string, idx: nat): (e: Extraction)
    requires idx <= |raw|
    ensures e.Slice? || e.Unusable?
  {
    if BracePair(raw, idx) then Slice(raw[idx + MetaStart(raw, idx) .. idx + MetaEnd(raw, idx)])
    else Unusable
  }

  /** The extraction with both brace positions checked. */
  function ExtractChecked(raw: string): (e: Extraction)
    ensures e == NoDescription <==> Index(raw, TAG) == -1
    ensures e != Panic
  {
    var idx := Index(raw, TAG);
    if idx == -1 then NoDescription else SliceAfterChecked(raw, idx)
  }

  /** Whether `t` is one brace-delimited span: '{' first, '}' last and no '}' before it. */
  predicate BraceSpan(t: string) {
    |t| >= 2 && t[0] == '{' && t[|t| - 1] == '}' && forall i :: 0 <= i < |t| - 1 ==> t[i] != '}'
  }

  /** The text from the first '{' to the first '}' is one brace span when the '{' comes first. */
  lemma FirstBracesSpan(rest: string)
    requires 0 <= IndexByte(rest, '{') < IndexByte(rest, '}')
    ensures BraceSpan(rest[IndexByte(rest, '{') .. IndexByte(rest, '}') + 1])
  {
    var ms, me := IndexByte(rest, '{'), IndexByte(rest, '}');
    var t := rest[ms .. me + 1];
    forall j | 0 <= j < |t| - 1
      ensures t[j] != '}'
    {
      assert t[j] == rest[ms + j];
    }
  }

  /**
    When the tag is followed by a '{' before its first '}', both versions
    extract the same text: it starts at the first '{' after the tag, it is one
    brace span, and it ends at the first '}' after the tag.
   */
  lemma WellFormedExtraction(raw: string)
    requires Index(raw, TAG) >= 0 && BracePair(raw, Index(raw, TAG))
    ensures Extract(raw) == ExtractChecked(raw)
    ensures Extract(raw).Slice? && BraceSpan(Extract(raw).text)
  {
    PairedBracesSpan(raw, Index(raw, TAG));
  }

  /** Between paired braces after position `idx` both slices agree and enclose one brace span. */
  lemma PairedBracesSpan(raw: string, idx: nat)
    requires idx <= |raw| && BracePair(raw, idx)
    ensures SliceAfter(raw, idx) == SliceAfterChecked(raw, idx)
    ensures SliceAfter(raw, idx).Slice? && BraceSpan(SliceAfter(raw, idx).text)
  {
    var rest := raw[idx..];
    assert raw[idx + MetaStart(raw, idx) .. idx + MetaEnd(raw, idx)] == rest[MetaStart(raw, idx) .. MetaEnd(raw, idx)];
    FirstBracesSpan(rest);
  }

  /** The checked extraction yields text exactly when the braces pair up, and the text is then one brace span. */
  lemma CheckedExtractionIsBraceSpan(raw: string)
    ensures ExtractChecked(raw).Slice? <==> Index(raw, TAG) >= 0 && BracePair(raw, Index(raw, TAG))
    ensures ExtractChecked(raw).Slice? ==> BraceSpan(ExtractChecked(raw).text)
  {
    var idx := Index(raw, TAG);
    if idx >= 0 && BracePair(raw, idx) {
      WellFormedExtraction(raw);
    }
  }

  /** A text that begins with the tag finds it at position 0. */
  lemma TagAtStart(tail: string)
    ensures Index(TAG + tail, TAG) == 0
  {
    assert (TAG + tail)[0..|TAG|] == TAG;
    assert OccursAt(TAG + tail, TAG, 0);
  }

  /**
    Whenever a '{' follows the tag but no '}' does, the code as written
    panics: the first '{' lies after the tag's first byte, so the slice's low
    bound passes its high bound, which is the tag's own position.
   */
  lemma UnclosedDescriptionPanics(raw: string)
    requires Index(raw, TAG) >= 0
    requires '{' in raw[Index(raw, TAG)..] && '}' !in raw[Index(raw, TAG)..]
    ensures Extract(raw) == Panic
    ensures ExtractChecked(raw) == Unusable
  {
    var idx := Index(raw, TAG);
    var rest := raw[idx..];
    assert rest[0] == raw[idx..idx + |TAG|][0] == 'I';
  }

  /** The tag holds no brace, so the braces after it are those of what follows it. */
  lemma BracesAfterTag(tail: string)
    requires '{' in tail && '}' !in tail
    ensures '{' in TAG + tail && '}' !in TAG + tail
  {
    var raw := TAG + tail;
    assert forall i :: 0 <= i < |TAG| ==> raw[i] == TAG[i] != '}';
    assert forall i :: 0 <= i < |tail| ==> raw[|TAG| + i] == tail[i];
  }

  /**
    A '{' with no '}' after the first occurrence of the tag (a description cut
    short) aborts the program as written, whatever bytes come before the tag:
    the slice's low bound exceeds its high bound. The checked version skips
    the file.
   */
  lemma UnclosedAfterPrefix(head: string, tail: string)
    requires Index(head + TAG + tail, TAG) == |head|
    requires '{' in tail && '}' !in tail
    ensures Extract(head + TAG + tail) == Panic
    ensures ExtractChecked(head + TAG + tail) == Unusable
  {
    var raw := head + TAG + tail;
    assert raw[|head|..] == TAG + tail;
    BracesAfterTag(tail);
    UnclosedDescriptionPanics(raw);
  }

  /** The same for a text that begins with the tag. */
  lemma UnclosedBracePanics(tail: string)
    requires '{' in tail && '}' !in tail
    ensures Extract(TAG + tail) == Panic
    ensures ExtractChecked(TAG + tail) == Unusable
  {
    TagAtStart(tail);
    assert "" + TAG + tail == TAG + tail;
    UnclosedAfterPrefix("", tail);
  }

  /**
    With no brace at all after the tag, as written the decoder is handed the
    single byte in front of the tag (it cannot be a JSON object, so the file
    is skipped after a decode error); the checked version skips it directly.
   */
  lemma NoBraceSlicesOneByte(raw: string)
    requires Index(raw, TAG) > 0
    requires '{' !in raw[Index(raw, TAG)..] && '}' !in raw[Index(raw, TAG)..]
    ensures Extract(raw) == Slice([raw[Index(raw, TAG) - 1]])
    ensures ExtractChecked(raw) == Unusable
  {
    var idx := Index(raw, TAG);
    assert raw[idx - 1..idx] == [raw[idx - 1]];
  }
}
