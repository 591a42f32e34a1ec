/**
  Where the capture script puts its files (src/python/raw.py): the per-day session
  directory `<base>/<year>/<MM>/<DD>/rawcap_<epoch>`, the snapshot file
  `<snapshots>/<year>/<MM>/<DD>/snapshot_<seconds>.tiff`, and the per-frame file
  names `frame_<NNNN>.tiff`.
 */
module Paths {
  import opened Decimal

  /** A local calendar date, as `time.localtime()` reports it. */
  datatype Date = Date(year: nat, month: nat, day: nat)

  /** The directory under which every capture session is written. */
  const BASE_DIR: string := "/mnt/ramdisk/CAM/frames"

  /** The directory under which snapshots are written. */
  const SNAPSHOT_BASE_DIR: string := "/mnt/ramdisk/CAM/snapshots"

  /** True when `s` does not contain the path separator. */
  predicate NoSeparator(s: string) {
    forall i :: 0 <= i < |s| ==> s[i] != '/'
  }

  /**
    Python's `os.path.join(a, b)` for two components: an absolute `b` replaces `a`,
    otherwise a single '/' is put between them unless `a` is empty or already ends in one.
   */
  function Join(a: string, b: string): (r: string)
    ensures |b| > 0 && b[0] == '/' ==> r == b
    ensures (|b| == 0 || b[0] != '/') && |a| > 0 && a[|a| - 1] != '/' ==> r == a + "/" + b
  {
    if |b| > 0 && b[0] == '/' then b
    else if |a| == 0 || a[|a| - 1] == '/' then a + b
    else a + "/" + b
  }

  /** The text `f"{year}/{month:02}/{day:02}"`. */
  function DatePart(d: Date): string {
    Digits(d.year) + "/" + PadZeros(d.month, 2) + "/" + PadZeros(d.day, 2)
  }

  /** `os.path.join(base, f"{year}/{month:02}/{day:02}")`. */
  function DateDir(base: string, d: Date): string {
    Join(base, DatePart(d))
  }

  /** The session directory built by `create_output_directory`: `<date dir>/rawcap_<epoch>`. */
  function SessionDir(base: string, d: Date, epoch: nat): string {
    Join(DateDir(base, d), "rawcap_" + Digits(epoch))
  }

  /** The snapshot file written by `save_snapshot` for a timestamp of `seconds` whole seconds. */
  function SnapshotPath(d: Date, seconds: nat): string {
    Join(DateDir(SNAPSHOT_BASE_DIR, d), "snapshot_" + Digits(seconds) + ".tiff")
  }

  /** The name `f"frame_{i:04d}.tiff"` of the i-th frame of a session. */
  function FrameFileName(i: nat): string {
    "frame_" + PadZeros(i, 4) + ".tiff"
  }

  /** A date directory ends in the last digit of the day, never in a separator. */
  lemma DateDirEndsInDigit(base: string, d: Date)
    ensures |DateDir(base, d)| > 0 && IsDigit(DateDir(base, d)[|DateDir(base, d)| - 1])
  {
    var n := PadZeros(d.day, 2);
    var part := DatePart(d);
    assert part[|part| - 1] == n[|n| - 1];
  }

  /** The number of characters of `x` before its first `c` (all of `x` when there is none). */
  function LengthBefore(x: string, c: char): (n: nat)
    ensures n <= |x|
  {
    if x == [] || x[0] == c then 0 else 1 + LengthBefore(x[1..], c)
  }

  /** The number of characters of `x` after its last `c` (all of `x` when there is none). */
  function LengthAfter(x: string, c: char): (n: nat)
    ensures n <= |x|
  {
    if x == [] || x[|x| - 1] == c then 0 else 1 + LengthAfter(x[..|x| - 1], c)
  }

  lemma {:induction false} LengthBeforeFirst(a: string, r: string)
    requires NoSeparator(a)
    ensures LengthBefore(a + "/" + r, '/') == |a|
  {
    if a != [] {
      assert (a + "/" + r)[1..] == a[1..] + "/" + r;
      LengthBeforeFirst(a[1..], r);
    }
  }

  lemma {:induction false} LengthAfterLast(a: string, r: string)
    requires NoSeparator(r)
    ensures LengthAfter(a + "/" + r, '/') == |r|
  {
    if r != [] {
      assert (a + "/" + r)[..|a + "/" + r| - 1] == a + "/" + r[..|r| - 1];
      LengthAfterLast(a, r[..|r| - 1]);
    }
  }

  /**
    Splitting at the last separator: two strings that end in "/<name>" with
    separator-free names agree on the directory and on the name.
   */
  lemma SplitAtLastSeparator(a: string, r: string, b: string, t: string)
    requires NoSeparator(r) && NoSeparator(t)
    requires a + "/" + r == b + "/" + t
    ensures a == b && r == t
  {
    var x := a + "/" + r;
    LengthAfterLast(a, r);
    LengthAfterLast(b, t);
    assert a == x[..|a|] == b;
    assert r == x[|a| + 1..] == t;
  }

  /**
    Splitting at the first separator: two strings that agree and whose first '/'
    follows separator-free prefixes agree on both sides of it.
   */
  lemma SplitAtFirstSeparator(a: string, r: string, b: string, t: string)
    requires NoSeparator(a) && NoSeparator(b)
    requires a + "/" + r == b + "/" + t
    ensures a == b && r == t
  {
    var x := a + "/" + r;
    LengthBeforeFirst(a, r);
    LengthBeforeFirst(b, t);
    assert a == x[..|a|] == b;
    assert r == x[|a| + 1..] == t;
  }

  /** Equal strings with a common prefix agree after it. */
  lemma CommonPrefix(p: string, x: string, y: string)
    requires p + x == p + y
    ensures x == y
  {
    assert x == (p + x)[|p|..];
    assert y == (p + y)[|p|..];
  }

  /** Two names with the same prefix and suffix agree in between. */
  lemma Framed(p: string, x: string, y: string, s: string)
    requires p + x + s == p + y + s
    ensures x == y
  {
    CommonSuffix(p + x, p + y, s);
    CommonPrefix(p, x, y);
  }

  /** Equal strings with a common suffix agree before it. */
  lemma CommonSuffix(x: string, y: string, s: string)
    requires x + s == y + s
    ensures x == y
  {
    assert x == (x + s)[..|x|];
    assert y == (y + s)[..|y|];
  }

  /** The date directory under a fixed base determines the date. */
  lemma DateDirInjective(base: string, d1: Date, d2: Date)
    requires DateDir(base, d1) == DateDir(base, d2)
    ensures d1 == d2
  {
    var y1, m1, n1 := Digits(d1.year), PadZeros(d1.month, 2), PadZeros(d1.day, 2);
    var y2, m2, n2 := Digits(d2.year), PadZeros(d2.month, 2), PadZeros(d2.day, 2);
    var p1, p2 := DatePart(d1), DatePart(d2);
    if |base| == 0 || base[|base| - 1] == '/' {
      CommonPrefix(base, p1, p2);
    } else {
      CommonPrefix(base + "/", p1, p2);
    }
    assert p1 == y1 + "/" + (m1 + "/" + n1);
    assert p2 == y2 + "/" + (m2 + "/" + n2);
    SplitAtFirstSeparator(y1, m1 + "/" + n1, y2, m2 + "/" + n2);
    SplitAtFirstSeparator(m1, n1, m2, n2);
    DigitsInjective(d1.year, d2.year);
  }

  /**
    The session directory under a base without a trailing '/' is
    `<base>/<year>/<MM>/<DD>/rawcap_<epoch>`, with month and day exactly two
    digits wide whenever they are genuine calendar values.
   */
  lemma SessionDirLayout(base: string, d: Date, epoch: nat)
    requires |base| > 0 && base[|base| - 1] != '/'
    ensures SessionDir(base, d, epoch) == DateDir(base, d) + "/" + "rawcap_" + Digits(epoch)
    ensures DateDir(base, d) ==
      base + "/" + Digits(d.year) + "/" + PadZeros(d.month, 2) + "/" + PadZeros(d.day, 2)
    ensures 1 <= d.month <= 12 ==> |PadZeros(d.month, 2)| == 2
    ensures 1 <= d.day <= 31 ==> |PadZeros(d.day, 2)| == 2
  {
    DateDirEndsInDigit(base, d);
  }

  /**
    Distinct (date, epoch) pairs give distinct session directories under the same base:
    the directory name determines the date and the epoch it was made from.
   */
  lemma SessionDirInjective(base: string, d1: Date, e1: nat, d2: Date, e2: nat)
    requires SessionDir(base, d1, e1) == SessionDir(base, d2, e2)
    ensures d1 == d2 && e1 == e2
  {
    DateDirEndsInDigit(base, d1);
    DateDirEndsInDigit(base, d2);
    var r1, r2 := "rawcap_" + Digits(e1), "rawcap_" + Digits(e2);
    SplitAtLastSeparator(DateDir(base, d1), r1, DateDir(base, d2), r2);
    DateDirInjective(base, d1, d2);
    CommonPrefix("rawcap_", Digits(e1), Digits(e2));
    DigitsInjective(e1, e2);
  }

  /** Snapshots taken in different whole seconds, or on different dates, go to different files. */
  lemma SnapshotPathInjective(d1: Date, s1: nat, d2: Date, s2: nat)
    requires SnapshotPath(d1, s1) == SnapshotPath(d2, s2)
    ensures d1 == d2 && s1 == s2
  {
    DateDirEndsInDigit(SNAPSHOT_BASE_DIR, d1);
    DateDirEndsInDigit(SNAPSHOT_BASE_DIR, d2);
    var f1, f2 := "snapshot_" + Digits(s1) + ".tiff", "snapshot_" + Digits(s2) + ".tiff";
    SplitAtLastSeparator(DateDir(SNAPSHOT_BASE_DIR, d1), f1, DateDir(SNAPSHOT_BASE_DIR, d2), f2);
    DateDirInjective(SNAPSHOT_BASE_DIR, d1, d2);
    Framed("snapshot_", Digits(s1), Digits(s2), ".tiff");
    DigitsInjective(s1, s2);
  }

  /** Frame file names are distinct for distinct frame numbers. */
  lemma FrameFileNameInjective(i: nat, j: nat)
    requires FrameFileName(i) == FrameFileName(j)
    ensures i == j
  {
    Framed("frame_", PadZeros(i, 4), PadZeros(j, 4), ".tiff");
    PadZerosInjective(i, j, 4);
  }

  /** Inside one directory, different frame numbers give different paths. */
  lemma FramePathInjective(dir: string, i: nat, j: nat)
    requires |dir| > 0 && dir[|dir| - 1] != '/'
    requires Join(dir, FrameFileName(i)) == Join(dir, FrameFileName(j))
    ensures i == j
  {
    var a, b := FrameFileName(i), FrameFileName(j);
    assert a[0] == 'f' && b[0] == 'f';
    CommonPrefix(dir + "/", a, b);
    FrameFileNameInjective(i, j);
  }
}
