/** The pure arithmetic and naming inside `captureScreenshot`: the clip
    rectangle anchored to the bottom of the page, and the timestamped file
    path. Page dimensions and the clock reading arrive as parameters. */
module Capture {
  import opened Wrappers
  import opened Text

  /** Height in CSS pixels of the window kept from the bottom of the page. */
  const ClipHeight: int := 2800

  datatype Rect = Rect(x: int, y: int, width: int, height: int)

  /** The `screenshotRegion` for a page of the given scroll dimensions. The
      top edge is not clamped: a page shorter than the window gives a
      negative `y`. */
  function ClipRegion(pageWidth: nat, pageHeight: nat): (r: Rect)
    ensures r.x == 0
    ensures r.width == pageWidth
    ensures r.height == ClipHeight
    ensures r.y + r.height == pageHeight
    ensures r.y < 0 <==> pageHeight < ClipHeight
  {
    Rect(0, pageHeight - ClipHeight, pageWidth, ClipHeight)
  }

  function SanitizeChar(c: char): char
  {
    if c == ':' || c == '.' then '-' else c
  }

  /** `timestamp.replace(/[:.]/g, "-")`. */
  function SanitizeTimestamp(ts: string): (r: string)
    ensures |r| == |ts|
    ensures forall i :: 0 <= i < |ts| ==> (ts[i] == ':' || ts[i] == '.' ==> r[i] == '-')
    ensures forall i :: 0 <= i < |ts| ==> (ts[i] != ':' && ts[i] != '.' ==> r[i] == ts[i])
    ensures ':' !in r && '.' !in r
  {
    if |ts| == 0 then []
    else [SanitizeChar(ts[0])] + SanitizeTimestamp(ts[1..])
  }

  /** Sanitising is idempotent: a sanitised timestamp is left as it is. */
  lemma SanitizeIdempotent(ts: string)
    ensures SanitizeTimestamp(SanitizeTimestamp(ts)) == SanitizeTimestamp(ts)
  {
  }

  const NamePrefix: string := "screenshot-"
  const Extension: string := ".png"

  /** `screenshot-${timestamp}.png`, with the timestamp sanitised. */
  function ScreenshotName(ts: string): (r: string)
    ensures |r| == |NamePrefix| + |ts| + |Extension|
    ensures StartsWith(r, NamePrefix) && EndsWith(r, Extension)
    ensures r[|NamePrefix|..|r| - |Extension|] == SanitizeTimestamp(ts)
  {
    var s := SanitizeTimestamp(ts);
    var r := NamePrefix + s + Extension;
    assert r[|NamePrefix|..|r| - |Extension|] == s;
    r
  }

  /** The only `.` in a screenshot name is the one before the extension, so
      the name splits back into its stem and `.png` unambiguously. */
  lemma ScreenshotNameDot(ts: string)
    ensures var r := ScreenshotName(ts);
      IndexOf(r, '.') == Some(|r| - |Extension|) && LastIndexOf(r, '.') == Some(|r| - |Extension|)
  {
    var r := ScreenshotName(ts);
    StemHasNoDot(ts);
    ExtensionHasOneDot(r);
    OnlyOccurrence(r, '.', |r| - |Extension|);
  }

  lemma ExtensionHasOneDot(r: string)
    requires EndsWith(r, Extension)
    ensures r[|r| - |Extension|] == '.'
    ensures forall i :: |r| - |Extension| < i < |r| ==> r[i] != '.'
  {
    assert forall i :: |r| - |Extension| <= i < |r| ==> r[i] == Extension[i - |r| + |Extension|];
  }

  lemma StemHasNoDot(ts: string)
    ensures var r := ScreenshotName(ts);
      forall i :: 0 <= i < |r| - |Extension| ==> r[i] != '.'
  {
    var s := SanitizeTimestamp(ts);
    var r := ScreenshotName(ts);
    assert r == NamePrefix + s + Extension;
    forall i | 0 <= i < |r| - |Extension| ensures r[i] != '.' {
      if i >= |NamePrefix| {
        assert r[i] == s[i - |NamePrefix|];
      }
    }
  }

  /** One component of a normalised POSIX path: not empty, no `/`, and
      neither `.` nor `..`, which `path.join` would resolve away. */
  predicate IsSegment(s: string)
  {
    s != "" && s != "." && s != ".." && '/' !in s
  }

  /** Whether a path remainder begins with a `.` or `..` segment. */
  predicate StartsWithDotSegment(rest: string)
  {
    rest == "." || rest == ".." || StartsWith(rest, "./") || StartsWith(rest, "../")
  }

  /** An absolute POSIX path other than the root, in the normal form
      `path.join` returns: it starts with `/`, does not end with one, and
      every `/` is followed by a segment that is neither empty, `.` nor `..`. */
  predicate IsNormalDir(dir: string)
  {
    && 1 < |dir| && dir[0] == '/' && dir[|dir| - 1] != '/'
    && forall i :: 0 <= i < |dir| && dir[i] == '/' ==>
         i + 1 < |dir| && dir[i + 1] != '/' && !StartsWithDotSegment(dir[i + 1..])
  }

  /** POSIX `path.join(dir, name)` for a directory in normal form and a single
      segment. */
  function JoinPath(dir: string, name: string): (r: string)
    requires IsNormalDir(dir)
    requires IsSegment(name)
    ensures LastIndexOf(r, '/') == Some(|dir|)
    ensures r[..|dir|] == dir && r[|dir| + 1..] == name
  {
    var r := dir + "/" + name;
    assert forall k :: |dir| < k < |r| ==> r[k] == name[k - |dir| - 1];
    assert forall k :: |dir| < k < |r| ==> r[k] != '/';
    assert r[|dir|] == '/';
    r
  }

  /** Joining adds nothing for `path.join` to normalise: the result is again
      a path in normal form, one segment longer. */
  lemma {:induction false} JoinPathIsNormal(dir: string, name: string)
    requires IsNormalDir(dir)
    requires IsSegment(name)
    ensures IsNormalDir(JoinPath(dir, name))
  {
    var r := JoinPath(dir, name);
    assert r == dir + "/" + name;
    forall i | 0 <= i <= |dir| && r[i] == '/'
      ensures i + 1 < |r| && r[i + 1] != '/' && !StartsWithDotSegment(r[i + 1..])
    {
      if i < |dir| {
        assert dir[i] == '/' && i + 1 < |dir|;
        var d := dir[i + 1..];
        assert r == dir[..i + 1] + (d + "/" + name) by {
          assert dir == dir[..i + 1] + d;
        }
        assert r[i + 1..] == d + "/" + name;
        SegmentStartKept(d, name);
      } else {
        assert r[i + 1..] == name;
        SegmentIsNotDot(name);
      }
    }
    forall i | |dir| < i < |r|
      ensures r[i] != '/'
    {
      assert r[i] == name[i - |dir| - 1];
    }
  }

  /** A single segment is not a dot segment and does not start one. */
  lemma SegmentIsNotDot(name: string)
    requires IsSegment(name)
    ensures !StartsWithDotSegment(name)
  {
    if 2 <= |name| {
      assert name[..2][1] == name[1] != '/';
    }
    if 3 <= |name| {
      assert name[..3][2] == name[2] != '/';
    }
  }

  /** A remainder that does not start with a dot segment still does not
      once more segments are joined after it. */
  lemma SegmentStartKept(d: string, name: string)
    requires 0 < |d| && !StartsWithDotSegment(d)
    ensures !StartsWithDotSegment(d + "/" + name)
  {
    var e := d + "/" + name;
    assert e[0] == d[0] && e[|d|] == '/';
    if |d| == 1 {
      assert e[1] == '/';
    } else if |d| == 2 {
      assert e[..2] == d;
      assert e[2] == '/';
    } else {
      assert e[..3] == d[..3];
      assert e[..2] == d[..2];
    }
  }

  /** The screenshot path: the file name is the last path component and the
      directory is everything before it. */
  function ScreenshotPath(dir: string, ts: string): (r: string)
    requires IsNormalDir(dir)
    requires '/' !in ts
    ensures LastIndexOf(r, '/') == Some(|dir|)
    ensures r[..|dir|] == dir && r[|dir| + 1..] == ScreenshotName(ts)
  {
    var name := ScreenshotName(ts);
    assert IsSegment(name) by {
      var s := SanitizeTimestamp(ts);
      assert forall i :: 0 <= i < |s| ==> s[i] != '/';
      assert name == NamePrefix + s + Extension;
      assert |name| > 2;
    }
    JoinPath(dir, name)
  }
}
