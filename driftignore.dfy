/**
 * The .driftignore rule language of driftctl (pkg/filter/driftignore.go).
 *
 * A rule line is cut on dots (escapableSplit); a line of two segments
 * `type.id` ignores a whole resource, a longer line `type.id.path...` ignores
 * drift on the fields the path pattern matches.  The file is given as the
 * sequence of lines the scanner yields, and stringutils.Unescape, whose
 * definition is not part of this model, is the parameter `unescape`.
 */
module DriftIgnoreFilter {
  import opened Wrappers
  import opened Resources

  // ---------------------------------------------------------------------
  // escapableSplit
  // ---------------------------------------------------------------------

  /** The character at index i is a dot that separates two segments: it is
      not the first character, and it is not escaped by a single backslash
      (two backslashes escape each other and the dot splits again). */
  predicate SplitsAt(line: string, i: nat)
    requires i < |line|
  {
    line[i] == '.' &&
    ((i >= 1 && line[i - 1] != '\\') || (i >= 2 && line[i - 1] == '\\' && line[i - 2] == '\\'))
  }

  /** The line ends in a splitting dot. */
  predicate EndsInSplit(line: string)
  {
    |line| > 0 && SplitsAt(line, |line| - 1)
  }

  /** The raw (still escaped) segments of line, scanning from index i while
      the current segment began at index start.  A segment ends at each
      splitting dot; what follows the last splitting dot is a segment only
      when it is not empty. */
  function RawSplitFrom(line: string, start: nat, i: nat): seq<string>
    requires start <= i <= |line|
    decreases |line| - i
  {
    if i == |line| then
      (if start < |line| then [line[start..]] else [])
    else if SplitsAt(line, i) then
      [line[start..i]] + RawSplitFrom(line, i + 1, i + 1)
    else
      RawSplitFrom(line, start, i + 1)
  }

  function RawSplit(line: string): seq<string>
  {
    RawSplitFrom(line, 0, 0)
  }

  function MapAll(f: string -> string, s: seq<string>): seq<string>
  {
    seq(|s|, k requires 0 <= k < |s| => f(s[k]))
  }

  /** What escapableSplit returns: every raw segment, unescaped. */
  function Split(line: string, unescape: string -> string): seq<string>
  {
    MapAll(unescape, RawSplit(line))
  }

  /** strings.Join */
  function Join(parts: seq<string>, sep: string): string
  {
    if |parts| == 0 then ""
    else if |parts| == 1 then parts[0]
    else parts[0] + sep + Join(parts[1..], sep)
  }

  /** The number of splitting dots at index i and after. */
  function SplitCount(line: string, i: nat): nat
    requires i <= |line|
    decreases |line| - i
  {
    if i == |line| then 0 else (if SplitsAt(line, i) then 1 else 0) + SplitCount(line, i + 1)
  }

  /** The length of the line without a final splitting dot. */
  function SegmentsEnd(line: string): nat
  {
    if EndsInSplit(line) then |line| - 1 else |line|
  }

  /** The loop of escapableSplit: it appends a segment at each splitting dot
      and, when the last character is not one, the rest of the line. */
  method EscapableSplit(line: string, unescape: string -> string) returns (splitted: seq<string>)
    ensures splitted == Split(line, unescape)
  {
    splitted := [];
    var lastWordEnd := 0;
    ghost var raw: seq<string> := [];
    for i := 0 to |line|
      invariant lastWordEnd <= i
      invariant splitted == MapAll(unescape, raw)
      invariant SplitSoFar(line, raw, lastWordEnd, i)
    {
      if line[i] == '.' && ((i >= 1 && line[i - 1] != '\\') || (i >= 2 && line[i - 1] == '\\' && line[i - 2] == '\\')) {
        SplitStep(line, raw, lastWordEnd, i);
        MapAllSnoc(unescape, raw, line[lastWordEnd..i]);
        raw := raw + [line[lastWordEnd..i]];
        splitted := splitted + [unescape(line[lastWordEnd..i])];
        lastWordEnd := i + 1;
        continue;
      }
      SplitStep(line, raw, lastWordEnd, i);
      if i == |line| - 1 {
        MapAllSnoc(unescape, raw, line[lastWordEnd..]);
        raw := raw + [line[lastWordEnd..]];
        splitted := splitted + [unescape(line[lastWordEnd..])];
      }
    }
  }

  /** The loop invariant of escapableSplit: raw holds the segments found
      before index i, and what the scan from i yields completes them. */
  predicate SplitSoFar(line: string, raw: seq<string>, start: nat, i: nat)
    requires start <= i <= |line|
  {
    if i < |line| then raw + RawSplitFrom(line, start, i) == RawSplit(line) else raw == RawSplit(line)
  }

  /** One iteration of the loop keeps the invariant. */
  lemma SplitStep(line: string, raw: seq<string>, start: nat, i: nat)
    requires start <= i < |line| && SplitSoFar(line, raw, start, i)
    ensures SplitsAt(line, i) ==> SplitSoFar(line, raw + [line[start..i]], i + 1, i + 1)
    ensures !SplitsAt(line, i) && i == |line| - 1 ==> SplitSoFar(line, raw + [line[start..]], start, i + 1)
    ensures !SplitsAt(line, i) && i < |line| - 1 ==> SplitSoFar(line, raw, start, i + 1)
  {
    if SplitsAt(line, i) {
      assert RawSplitFrom(line, start, i) == [line[start..i]] + RawSplitFrom(line, i + 1, i + 1);
      assert raw + ([line[start..i]] + RawSplitFrom(line, i + 1, i + 1)) == raw + [line[start..i]] + RawSplitFrom(line, i + 1, i + 1);
    } else if i == |line| - 1 {
      assert RawSplitFrom(line, start, i) == [line[start..]];
    }
  }

  lemma MapAllSnoc(f: string -> string, s: seq<string>, x: string)
    ensures MapAll(f, s + [x]) == MapAll(f, s) + [f(x)]
  {
  }

  // Properties of the split

  lemma {:induction false} RawSplitFromNonEmpty(line: string, start: nat, i: nat)
    requires start <= i <= |line| && start < |line|
    ensures RawSplitFrom(line, start, i) != []
    decreases |line| - i
  {
    if i < |line| && !SplitsAt(line, i) {
      RawSplitFromNonEmpty(line, start, i + 1);
    }
  }

  lemma {:induction false} RawSplitFromLength(line: string, start: nat, i: nat)
    requires start <= i <= |line|
    requires forall j :: start <= j < i ==> !SplitsAt(line, j)
    ensures |RawSplitFrom(line, start, i)|
         == SplitCount(line, i) + (if start < |line| && !SplitsAt(line, |line| - 1) then 1 else 0)
    decreases |line| - i
  {
    if i < |line| {
      if SplitsAt(line, i) {
        RawSplitFromLength(line, i + 1, i + 1);
      } else {
        RawSplitFromLength(line, start, i + 1);
      }
    }
  }

  /** One segment per splitting dot, plus one for the text after the last
      splitting dot unless the line ends in one: an empty line has no
      segment and a trailing dot leaves no empty segment behind. */
  lemma SegmentCount(line: string, unescape: string -> string)
    ensures |Split(line, unescape)| == SplitCount(line, 0) + (if |line| > 0 && !EndsInSplit(line) then 1 else 0)
  {
    RawSplitFromLength(line, 0, 0);
  }

  lemma JoinCons(a: string, rest: seq<string>, sep: string)
    requires rest != []
    ensures Join([a] + rest, sep) == a + sep + Join(rest, sep)
  {
    assert ([a] + rest)[1..] == rest;
  }

  lemma {:induction false} JoinRawSplitFrom(line: string, start: nat, i: nat)
    requires start <= i <= |line| && start <= SegmentsEnd(line)
    requires forall j :: start <= j < i ==> !SplitsAt(line, j)
    ensures Join(RawSplitFrom(line, start, i), ".") == line[start..SegmentsEnd(line)]
    decreases |line| - i
  {
    if i == |line| {
    } else if SplitsAt(line, i) {
      if i + 1 < |line| {
        var rest := RawSplitFrom(line, i + 1, i + 1);
        JoinRawSplitFrom(line, i + 1, i + 1);
        RawSplitFromNonEmpty(line, i + 1, i + 1);
        JoinCons(line[start..i], rest, ".");
        assert line[start..SegmentsEnd(line)]
            == line[start..i] + "." + line[i + 1..SegmentsEnd(line)];
      }
    } else {
      JoinRawSplitFrom(line, start, i + 1);
    }
  }

  /** Joining the raw segments with dots gives back the line, less a final
      splitting dot. */
  lemma JoinSegments(line: string)
    ensures Join(RawSplit(line), ".") == line[..SegmentsEnd(line)]
  {
    JoinRawSplitFrom(line, 0, 0);
  }

  lemma {:induction false} NoSplitCount(line: string, i: nat)
    requires i <= |line|
    requires forall k :: 0 <= k < |line| ==> !SplitsAt(line, k)
    ensures SplitCount(line, i) == 0
    decreases |line| - i
  {
    if i < |line| {
      NoSplitCount(line, i + 1);
    }
  }

  /** A non-empty line without a splitting dot is a single segment. */
  lemma NoSplitOneSegment(line: string)
    requires line != []
    requires forall k :: 0 <= k < |line| ==> !SplitsAt(line, k)
    ensures RawSplit(line) == [line]
  {
    NoSplitCount(line, 0);
    RawSplitFromLength(line, 0, 0);
    JoinSegments(line);
    assert line[..|line|] == line;
  }

  /** A line without a dot is one segment, the whole line unescaped;
      an empty line is no segment at all. */
  lemma NoDotOneSegment(line: string, unescape: string -> string)
    requires '.' !in line
    ensures Split(line, unescape) == if line == [] then [] else [unescape(line)]
  {
    if line != [] {
      forall k | 0 <= k < |line| ensures !SplitsAt(line, k) {
        assert line[k] in line;
      }
      NoSplitOneSegment(line);
    }
  }

  /** No character of w is a splitting dot. */
  predicate NoSplit(w: string)
  {
    forall j :: 0 <= j < |w| ==> !SplitsAt(w, j)
  }

  lemma DotFreeNoSplit(w: string)
    requires '.' !in w
    ensures NoSplit(w)
  {
    forall j | 0 <= j < |w| ensures !SplitsAt(w, j) {
      assert w[j] in w;
    }
  }

  lemma {:induction false} FirstSegmentFrom(t: string, k: nat, i: nat)
    requires 1 <= k <= |t| && i <= |t|
    requires forall j :: i <= j < k ==> !SplitsAt(t, j)
    ensures RawSplitFrom(t, 0, i) != []
    ensures k <= |RawSplitFrom(t, 0, i)[0]| && RawSplitFrom(t, 0, i)[0][..k] == t[..k]
    decreases |t| - i
  {
    if i < |t| && !SplitsAt(t, i) {
      FirstSegmentFrom(t, k, i + 1);
    }
  }

  /** The first segment of a line holds its first k characters when none of
      them is a splitting dot. */
  lemma FirstSegment(t: string, k: nat)
    requires 1 <= k <= |t|
    requires forall j :: 0 <= j < k ==> !SplitsAt(t, j)
    ensures RawSplit(t) != [] && k <= |RawSplit(t)[0]| && RawSplit(t)[0][..k] == t[..k]
  {
    FirstSegmentFrom(t, k, 0);
  }

  lemma {:induction false} ScanPast(t: string, start: nat, i: nat, k: nat)
    requires start <= i <= k <= |t|
    requires forall j :: i <= j < k ==> !SplitsAt(t, j)
    ensures RawSplitFrom(t, start, i) == RawSplitFrom(t, start, k)
    decreases k - i
  {
    if i < k {
      ScanPast(t, start, i + 1, k);
    }
  }

  lemma {:induction false} GlueShift(t: string, p: string, b: string, i: nat)
    requires t == p + b && b != [] && i <= |b|
    requires forall j :: 0 <= j < |b| ==> SplitsAt(t, |p| + j) == SplitsAt(b, j)
    ensures RawSplitFrom(b, 0, i) != []
    ensures RawSplitFrom(t, 0, |p| + i) == [p + RawSplitFrom(b, 0, i)[0]] + RawSplitFrom(b, 0, i)[1..]
    decreases |b| - i
  {
    if i == |b| {
      assert RawSplitFrom(b, 0, i) == [b];
      assert RawSplitFrom(t, 0, |p| + i) == [t];
    } else if SplitsAt(b, i) {
      var rest := RawSplitFrom(b, i + 1, i + 1);
      assert RawSplitFrom(b, 0, i) == [b[0..i]] + rest;
      assert SplitsAt(t, |p| + i);
      assert t[0..|p| + i] == p + b[0..i];
      assert t[|p|..] == b;
      ShiftedSplit(t, b, |p|, i + 1, i + 1);
      assert RawSplitFrom(t, 0, |p| + i) == [p + b[0..i]] + rest;
    } else {
      assert !SplitsAt(t, |p| + i);
      assert RawSplitFrom(b, 0, i) == RawSplitFrom(b, 0, i + 1);
      assert RawSplitFrom(t, 0, |p| + i) == RawSplitFrom(t, 0, |p| + i + 1);
      GlueShift(t, p, b, i + 1);
    }
  }

  /** Text ending in a dot that does not split is glued to the first segment
      of whatever follows it, unless that begins with a dot. */
  lemma GlueAfterDot(p: string, b: string)
    requires p != [] && p[|p| - 1] == '.' && NoSplit(p)
    requires b != [] ==> b[0] != '.'
    ensures b == [] ==> RawSplit(p + b) == [p]
    ensures b != [] ==> RawSplit(b) != [] && RawSplit(p + b) == [p + RawSplit(b)[0]] + RawSplit(b)[1..]
  {
    var t := p + b;
    forall j | 0 <= j < |p| ensures !SplitsAt(t, j) {
      assert t[j] == p[j];
      if j >= 1 { assert t[j - 1] == p[j - 1]; }
      if j >= 2 { assert t[j - 2] == p[j - 2]; }
      assert !SplitsAt(p, j);
    }
    ScanPast(t, 0, 0, |p|);
    if b == [] {
      assert t == p;
    } else {
      forall j | 0 <= j < |b| ensures SplitsAt(t, |p| + j) == SplitsAt(b, j) {
        assert t[|p| + j] == b[j];
        assert t[|p| + j - 1] == if j >= 1 then b[j - 1] else '.';
        if j >= 2 { assert t[|p| + j - 2] == b[j - 2]; }
      }
      GlueShift(t, p, b, 0);
    }
  }

  /** A dot in first place never splits: it opens the first segment, which
      runs on over the segment that follows it unless a second dot comes
      straight after it. */
  lemma LeadingDot(b: string)
    ensures RawSplit("." + b) != [] && |RawSplit("." + b)[0]| >= 1 && RawSplit("." + b)[0][0] == '.'
    ensures b == [] ==> RawSplit("." + b) == ["."]
    ensures b != [] && b[0] != '.' ==>
      RawSplit(b) != [] && RawSplit("." + b) == ["." + RawSplit(b)[0]] + RawSplit(b)[1..]
  {
    var t := "." + b;
    FirstSegment(t, 1);
    if b == [] || b[0] != '.' {
      GlueAfterDot(".", b);
    }
  }

  /** A dot after a single backslash does not split: it stays, still
      escaped, inside its segment, which runs on over the segment that
      follows it unless a second dot comes straight after it. */
  lemma EscapedDot(a: string, b: string)
    requires NoSplit(a)
    requires |a| >= 1 && a[|a| - 1] == '\\' && !(|a| >= 2 && a[|a| - 2] == '\\')
    ensures RawSplit(a + "." + b) != [] && |a| < |RawSplit(a + "." + b)[0]|
    ensures RawSplit(a + "." + b)[0][..|a| + 1] == a + "."
    ensures b == [] ==> RawSplit(a + "." + b) == [a + "."]
    ensures b != [] && b[0] != '.' ==>
      RawSplit(b) != [] && RawSplit(a + "." + b) == [a + "." + RawSplit(b)[0]] + RawSplit(b)[1..]
  {
    var p := a + ".";
    var t := a + "." + b;
    assert t == p + b;
    forall j | 0 <= j < |p| ensures !SplitsAt(p, j) {
      if j < |a| {
        assert p[j] == a[j];
        if j >= 1 { assert p[j - 1] == a[j - 1]; }
        if j >= 2 { assert p[j - 2] == a[j - 2]; }
        assert !SplitsAt(a, j);
      } else {
        assert p[j - 1] == a[|a| - 1];
        if j >= 2 { assert p[j - 2] == a[|a| - 2]; }
      }
    }
    forall j | 0 <= j < |p| ensures !SplitsAt(t, j) {
      assert t[j] == p[j];
      if j >= 1 { assert t[j - 1] == p[j - 1]; }
      if j >= 2 { assert t[j - 2] == p[j - 2]; }
      assert !SplitsAt(p, j);
    }
    FirstSegment(t, |p|);
    assert t[..|p|] == p;
    if b == [] || b[0] != '.' {
      GlueAfterDot(p, b);
    }
  }

  lemma {:induction false} AppendDotFrom(s: string, start: nat, i: nat)
    requires start <= i <= |s|
    requires forall j :: start <= j < i ==> !SplitsAt(s, j)
    requires SplitsAt(s + ".", |s|)
    ensures RawSplitFrom(s + ".", start, i)
         == RawSplitFrom(s, start, i) + (if start == |s| || EndsInSplit(s) then [""] else [])
    decreases |s| - i
  {
    var t := s + ".";
    if i == |s| {
      assert t[start..i] == s[start..];
    } else {
      assert SplitsAt(t, i) == SplitsAt(s, i);
      assert t[start..i] == s[start..i];
      if SplitsAt(s, i) {
        AppendDotFrom(s, i + 1, i + 1);
      } else {
        AppendDotFrom(s, start, i + 1);
      }
    }
  }

  /** Appending a splitting dot to a line adds no segment, unless the line
      already ended in a splitting dot: two splitting dots in a row enclose
      an empty segment. */
  lemma TrailingDot(s: string)
    requires SplitsAt(s + ".", |s|)
    ensures RawSplit(s + ".") == if EndsInSplit(s) then RawSplit(s) + [""] else RawSplit(s)
  {
    AppendDotFrom(s, 0, 0);
  }

  lemma {:induction false} ShiftedSplit(t: string, b: string, o: nat, start: nat, i: nat)
    requires o + |b| == |t| && t[o..] == b
    requires start <= i <= |b|
    requires forall j :: 0 <= j < |b| ==> SplitsAt(t, o + j) == SplitsAt(b, j)
    ensures RawSplitFrom(t, o + start, o + i) == RawSplitFrom(b, start, i)
    decreases |b| - i
  {
    if i == |b| {
      assert t[o + start..] == b[start..];
    } else {
      assert SplitsAt(t, o + i) == SplitsAt(b, i);
      assert t[o + start..o + i] == b[start..i];
      if SplitsAt(b, i) {
        ShiftedSplit(t, b, o, i + 1, i + 1);
      } else {
        ShiftedSplit(t, b, o, start, i + 1);
      }
    }
  }

  lemma {:induction false} PrefixWithoutSplit(t: string, a: string, i: nat)
    requires |a| < |t| && t[..|a|] == a && i <= |a|
    requires forall j :: 0 <= j < |a| ==> !SplitsAt(t, j)
    requires SplitsAt(t, |a|)
    ensures RawSplitFrom(t, 0, i) == [a] + RawSplitFrom(t, |a| + 1, |a| + 1)
    decreases |a| - i
  {
    if i < |a| {
      PrefixWithoutSplit(t, a, i + 1);
    }
  }

  /** Where a dot splits: a first segment without splitting dots, a
      splitting dot (one not escaped by a single backslash, as after two
      backslashes), and a rest that does not begin with a dot give the first
      segment followed by the segments of the rest on its own. */
  lemma SplitAtDot(a: string, b: string)
    requires NoSplit(a)
    requires |a| >= 1 && (a[|a| - 1] != '\\' || (|a| >= 2 && a[|a| - 2] == '\\'))
    requires b != [] ==> b[0] != '.'
    ensures RawSplit(a + "." + b) == [a] + RawSplit(b)
  {
    var t := a + "." + b;
    var o := |a| + 1;
    assert t[..|a|] == a;
    assert t[o..] == b;
    assert t[|a| - 1] == a[|a| - 1];
    if |a| >= 2 { assert t[|a| - 2] == a[|a| - 2]; }
    forall j | 0 <= j < |a| ensures !SplitsAt(t, j) {
      assert t[j] == a[j];
      if j >= 1 { assert t[j - 1] == a[j - 1]; }
      if j >= 2 { assert t[j - 2] == a[j - 2]; }
      assert !SplitsAt(a, j);
    }
    forall j | 0 <= j < |b|
      ensures SplitsAt(t, o + j) == SplitsAt(b, j)
    {
      assert t[o + j] == b[j];
      if j >= 1 { assert t[o + j - 1] == b[j - 1]; }
      if j >= 2 { assert t[o + j - 2] == b[j - 2]; }
    }
    PrefixWithoutSplit(t, a, 0);
    ShiftedSplit(t, b, o, 0, 0);
  }

  /** Two splitting dots in a row enclose an empty segment. */
  lemma DoubleDot(a: string, b: string)
    requires NoSplit(a)
    requires |a| >= 1 && (a[|a| - 1] != '\\' || (|a| >= 2 && a[|a| - 2] == '\\'))
    requires b != [] ==> b[0] != '.'
    ensures RawSplit(a + ".." + b) == [a, ""] + RawSplit(b)
  {
    var t := a + ".." + b;
    var o := |a| + 2;
    assert t[..|a|] == a;
    assert t[o..] == b;
    assert t[|a| - 1] == a[|a| - 1];
    if |a| >= 2 { assert t[|a| - 2] == a[|a| - 2]; }
    forall j | 0 <= j < |a| ensures !SplitsAt(t, j) {
      assert t[j] == a[j];
      if j >= 1 { assert t[j - 1] == a[j - 1]; }
      if j >= 2 { assert t[j - 2] == a[j - 2]; }
      assert !SplitsAt(a, j);
    }
    forall j | 0 <= j < |b|
      ensures SplitsAt(t, o + j) == SplitsAt(b, j)
    {
      assert t[o + j] == b[j];
      if j >= 1 { assert t[o + j - 1] == b[j - 1]; }
      if j >= 2 { assert t[o + j - 2] == b[j - 2]; }
    }
    PrefixWithoutSplit(t, a, 0);
    assert SplitsAt(t, o - 1);
    assert t[o - 1..o - 1] == "";
    ShiftedSplit(t, b, o, 0, 0);
  }

  lemma EscapedBarSplit()
    ensures RawSplit("foo\\.bar") == ["foo\\.bar"]
  {
    DotFreeNoSplit("bar");
    NoSplitOneSegment("bar");
    DotFreeNoSplit("foo\\");
    EscapedDot("foo\\", "bar");
    assert "foo\\" + "." + "bar" == "foo\\.bar";
  }

  /** Single and double backslashes before a dot, a dot in first place,
      and trailing dots. */
  lemma EscapeExamples()
    ensures RawSplit("aws_s3_bucket.foo\\.bar") == ["aws_s3_bucket", "foo\\.bar"]
    ensures RawSplit("foo\\\\.bar") == ["foo\\\\", "bar"]
    ensures RawSplit(".foo") == [".foo"]
    ensures RawSplit("foo.") == ["foo"]
    ensures RawSplit("foo..") == ["foo", ""]
  {
    EscapedBarSplit();
    DotFreeNoSplit("aws_s3_bucket");
    SplitAtDot("aws_s3_bucket", "foo\\.bar");
    assert "aws_s3_bucket" + "." + "foo\\.bar" == "aws_s3_bucket.foo\\.bar";
    DotFreeNoSplit("foo\\\\");
    SplitAtDot("foo\\\\", "bar");
    NoDotOneSegment("bar", s => s);
    assert "foo\\\\" + "." + "bar" == "foo\\\\.bar";
    LeadingDot("foo");
    assert "." + "foo" == ".foo";
    NoDotOneSegment("foo", s => s);
    TrailingDot("foo");
    assert "foo" + "." == "foo.";
    TrailingDot("foo.");
    assert "foo." + "." == "foo..";
  }

  /** A leading dot, an escaped dot and two dots in a row, each in a line
      with further dots. */
  lemma MoreDotExamples()
    ensures RawSplit(".a.b") == [".a", "b"]
    ensures RawSplit("x\\.y.z") == ["x\\.y", "z"]
    ensures RawSplit("a..b") == ["a", "", "b"]
  {
    DotFreeNoSplit("a");
    DotFreeNoSplit("b");
    NoSplitOneSegment("b");
    SplitAtDot("a", "b");
    assert "a" + "." + "b" == "a.b";
    LeadingDot("a.b");
    assert "." + "a.b" == ".a.b";
    assert RawSplit("a.b")[0] == "a" && RawSplit("a.b")[1..] == ["b"];
    assert "." + "a" == ".a";
    DotFreeNoSplit("y");
    DotFreeNoSplit("z");
    NoSplitOneSegment("z");
    SplitAtDot("y", "z");
    assert "y" + "." + "z" == "y.z";
    DotFreeNoSplit("x\\");
    EscapedDot("x\\", "y.z");
    assert "x\\" + "." + "y.z" == "x\\.y.z";
    assert RawSplit("y.z")[0] == "y" && RawSplit("y.z")[1..] == ["z"];
    assert "x\\" + "." + "y" == "x\\.y";
    DoubleDot("a", "b");
    assert "a" + ".." + "b" == "a..b";
  }

  // ---------------------------------------------------------------------
  // escapableSplit as Go runs it on multi-byte text
  // ---------------------------------------------------------------------

  /** The byte offsets i, i + 1, ..., n - 1. */
  function Offsets(i: nat, n: nat): seq<nat>
    decreases n - i
  {
    if i >= n then [] else [i] + Offsets(i + 1, n)
  }

  /** Offsets that ascend from start and stay inside the line. */
  predicate Ascending(line: string, visits: seq<nat>, start: nat)
  {
    && (forall k :: 0 <= k < |visits| ==> start <= visits[k] < |line|)
    && (forall j, k :: 0 <= j < k < |visits| ==> visits[j] < visits[k])
  }

  /** The raw segments of the loop of escapableSplit when it visits only the
      offsets visits, as `range` over a Go string does: it visits the byte
      offset at which each rune starts, and the characters of line stand for
      bytes.  The last segment is appended only when a visited offset is the
      last byte of the line. */
  function SplitVisiting(line: string, visits: seq<nat>, start: nat): (r: seq<string>)
    requires Ascending(line, visits, start)
    ensures |r| <= |visits|
    decreases |visits|
  {
    if visits == [] then []
    else
      var i := visits[0];
      assert Ascending(line, visits[1..], i + 1) by {
        forall k | 0 <= k < |visits[1..]| ensures visits[1..][k] == visits[k + 1] {}
      }
      if SplitsAt(line, i) then
        [line[start..i]] + SplitVisiting(line, visits[1..], i + 1)
      else if i == |line| - 1 then
        [line[start..]] + SplitVisiting(line, visits[1..], start)
      else
        SplitVisiting(line, visits[1..], start)
  }

  lemma {:induction false} OffsetsAscending(line: string, start: nat, i: nat)
    requires start <= i
    ensures Ascending(line, Offsets(i, |line|), start)
    ensures forall k :: 0 <= k < |Offsets(i, |line|)| ==> Offsets(i, |line|)[k] == i + k
    decreases |line| - i
  {
    if i < |line| {
      OffsetsAscending(line, start, i + 1);
      OffsetsAscending(line, i + 1, i + 1);
    }
  }

  /** When every byte offset is visited, as on a line of single-byte
      characters, the loop gives the raw segments of RawSplit. */
  lemma {:induction false} VisitingEveryByte(line: string, start: nat, i: nat)
    requires start <= i <= |line| && (i == |line| ==> start == i)
    requires Ascending(line, Offsets(i, |line|), start)
    ensures SplitVisiting(line, Offsets(i, |line|), start) == RawSplitFrom(line, start, i)
    decreases |line| - i
  {
    if i < |line| {
      var visits := Offsets(i, |line|);
      assert visits[0] == i && visits[1..] == Offsets(i + 1, |line|);
      if SplitsAt(line, i) {
        OffsetsAscending(line, i + 1, i + 1);
        VisitingEveryByte(line, i + 1, i + 1);
      } else if i == |line| - 1 {
        assert Offsets(i + 1, |line|) == [];
      } else {
        OffsetsAscending(line, start, i + 1);
        VisitingEveryByte(line, start, i + 1);
      }
    }
  }

  lemma AllOffsetsSplit(line: string)
    ensures Ascending(line, Offsets(0, |line|), 0)
    ensures SplitVisiting(line, Offsets(0, |line|), 0) == RawSplit(line)
  {
    OffsetsAscending(line, 0, 0);
    VisitingEveryByte(line, 0, 0);
  }

  /** The line `a.é` in UTF-8 is the bytes 61 2E C3 A9, and `range` visits
      the offsets 0, 1 and 2 only.  The loop then drops the final segment:
      it yields one segment where the line has two. */
  lemma MultiByteLastRune()
    ensures var line := ['a', '.', '\U{C3}', '\U{A9}'];
      && Ascending(line, [0, 1, 2], 0)
      && SplitVisiting(line, [0, 1, 2], 0) == ["a"]
      && RawSplit(line) == ["a", ['\U{C3}', '\U{A9}']]
  {
    var line := ['a', '.', '\U{C3}', '\U{A9}'];
    assert SplitsAt(line, 1) && !SplitsAt(line, 0) && !SplitsAt(line, 2) && !SplitsAt(line, 3);
    assert [0, 1, 2][1..] == [1, 2] && [1, 2][1..] == [2] && [2][1..] == [];
    assert line[0..1] == "a";
    assert SplitVisiting(line, [2], 2) == [];
    assert RawSplitFrom(line, 2, 4) == [line[2..]];
  }

  // ---------------------------------------------------------------------
  // readIgnoreFile: the rules a sequence of lines builds
  // ---------------------------------------------------------------------

  /** The two exclusion lists: the `type.id` keys of ignored resources, and
      per `type.id` key the path patterns of ignored fields. */
  datatype Rules = Rules(resources: set<string>, fields: map<string, seq<string>>)

  const NoRules := Rules({}, map[])

  /** One pass of the scan loop, given the line's segments. */
  function AddLine(rules: Rules, segments: seq<string>): (r: Rules)
    ensures rules.resources <= r.resources && rules.fields.Keys <= r.fields.Keys
    ensures forall k :: k in rules.fields ==> rules.fields[k] <= r.fields[k]
  {
    if |segments| < 2 then rules
    else if |segments| == 2 then rules.(resources := rules.resources + {Join(segments, ".")})
    else
      var key := Join(segments[..2], ".");
      var sublist := if key in rules.fields then rules.fields[key] else [];
      rules.(fields := rules.fields[key := sublist + [Join(segments[2..], ".")]])
  }

  /** The rules after scanning lines, in order, starting from rules. */
  function AddLines(rules: Rules, lines: seq<string>, unescape: string -> string): (r: Rules)
    ensures rules.resources <= r.resources && rules.fields.Keys <= r.fields.Keys
    decreases |lines|
  {
    if lines == [] then rules
    else AddLines(AddLine(rules, Split(lines[0], unescape)), lines[1..], unescape)
  }

  /** The field patterns the lines give the key, in file order. */
  function PatternsFor(lines: seq<string>, key: string, unescape: string -> string): seq<string>
    decreases |lines|
  {
    if lines == [] then []
    else
      var segments := Split(lines[0], unescape);
      (if |segments| > 2 && Join(segments[..2], ".") == key then [Join(segments[2..], ".")] else [])
      + PatternsFor(lines[1..], key, unescape)
  }

  /** What one line does: fewer than two segments change nothing; two
      segments add their join to the ignored resources and nothing else; more
      append one pattern to the list under the first two segments' join and
      leave everything else as it was. */
  lemma LineEffect(rules: Rules, line: string, unescape: string -> string)
    ensures var segments, after := Split(line, unescape), AddLines(rules, [line], unescape);
      && (|segments| < 2 ==> after == rules)
      && (|segments| == 2 ==>
            after.resources == rules.resources + {Join(segments, ".")} && after.fields == rules.fields)
      && (|segments| > 2 ==>
            var key := Join(segments[..2], ".");
            && after.resources == rules.resources
            && after.fields.Keys == rules.fields.Keys + {key}
            && after.fields[key] == (if key in rules.fields then rules.fields[key] else []) + [Join(segments[2..], ".")]
            && (forall k :: k in rules.fields && k != key ==> after.fields[k] == rules.fields[k]))
  {
    assert [line][1..] == [];
  }

  lemma {:induction false} AddLinesConcat(rules: Rules, a: seq<string>, b: seq<string>, unescape: string -> string)
    ensures AddLines(rules, a + b, unescape) == AddLines(AddLines(rules, a, unescape), b, unescape)
    decreases |a|
  {
    if a == [] {
      assert a + b == b;
    } else {
      assert (a + b)[0] == a[0];
      assert (a + b)[1..] == a[1..] + b;
      AddLinesConcat(AddLine(rules, Split(a[0], unescape)), a[1..], b, unescape);
    }
  }

  /** A malformed line (fewer than two segments) can be deleted from the file
      without changing the rules it builds. */
  lemma MalformedLineSkipped(rules: Rules, a: seq<string>, line: string, b: seq<string>, unescape: string -> string)
    requires |Split(line, unescape)| < 2
    ensures AddLines(rules, a + [line] + b, unescape) == AddLines(rules, a + b, unescape)
  {
    AddLinesConcat(rules, a + [line], b, unescape);
    AddLinesConcat(rules, a, [line], unescape);
    AddLinesConcat(rules, a, b, unescape);
    LineEffect(AddLines(rules, a, unescape), line, unescape);
  }

  /** The ignored resources are exactly the joins of the two-segment lines. */
  lemma {:induction false} ResourceRulesOfLines(rules: Rules, lines: seq<string>, unescape: string -> string, x: string)
    ensures x in AddLines(rules, lines, unescape).resources
        <==> x in rules.resources
             || exists k :: 0 <= k < |lines| && |Split(lines[k], unescape)| == 2 && Join(Split(lines[k], unescape), ".") == x
    decreases |lines|
  {
    if lines != [] {
      var next := AddLine(rules, Split(lines[0], unescape));
      ResourceRulesOfLines(next, lines[1..], unescape, x);
      if exists k :: 0 <= k < |lines| && |Split(lines[k], unescape)| == 2 && Join(Split(lines[k], unescape), ".") == x {
        var k :| 0 <= k < |lines| && |Split(lines[k], unescape)| == 2 && Join(Split(lines[k], unescape), ".") == x;
        if k > 0 {
          assert lines[1..][k - 1] == lines[k];
        }
      }
      forall k | 0 <= k < |lines[1..]|
        ensures lines[1..][k] == lines[k + 1]
      {
      }
    }
  }

  /** A key has field rules exactly when some line gives it a pattern, and
      its list holds the earlier ones followed by those patterns in file
      order. */
  lemma {:induction false} FieldRulesOfLines(rules: Rules, lines: seq<string>, unescape: string -> string, key: string)
    ensures key in AddLines(rules, lines, unescape).fields <==> key in rules.fields || PatternsFor(lines, key, unescape) != []
    ensures key in AddLines(rules, lines, unescape).fields ==>
      AddLines(rules, lines, unescape).fields[key]
        == (if key in rules.fields then rules.fields[key] else []) + PatternsFor(lines, key, unescape)
    decreases |lines|
  {
    if lines != [] {
      var next := AddLine(rules, Split(lines[0], unescape));
      FieldRulesOfLines(next, lines[1..], unescape, key);
    }
  }

  // ---------------------------------------------------------------------
  // The DriftIgnore object
  // ---------------------------------------------------------------------

  function ResourceKey(res: Resource): string
  {
    res.resourceType + "." + res.id
  }

  function WildcardKey(res: Resource): string
  {
    res.resourceType + ".*"
  }

  /** strings.ToLower, on ASCII letters */
  function LowerChar(c: char): char
  {
    if 'A' <= c <= 'Z' then (c as int - 'A' as int + 'a' as int) as char else c
  }

  function Lower(s: string): string
  {
    seq(|s|, i requires 0 <= i < |s| => LowerChar(s[i]))
  }

  /** A split rule matches a change path when it is no longer than the path
      and each of its segments is `*` or the lower-cased path segment. */
  predicate PatternMatches(pattern: seq<string>, changePath: seq<string>)
  {
    |pattern| <= |changePath| &&
    forall i :: 0 <= i < |pattern| ==> pattern[i] == Lower(changePath[i]) || pattern[i] == "*"
  }

  predicate AnyRuleMatches(rules: seq<string>, changePath: seq<string>, unescape: string -> string)
  {
    exists k :: 0 <= k < |rules| && PatternMatches(Split(rules[k], unescape), changePath)
  }

  class DriftIgnore {
    var resExclusionList: set<string>
    var driftExclusionList: map<string, seq<string>>
    const unescape: string -> string

    function Current(): Rules
      reads this
    {
      Rules(resExclusionList, driftExclusionList)
    }

    /** NewDriftIgnore: empty lists, then the rules of the .driftignore
        file; a file that cannot be opened (None) leaves them empty. */
    constructor (unescape: string -> string, ignoreFile: Option<seq<string>>)
      ensures this.unescape == unescape
      ensures Current() == if ignoreFile.Some? then AddLines(NoRules, ignoreFile.value, unescape) else NoRules
    {
      this.unescape := unescape;
      resExclusionList := {};
      driftExclusionList := map[];
      new;
      if ignoreFile.Some? {
        ReadIgnoreFile(ignoreFile.value);
      }
    }

    /** The scan loop of readIgnoreFile over the lines of the file. */
    method ReadIgnoreFile(lines: seq<string>)
      modifies this
      ensures Current() == AddLines(old(Current()), lines, unescape)
    {
      for n := 0 to |lines|
        invariant AddLines(Current(), lines[n..], unescape) == AddLines(old(Current()), lines, unescape)
      {
        assert lines[n..][0] == lines[n] && lines[n..][1..] == lines[n + 1..];
        var line := lines[n];
        var typeVal := EscapableSplit(line, unescape);
        var nbArgs := |typeVal|;
        if nbArgs < 2 {
          continue;
        }
        if nbArgs == 2 {
          resExclusionList := resExclusionList + {Join(typeVal, ".")};
          continue;
        }
        var res := Join(typeVal[..2], ".");
        var ignoreSublist := if res in driftExclusionList then driftExclusionList[res] else [];
        var path := Join(typeVal[2..], ".");
        ignoreSublist := ignoreSublist + [path];
        driftExclusionList := driftExclusionList[res := ignoreSublist];
      }
    }

    predicate IsResourceIgnored(res: Resource)
      reads this
    {
      ResourceKey(res) in resExclusionList || WildcardKey(res) in resExclusionList
    }

    /** isExcluded: some rule, split again, matches the change path. */
    method IsExcluded(rules: seq<string>, changePath: seq<string>) returns (excluded: bool)
      ensures excluded <==> AnyRuleMatches(rules, changePath, unescape)
    {
      label RuleCheck:
      for r := 0 to |rules|
        invariant forall k :: 0 <= k < r ==> !PatternMatches(Split(rules[k], unescape), changePath)
      {
        var path := EscapableSplit(rules[r], unescape);
        if |path| > |changePath| {
          continue; // path size does not match
        }
        for i := 0 to |path|
          invariant forall j :: 0 <= j < i ==> path[j] == Lower(changePath[j]) || path[j] == "*"
        {
          if path[i] != Lower(changePath[i]) && path[i] != "*" {
            continue RuleCheck; // a segment that differs and is not a wildcard
          }
        }
        return true;
      }
      return false;
    }

    /** IsFieldIgnored: the rules of `type.id` when it has any, otherwise
        those of `type.*`. */
    method IsFieldIgnored(res: Resource, path: seq<string>) returns (ignored: bool)
      ensures ResourceKey(res) !in driftExclusionList && WildcardKey(res) !in driftExclusionList ==> !ignored
      ensures ResourceKey(res) in driftExclusionList ==>
        (ignored <==> AnyRuleMatches(driftExclusionList[ResourceKey(res)], path, unescape))
      ensures ResourceKey(res) !in driftExclusionList && WildcardKey(res) in driftExclusionList ==>
        (ignored <==> AnyRuleMatches(driftExclusionList[WildcardKey(res)], path, unescape))
    {
      var isExclusionRule := ResourceKey(res) in driftExclusionList;
      var isExclusionWildcardRule := WildcardKey(res) in driftExclusionList;
      if !isExclusionRule && !isExclusionWildcardRule {
        return false;
      }
      var exclusionRules := if isExclusionRule then driftExclusionList[ResourceKey(res)] else driftExclusionList[WildcardKey(res)];
      ignored := IsExcluded(exclusionRules, path);
    }
  }

  /** Unescaping leaves the words of the example rule alone. */
  predicate PlainWords(unescape: string -> string)
  {
    unescape("aws_instance") == "aws_instance" && unescape("i-1") == "i-1" &&
    unescape("tags") == "tags" && unescape("*") == "*"
  }

  lemma TagsPatternSplit(unescape: string -> string)
    requires PlainWords(unescape)
    ensures RawSplit("tags.*") == ["tags", "*"]
    ensures Split("tags.*", unescape) == ["tags", "*"]
  {
    NoDotOneSegment("*", s => s);
    DotFreeNoSplit("tags");
    SplitAtDot("tags", "*");
    assert "tags" + "." + "*" == "tags.*";
  }

  lemma TagsRuleSplit(unescape: string -> string)
    requires PlainWords(unescape)
    ensures Split("tags.*", unescape) == ["tags", "*"]
    ensures Split("aws_instance.i-1.tags.*", unescape) == ["aws_instance", "i-1", "tags", "*"]
  {
    TagsPatternSplit(unescape);
    DotFreeNoSplit("i-1");
    SplitAtDot("i-1", "tags.*");
    assert "i-1" + "." + "tags.*" == "i-1.tags.*";
    DotFreeNoSplit("aws_instance");
    SplitAtDot("aws_instance", "i-1.tags.*");
    assert "aws_instance" + "." + "i-1.tags.*" == "aws_instance.i-1.tags.*";
    assert RawSplit("aws_instance.i-1.tags.*") == ["aws_instance", "i-1", "tags", "*"];
  }

  /** The rule `aws_instance.i-1.tags.*` ignores the change path
      `tags.Name` but neither `tags` (the pattern is longer than the path)
      nor `metadata.tags`. */
  lemma TagsRuleExample(unescape: string -> string)
    requires PlainWords(unescape)
    ensures var rules := AddLines(NoRules, ["aws_instance.i-1.tags.*"], unescape);
      && rules.resources == {}
      && rules.fields == map["aws_instance.i-1" := ["tags.*"]]
      && AnyRuleMatches(["tags.*"], ["tags", "Name"], unescape)
      && !AnyRuleMatches(["tags.*"], ["tags"], unescape)
      && !AnyRuleMatches(["tags.*"], ["metadata", "tags"], unescape)
  {
    TagsRuleSplit(unescape);
    var segments := Split("aws_instance.i-1.tags.*", unescape);
    assert Join(segments[..2], ".") == "aws_instance.i-1";
    assert segments[2..] == ["tags", "*"];
    assert Join(segments[2..], ".") == "tags.*";
    LineEffect(NoRules, "aws_instance.i-1.tags.*", unescape);
    var rules := AddLines(NoRules, ["aws_instance.i-1.tags.*"], unescape);
    assert rules.fields.Keys == {"aws_instance.i-1"};
    assert rules.fields["aws_instance.i-1"] == ["tags.*"];
    assert rules.fields == map["aws_instance.i-1" := ["tags.*"]];
    var pattern := Split("tags.*", unescape);
    assert pattern == Split(["tags.*"][0], unescape);
    assert Lower("tags") == "tags";
    assert PatternMatches(pattern, ["tags", "Name"]);
    assert Lower("metadata")[0] == 'm';
    assert !PatternMatches(pattern, ["metadata", "tags"]);
  }

  /** Unescaping leaves the words of the escape example plain and removes
      the escape from `a\.b`. */
  predicate EscapeWords(unescape: string -> string)
  {
    unescape("t") == "t" && unescape("i") == "i" && unescape("a\\.b") == "a.b" &&
    unescape("a") == "a" && unescape("b") == "b"
  }

  lemma EscapedFieldSplit(unescape: string -> string)
    requires EscapeWords(unescape)
    ensures Split("t.i.a\\.b", unescape) == ["t", "i", "a.b"]
    ensures Split("a.b", unescape) == ["a", "b"]
  {
    DotFreeNoSplit("b");
    NoSplitOneSegment("b");
    DotFreeNoSplit("a\\");
    EscapedDot("a\\", "b");
    assert "a\\" + "." + "b" == "a\\.b";
    DotFreeNoSplit("i");
    SplitAtDot("i", "a\\.b");
    assert "i" + "." + "a\\.b" == "i.a\\.b";
    DotFreeNoSplit("t");
    SplitAtDot("t", "i.a\\.b");
    assert "t" + "." + "i.a\\.b" == "t.i.a\\.b";
    NoDotOneSegment("b", unescape);
    DotFreeNoSplit("a");
    SplitAtDot("a", "b");
    assert "a" + "." + "b" == "a.b";
  }

  /** A field rule is stored as the join of its already unescaped path
      segments, and isExcluded splits it again: the rule `t.i.a\.b` files
      the pattern `a.b`, which then reads as the two segments `a` and `b`.
      It therefore matches the change path `a`, `b` and never the single
      field `a.b` the escape named. */
  lemma EscapedFieldDotLost(unescape: string -> string)
    requires EscapeWords(unescape)
    ensures var rules := AddLines(NoRules, ["t.i.a\\.b"], unescape);
      && rules.fields == map["t.i" := ["a.b"]]
      && !AnyRuleMatches(["a.b"], ["a.b"], unescape)
      && AnyRuleMatches(["a.b"], ["a", "b"], unescape)
  {
    EscapedFieldSplit(unescape);
    var segments := Split("t.i.a\\.b", unescape);
    assert Join(segments[..2], ".") == "t.i";
    assert segments[2..] == ["a.b"];
    assert Join(segments[2..], ".") == "a.b";
    LineEffect(NoRules, "t.i.a\\.b", unescape);
    var rules := AddLines(NoRules, ["t.i.a\\.b"], unescape);
    assert rules.fields.Keys == {"t.i"};
    assert rules.fields["t.i"] == ["a.b"];
    assert rules.fields == map["t.i" := ["a.b"]];
    var pattern := Split("a.b", unescape);
    assert pattern == Split(["a.b"][0], unescape);
    assert Lower("a") == "a" && Lower("b") == "b";
    assert PatternMatches(pattern, ["a", "b"]);
  }

  /** A resource is ignored after reading a file exactly when some
      two-segment line of it names `type.id` or `type.*`. */
  lemma ResourceIgnoredByFile(d: DriftIgnore, lines: seq<string>, res: Resource)
    requires d.Current() == AddLines(NoRules, lines, d.unescape)
    ensures d.IsResourceIgnored(res) <==>
      exists k :: 0 <= k < |lines| && |Split(lines[k], d.unescape)| == 2 &&
        Join(Split(lines[k], d.unescape), ".") in {ResourceKey(res), WildcardKey(res)}
  {
    ResourceRulesOfLines(NoRules, lines, d.unescape, ResourceKey(res));
    ResourceRulesOfLines(NoRules, lines, d.unescape, WildcardKey(res));
  }

  /** After reading a file, the field rules IsFieldIgnored consults for a
      key are exactly the patterns the file's lines give that key, in file
      order, and a key without such a line has no entry. */
  lemma FieldRulesByFile(d: DriftIgnore, lines: seq<string>, key: string)
    requires d.Current() == AddLines(NoRules, lines, d.unescape)
    ensures key in d.driftExclusionList <==> PatternsFor(lines, key, d.unescape) != []
    ensures key in d.driftExclusionList ==> d.driftExclusionList[key] == PatternsFor(lines, key, d.unescape)
  {
    FieldRulesOfLines(NoRules, lines, d.unescape, key);
  }

  /** The rule `aws_iam_user_policy.*` ignores every resource of that type,
      whatever its id, and no resource of any other type. */
  lemma WildcardResourceExample(d: DriftIgnore, res: Resource)
    requires d.unescape("aws_iam_user_policy") == "aws_iam_user_policy" && d.unescape("*") == "*"
    requires d.Current() == AddLines(NoRules, ["aws_iam_user_policy.*"], d.unescape)
    ensures res.resourceType == "aws_iam_user_policy" ==> d.IsResourceIgnored(res)
    ensures res.resourceType != "aws_iam_user_policy" ==> !d.IsResourceIgnored(res)
  {
    var rule := "aws_iam_user_policy.*";
    NoDotOneSegment("*", d.unescape);
    DotFreeNoSplit("aws_iam_user_policy");
    SplitAtDot("aws_iam_user_policy", "*");
    assert "aws_iam_user_policy" + "." + "*" == rule;
    assert Split(rule, d.unescape) == ["aws_iam_user_policy", "*"];
    LineEffect(NoRules, rule, d.unescape);
    assert d.resExclusionList == {rule};
    if res.resourceType == "aws_iam_user_policy" {
      assert WildcardKey(res) == rule;
    } else {
      PolicyRuleType(res.resourceType, res.id);
    }
  }

  /** The rule holds a single dot, so only its first word can precede it. */
  lemma PolicyRuleType(t: string, rest: string)
    ensures t + "." + rest == "aws_iam_user_policy.*" ==> t == "aws_iam_user_policy"
    ensures t + ".*" == "aws_iam_user_policy.*" ==> t == "aws_iam_user_policy"
  {
    var rule := "aws_iam_user_policy.*";
    if t + "." + rest == rule || t + ".*" == rule {
      assert rule[|t|] == '.';
      forall j | 0 <= j < |rule| && rule[j] == '.' ensures j == 19 {
      }
      assert t == rule[..19];
    }
  }

}
