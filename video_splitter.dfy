/** VideoSplitterTool.split_video: for each {start, end} pair, one ffmpeg cut
    of end - start seconds from `start`, written next to the source as
    `<dir>/<name>_<token>_NN<ext>` (NN the 1-based position, two digits) when
    there are several segments and `<dir>/<name>_<token><ext>` when there is one. */
module VideoSplitter {
  import opened Outcomes
  import opened PyPath
  import opened SegmentCalculator

  /** The name token used when the request gives none. */
  const DefaultToken := "segment"

  /** One cut the splitter requests from ffmpeg: seek to `offset`, take
      `length` seconds, write `target`. */
  datatype Cut = Cut(offset: real, length: real, target: string)

  predicate IsDigit(c: char) {
    '0' <= c <= '9'
  }

  predicate AllDigits(s: string) {
    forall k :: 0 <= k < |s| ==> IsDigit(s[k])
  }

  function DigitChar(d: int): (c: char)
    requires 0 <= d < 10
    ensures IsDigit(c) && c as int - '0' as int == d
  {
    ('0' as int + d) as char
  }

  /** The decimal numeral of n, without leading zeros (Python's str(n)). */
  function Decimal(n: nat): (s: string)
    ensures |s| >= 1 && AllDigits(s)
    ensures n < 10 <==> |s| == 1
    ensures n < 100 ==> |s| <= 2
  {
    if n < 10 then [DigitChar(n)] else Decimal(n / 10) + [DigitChar(n % 10)]
  }

  /** The number a string of decimal digits denotes. */
  function DigitsValue(s: string): nat
    requires AllDigits(s)
  {
    if s == [] then 0 else DigitsValue(s[..|s| - 1]) * 10 + (s[|s| - 1] as int - '0' as int)
  }

  /** f'{n:02}': the decimal numeral of n, zero-padded to at least two digits. */
  function Pad2(n: nat): (s: string)
    ensures AllDigits(s) && |s| >= 2
    ensures n < 100 ==> |s| == 2
  {
    if n < 10 then "0" + Decimal(n) else Decimal(n)
  }

  lemma {:induction false} DecimalRoundTrip(n: nat)
    ensures DigitsValue(Decimal(n)) == n
  {
    if n >= 10 {
      DecimalRoundTrip(n / 10);
      var s := Decimal(n);
      assert s[..|s| - 1] == Decimal(n / 10);
    }
  }

  lemma {:induction false} LeadingZero(s: string)
    requires AllDigits(s)
    ensures AllDigits("0" + s) && DigitsValue("0" + s) == DigitsValue(s)
  {
    var z := "0" + s;
    if s != [] {
      assert z[..|z| - 1] == "0" + s[..|s| - 1];
      LeadingZero(s[..|s| - 1]);
    }
  }

  /** The two-digit sequence number reads back as the number it encodes. */
  lemma Pad2RoundTrip(n: nat)
    ensures DigitsValue(Pad2(n)) == n
  {
    DecimalRoundTrip(n);
    if n < 10 { LeadingZero(Decimal(n)); }
  }

  /** The output name stem of segment i (1-based) out of n, before the extension. */
  function SegmentStem(nam: string, token: string, i: nat, n: nat): string {
    nam + "_" + token + (if n > 1 then "_" + Pad2(i) else "")
  }

  /** The output path of segment i (1-based) out of n, from the source's
      directory, name and extension. */
  function TargetIn(dir: string, nam: string, ext: string, token: string, i: nat, n: nat): string {
    Join(dir, nam + "_" + token + (if n > 1 then "_" + Pad2(i) + ext else ext))
  }

  /** The output path of segment i (1-based) out of n cut from `mov`. */
  function SegmentTarget(mov: string, token: string, i: nat, n: nat): string {
    var parts := SourceParts(mov);
    TargetIn(parts.0, parts.1, parts.2, token, i, n)
  }

  /** The cuts split_video requests: one per segment, in order, each
      end - start seconds long from its start, the k-th (0-based) written to
      the target of position k + 1. */
  function Cuts(mov: string, token: string, segments: seq<Segment>): seq<Cut> {
    var parts := SourceParts(mov);
    CutsIn(parts.0, parts.1, parts.2, token, segments)
  }

  /** Cuts, from the source's directory, name and extension. */
  function CutsIn(dir: string, nam: string, ext: string, token: string, segments: seq<Segment>): seq<Cut> {
    seq(|segments|, k requires 0 <= k < |segments| =>
      Cut(segments[k].start, segments[k].end - segments[k].start,
          TargetIn(dir, nam, ext, token, k + 1, |segments|)))
  }

  /** The result of split_video: not found, no segments, or the cuts. */
  function SplitPlan(mov: string, sourceExists: bool, segments: seq<Segment>, outputName: Option<string>)
    : Result<seq<Cut>, ToolError>
  {
    if !sourceExists then Failure(NotFound(mov))
    else if segments == [] then Failure(NoSegments)
    else Success(Cuts(mov, outputName.GetOr(DefaultToken), segments))
  }

  /** split_video, loop by loop (the ffmpeg runs themselves are left out). */
  method SplitVideo(mov: string, sourceExists: bool, segments: seq<Segment>, outputName: Option<string>)
    returns (r: Result<seq<Cut>, ToolError>)
    ensures r == SplitPlan(mov, sourceExists, segments, outputName)
  {
    var token := outputName.GetOr(DefaultToken);
    if !sourceExists {
      return Failure(NotFound(mov));
    }
    if segments == [] {
      return Failure(NoSegments);
    }
    var parts := SourceParts(mov);
    var outputFiles := CutEach(parts.0, parts.1, parts.2, token, segments);
    return Success(outputFiles);
  }

  /** The loop of split_video over the segments, numbering them from 1. */
  method CutEach(pth: string, nam: string, ext: string, token: string, segments: seq<Segment>)
    returns (outputFiles: seq<Cut>)
    ensures outputFiles == CutsIn(pth, nam, ext, token, segments)
  {
    ghost var planned := CutsIn(pth, nam, ext, token, segments);
    outputFiles := [];
    for i := 1 to |segments| + 1
      invariant outputFiles == planned[..i - 1]
    {
      var start := segments[i - 1].start;
      var end := segments[i - 1].end;
      var sfx := if |segments| > 1 then "_" + Pad2(i) + ext else ext;
      var out := Join(pth, nam + "_" + token + sfx);
      assert planned[i - 1] == Cut(start, end - start, out);
      PrefixGrows(planned, i - 1);
      outputFiles := outputFiles + [Cut(start, end - start, out)];
    }
    assert planned[..|segments|] == planned;
  }

  lemma PrefixGrows<T>(s: seq<T>, j: nat)
    requires j < |s|
    ensures s[..j + 1] == s[..j] + [s[j]]
  {
  }

  /** One cut per segment, in input order: the k-th seeks to the segment's
      start, lasts end - start, and writes the output path of position k + 1. */
  lemma CutsShape(mov: string, token: string, segments: seq<Segment>)
    ensures var r := Cuts(mov, token, segments);
      |r| == |segments| &&
      forall k :: 0 <= k < |r| ==>
        r[k].offset == segments[k].start && r[k].length == segments[k].end - segments[k].start &&
        r[k].target == SegmentTarget(mov, token, k + 1, |segments|)
  {
  }

  /** Joining under one directory keeps relative names apart. */
  lemma JoinInjective(d: string, b1: string, b2: string)
    requires |b1| > 0 && b1[0] != '/' && |b2| > 0 && b2[0] != '/'
    requires Join(d, b1) == Join(d, b2)
    ensures b1 == b2
  {
    if !(d == "" || d[|d| - 1] == '/') {
      assert (d + "/" + b1)[|d| + 1..] == b1;
      assert (d + "/" + b2)[|d| + 1..] == b2;
    } else {
      assert (d + b1)[|d|..] == b1;
      assert (d + b2)[|d|..] == b2;
    }
  }

  /** With several segments, no two positions share an output path, so no cut
      overwrites another (the tool deletes an existing target before writing). */
  lemma SegmentTargetsDistinct(mov: string, token: string, n: nat, i: nat, j: nat)
    requires n > 1 && i != j
    ensures SegmentTarget(mov, token, i, n) != SegmentTarget(mov, token, j, n)
  {
    var parts := SourceParts(mov);
    TargetInDistinct(parts.0, parts.1, parts.2, token, n, i, j);
  }

  lemma TargetInDistinct(dir: string, nam: string, ext: string, token: string, n: nat, i: nat, j: nat)
    requires '/' !in nam && n > 1 && i != j
    ensures TargetIn(dir, nam, ext, token, i, n) != TargetIn(dir, nam, ext, token, j, n)
  {
    var p := nam + "_" + token + "_";
    var bi := nam + "_" + token + ("_" + Pad2(i) + ext);
    var bj := nam + "_" + token + ("_" + Pad2(j) + ext);
    Regroup(nam + "_" + token, Pad2(i), ext);
    Regroup(nam + "_" + token, Pad2(j), ext);
    NumberedNamesDistinct(p, ext, i, j);
    NoLeadingSlash(nam, "_" + token + ("_" + Pad2(i) + ext));
    NoLeadingSlash(nam, "_" + token + ("_" + Pad2(j) + ext));
    if TargetIn(dir, nam, ext, token, i, n) == TargetIn(dir, nam, ext, token, j, n) {
      JoinInjective(dir, bi, bj);
    }
  }

  lemma Regroup(q: string, digits: string, ext: string)
    ensures q + ("_" + digits + ext) == q + "_" + digits + ext
  {
  }

  lemma NoLeadingSlash(nam: string, rest: string)
    requires '/' !in nam && rest != [] && rest[0] != '/'
    ensures (nam + rest)[0] != '/'
  {
    if nam != [] { assert nam[0] in nam; }
  }

  /** Names that differ only in their sequence number differ. */
  lemma NumberedNamesDistinct(p: string, ext: string, i: nat, j: nat)
    requires i != j
    ensures p + Pad2(i) + ext != p + Pad2(j) + ext
  {
    var a, b := p + Pad2(i) + ext, p + Pad2(j) + ext;
    if a == b {
      assert |Pad2(i)| == |Pad2(j)|;
      assert a[|p|..|p| + |Pad2(i)|] == Pad2(i);
      assert b[|p|..|p| + |Pad2(j)|] == Pad2(j);
      Pad2RoundTrip(i);
      Pad2RoundTrip(j);
    }
  }


  /** When the source has an extension and the token no separator, every
      output path parses back into the source's directory, the segment's stem
      and the source's extension. */
  lemma SegmentTargetParsesBack(mov: string, token: string, i: nat, n: nat)
    requires SourceParts(mov).2 != "" && '/' !in token
    ensures var (dir, nam, ext) := SourceParts(mov);
      var stem := SegmentStem(nam, token, i, n);
      SplitExt(SegmentTarget(mov, token, i, n)) == (Join(dir, stem), ext) &&
      Split(Join(dir, stem)) == (dir, stem)
  {
    var parts := SourceParts(mov);
    TargetInParsesBack(parts.0, parts.1, parts.2, token, i, n);
  }

  lemma TargetInParsesBack(dir: string, nam: string, ext: string, token: string, i: nat, n: nat)
    requires NormalDir(dir) && '/' !in nam && ProperExt(ext) && '/' !in token
    ensures var stem := SegmentStem(nam, token, i, n);
      SplitExt(TargetIn(dir, nam, ext, token, i, n)) == (Join(dir, stem), ext) &&
      Split(Join(dir, stem)) == (dir, stem)
  {
    var stem := SegmentStem(nam, token, i, n);
    StemHasNoSeparator(nam, token, i, n);
    StemIsNamed(nam, token, i, n);
    TargetInIsStemExt(dir, nam, ext, token, i, n);
    DerivedPathParsesBack(dir, stem, ext);
  }

  lemma StemIsNamed(nam: string, token: string, i: nat, n: nat)
    ensures HasNonDot(SegmentStem(nam, token, i, n), 0, |SegmentStem(nam, token, i, n)|)
  {
    var stem := SegmentStem(nam, token, i, n);
    var tail := if n > 1 then "_" + Pad2(i) else "";
    assert stem == nam + "_" + token + tail;
    assert stem[|nam|] == '_';
  }

  lemma TargetInIsStemExt(dir: string, nam: string, ext: string, token: string, i: nat, n: nat)
    ensures TargetIn(dir, nam, ext, token, i, n) == Join(dir, SegmentStem(nam, token, i, n) + ext)
  {
    if n > 1 {
      assert nam + "_" + token + ("_" + Pad2(i) + ext) == nam + "_" + token + ("_" + Pad2(i)) + ext;
    } else {
      assert nam + "_" + token + "" == nam + "_" + token;
    }
  }

  lemma StemHasNoSeparator(nam: string, token: string, i: nat, n: nat)
    requires '/' !in nam && '/' !in token
    ensures '/' !in SegmentStem(nam, token, i, n)
  {
    var digits := Pad2(i);
    forall k | 0 <= k < |digits| ensures digits[k] != '/' {
      assert IsDigit(digits[k]);
    }
  }

  /** Three segments of clip.mp4 with the default token, and a single one. */
  lemma SplitExamples()
    ensures SegmentTarget("clip.mp4", DefaultToken, 1, 3) == "clip_segment_01.mp4"
    ensures SegmentTarget("clip.mp4", DefaultToken, 2, 3) == "clip_segment_02.mp4"
    ensures SegmentTarget("clip.mp4", DefaultToken, 3, 3) == "clip_segment_03.mp4"
    ensures SegmentTarget("media/clip.mp4", "thirds", 1, 1) == "media/clip_thirds.mp4"
  {
    SourcePartsExample();
    TargetInExample();
  }

  lemma TargetInExample()
    ensures TargetIn("", "clip", ".mp4", DefaultToken, 1, 3) == "clip_segment_01.mp4"
    ensures TargetIn("", "clip", ".mp4", DefaultToken, 2, 3) == "clip_segment_02.mp4"
    ensures TargetIn("", "clip", ".mp4", DefaultToken, 3, 3) == "clip_segment_03.mp4"
    ensures TargetIn("media", "clip", ".mp4", "thirds", 1, 1) == "media/clip_thirds.mp4"
  {
    Pad2Example();
    NumberedNameExample();
    assert "clip" + "_" + "thirds" + ".mp4" == "clip_thirds.mp4";
  }

  lemma NumberedNameExample()
    ensures "clip" + "_" + DefaultToken + ("_" + "01" + ".mp4") == "clip_segment_01.mp4"
    ensures "clip" + "_" + DefaultToken + ("_" + "02" + ".mp4") == "clip_segment_02.mp4"
    ensures "clip" + "_" + DefaultToken + ("_" + "03" + ".mp4") == "clip_segment_03.mp4"
  {
    var p := "clip_segment";
    assert "clip" + "_" + DefaultToken == p;
  }


  lemma Pad2Example()
    ensures Pad2(1) == "01" && Pad2(2) == "02" && Pad2(3) == "03"
  {
  }
}
