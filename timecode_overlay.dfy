/** VideoTimecodeOverlayTool.add_timecode_overlay: the video with an elapsed
    time burned in goes to `<dir>/<name><suffix><ext>`, next to the source,
    with the suffix "_timecoded" unless the request names another. */
module TimecodeOverlay {
  import opened Outcomes
  import opened PyPath

  /** The suffix used when the request gives none. */
  const DefaultSuffix := "_timecoded"

  /** The output path of the overlay. */
  function TimecodeTarget(mov: string, outName: Option<string>): string {
    var parts := SourceParts(mov);
    TimecodeIn(parts.0, parts.1, parts.2, outName.GetOr(DefaultSuffix))
  }

  /** The output path from the source's directory, name and extension. */
  function TimecodeIn(dir: string, nam: string, ext: string, suffix: string): string {
    Join(dir, nam + suffix + ext)
  }

  /** add_timecode_overlay: not found, or the output path (the ffmpeg run and
      its drawtext filter are left out). */
  function AddTimecodeOverlay(mov: string, sourceExists: bool, outName: Option<string>)
    : Result<string, ToolError>
  {
    if !sourceExists then Failure(NotFound(mov)) else Success(TimecodeTarget(mov, outName))
  }

  /** When the source has an extension, the output keeps the source's directory
      and extension and its name is the source's name followed by the suffix. */
  lemma TimecodeTargetParsesBack(mov: string, outName: Option<string>)
    requires SourceParts(mov).2 != ""
    requires '/' !in outName.GetOr(DefaultSuffix)
    requires HasNonDot(SourceParts(mov).1 + outName.GetOr(DefaultSuffix), 0,
                       |SourceParts(mov).1 + outName.GetOr(DefaultSuffix)|)
    ensures var parts := SourceParts(mov);
      var stem := parts.1 + outName.GetOr(DefaultSuffix);
      SplitExt(TimecodeTarget(mov, outName)) == (Join(parts.0, stem), parts.2) &&
      Split(Join(parts.0, stem)) == (parts.0, stem)
  {
    var parts := SourceParts(mov);
    var suffix := outName.GetOr(DefaultSuffix);
    var stem := parts.1 + suffix;
    assert '/' !in stem by {
      forall k | 0 <= k < |stem| ensures stem[k] != '/' {
        if k < |parts.1| { assert stem[k] == parts.1[k]; } else { assert stem[k] == suffix[k - |parts.1|]; }
      }
    }
    DerivedPathParsesBack(parts.0, stem, parts.2);
  }

  /** With the default suffix the conditions above reduce to the source having
      an extension. */
  lemma DefaultSuffixParsesBack(mov: string)
    requires SourceParts(mov).2 != ""
    ensures var parts := SourceParts(mov);
      SplitExt(TimecodeTarget(mov, None)) == (Join(parts.0, parts.1 + DefaultSuffix), parts.2) &&
      Split(Join(parts.0, parts.1 + DefaultSuffix)) == (parts.0, parts.1 + DefaultSuffix)
  {
    var nam := SourceParts(mov).1;
    var stem := nam + DefaultSuffix;
    assert stem[|nam|] == '_';
    assert HasNonDot(stem, 0, |stem|);
    assert '/' !in DefaultSuffix;
    TimecodeTargetParsesBack(mov, None);
  }

  /** A non-empty suffix without separators never makes the output the source
      itself, which the tool would delete before writing. */
  lemma TimecodeTargetIsNotSource(mov: string, outName: Option<string>)
    requires outName.GetOr(DefaultSuffix) != "" && '/' !in outName.GetOr(DefaultSuffix)
    ensures TimecodeTarget(mov, outName) != mov
  {
    var parts := SourceParts(mov);
    var suffix := outName.GetOr(DefaultSuffix);
    var stem := parts.1 + suffix;
    assert '/' !in stem by {
      forall k | 0 <= k < |stem| ensures stem[k] != '/' {
        if k < |parts.1| { assert stem[k] == parts.1[k]; } else { assert stem[k] == suffix[k - |parts.1|]; }
      }
    }
    assert parts.1 + suffix + parts.2 == stem + parts.2;
    DerivedPathDiffersFromSource(mov, stem);
  }

  /** An empty suffix names the source's own final component in the source's
      directory: the same file, which the tool would delete before writing. */
  lemma EmptySuffixKeepsComponent(mov: string)
    ensures Split(TimecodeTarget(mov, Some(""))) == (SourceParts(mov).0, Split(mov).1)
  {
    var parts := SourceParts(mov);
    var b := parts.1 + parts.2;
    assert parts.1 + "" + parts.2 == b;
    assert '/' !in b by {
      forall k | 0 <= k < |b| ensures b[k] != '/' {
        if k < |parts.1| { assert b[k] == parts.1[k]; } else { assert b[k] == parts.2[k - |parts.1|]; }
      }
    }
    SplitJoinRoundTrip(parts.0, b);
    SourceFinalComponent(mov);
  }

  /** With an empty suffix, clip.mp4 is written to clip.mp4 itself. */
  lemma EmptySuffixIsSource()
    ensures TimecodeTarget("clip.mp4", Some("")) == "clip.mp4"
  {
    SourcePartsExample();
    UnchangedNameExample();
  }

  lemma UnchangedNameExample()
    ensures TimecodeIn("", "clip", ".mp4", "") == "clip.mp4"
  {
    assert "clip" + "" + ".mp4" == "clip.mp4";
  }

  lemma TimecodeExample()
    ensures TimecodeTarget("media/clip.mp4", None) == "media/clip_timecoded.mp4"
  {
    SourcePartsExample();
    TimecodeInExample();
  }

  lemma TimecodeInExample()
    ensures TimecodeIn("media", "clip", ".mp4", DefaultSuffix) == "media/clip_timecoded.mp4"
  {
    var b := "clip" + DefaultSuffix + ".mp4";
    assert b == "clip_timecoded.mp4";
    assert "media" + "/" + b == "media/clip_timecoded.mp4";
  }
}
