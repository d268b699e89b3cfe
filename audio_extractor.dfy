/** AudioExtractorTool.extract_audio: the audio track of `mov` goes to
    `<dir>/<name>.mp3`, where <name> is the requested output name with every
    trailing ".mp3" (any letter case) removed, or the video's own name when
    nothing is left. */
module AudioExtractor {
  import opened Outcomes
  import opened PyPath

  const Mp3 := ".mp3"

  /** out_name.lower().endswith('.mp3') */
  predicate EndsWithMp3(s: string) {
    |s| >= 4 && s[|s| - 4] == '.' &&
    (s[|s| - 3] == 'm' || s[|s| - 3] == 'M') &&
    (s[|s| - 2] == 'p' || s[|s| - 2] == 'P') &&
    s[|s| - 1] == '3'
  }

  /** A name ending in ".mp3" loses exactly those four characters to splitext,
      or nothing at all. */
  lemma SplitExtOfMp3(s: string)
    requires EndsWithMp3(s)
    ensures SplitExt(s).0 == s || SplitExt(s).0 == s[..|s| - 4]
  {
    LastIndexIs(s, '.', |s| - 4);
  }

  /** The cleanup loop of extract_audio ends on `name`: each pass that finds
      ".mp3" at the end makes the name shorter. */
  predicate CleanupTerminates(name: string)
    decreases |name|
  {
    EndsWithMp3(name) ==> |SplitExt(name).0| < |name| && CleanupTerminates(SplitExt(name).0)
  }

  /** A name ending in ".mp3" has a named final component: the "m" is not a dot
      and no separator follows it. */
  lemma Mp3Named(s: string)
    requires EndsWithMp3(s)
    ensures NamedComponent(s)
  {
    var sep := LastIndex(s, '/');
    assert sep < |s| - 3;
    assert s[|s| - 3] != '.';
  }

  /** One pass of the cleanup loop on a name ending in ".mp3": splitext drops
      the four characters exactly when what precedes them is a named component. */
  lemma CleanupStep(name: string)
    requires EndsWithMp3(name)
    ensures var m := name[..|name| - 4];
      SplitExt(name).0 == if NamedComponent(m) then m else name
  {
    var t := |name| - 4;
    var m := name[..t];
    LastIndexIs(name, '.', t);
    var sep := LastIndex(name, '/');
    assert sep < t;
    LastIndexIs(m, '/', sep);
    forall k | 0 <= k < t ensures m[k] == name[k] { }
    if HasNonDot(name, sep + 1, t) {
      var k :| sep + 1 <= k < t && name[k] != '.';
      assert m[k] != '.';
    }
    if NamedComponent(m) {
      var k :| sep + 1 <= k < t && m[k] != '.';
      assert name[k] != '.';
    }
  }

  /** The cleanup loop ends exactly on the names that do not end in ".mp3", and
      on those whose cleaned name still has a named final component: it hangs
      on every name ending in ".mp3" whose cleaned name ends in an empty or
      all-dots component (".mp3", "a/.mp3", "..MP3.mp3"). */
  lemma {:induction false} CleanupTerminatesIff(name: string)
    ensures CleanupTerminates(name) <==> (!EndsWithMp3(name) || NamedComponent(StripMp3(name)))
    decreases |name|
  {
    if EndsWithMp3(name) {
      var m := name[..|name| - 4];
      CleanupStep(name);
      assert StripMp3(name) == StripMp3(m);
      CleanupTerminatesIff(m);
      if EndsWithMp3(m) {
        Mp3Named(m);
      }
    }
  }

  /** `name` ends in `n` consecutive ".mp3" extensions, each in any letter case. */
  predicate EndsWithMp3s(name: string, n: nat)
    decreases n
  {
    n == 0 || (EndsWithMp3(name) && EndsWithMp3s(name[..|name| - 4], n - 1))
  }

  /** `name` with every trailing ".mp3" removed, any letter case: what is
      removed is a run of ".mp3" extensions, and what is left does not end in
      one (a name that does not end in ".mp3" is kept whole). */
  function StripMp3(name: string): (r: string)
    ensures |r| <= |name| && r == name[..|r|]
    ensures !EndsWithMp3(r)
    ensures (|name| - |r|) % 4 == 0 && EndsWithMp3s(name, (|name| - |r|) / 4)
    ensures !EndsWithMp3(name) ==> r == name
  {
    if EndsWithMp3(name) then
      var r := StripMp3(name[..|name| - 4]);
      assert name[..|name| - 4][..|r|] == name[..|r|];
      r
    else name
  }

  /** The contract of StripMp3 leaves no choice: any prefix that is reached
      by removing a run of ".mp3" extensions and no longer ends in one is the
      cleaned name. */
  lemma {:induction false} StripMp3Unique(name: string, r: string)
    requires |r| <= |name| && r == name[..|r|] && !EndsWithMp3(r)
    requires (|name| - |r|) % 4 == 0 && EndsWithMp3s(name, (|name| - |r|) / 4)
    ensures r == StripMp3(name)
    decreases |name|
  {
    if |r| == |name| {
      assert r == name;
    } else {
      var m := name[..|name| - 4];
      assert m[..|r|] == r;
      StripMp3Unique(m, r);
    }
  }

  /** Supplying a name that already carries the extension changes nothing. */
  lemma StripMp3Absorbs(name: string, suffix: string)
    requires |suffix| == 4 && EndsWithMp3(suffix)
    ensures StripMp3(name + suffix) == StripMp3(name)
  {
    var s := name + suffix;
    assert EndsWithMp3(s);
    assert s[..|s| - 4] == name;
  }

  /** The cleanup loop as written: while the name ends in ".mp3", replace it by
      the root splitext gives. When the loop ends, its result is the name with
      every trailing ".mp3" removed. */
  method CleanupOutputName(outName: string) returns (stem: string)
    requires CleanupTerminates(outName)
    ensures stem == StripMp3(outName)
  {
    stem := outName;
    while true
      invariant CleanupTerminates(stem)
      invariant StripMp3(stem) == StripMp3(outName)
      decreases |stem|
    {
      if EndsWithMp3(stem) {
        SplitExtOfMp3(stem);
        var parts := SplitExt(stem);
        stem := parts.0;
      } else {
        break;
      }
    }
  }

  /** The audio output path for a cleaned name: the video's own name when the
      cleaned name is empty. */
  function AudioPath(mov: string, stem: string): string {
    var parts := SourceParts(mov);
    Join(parts.0, (if stem == "" then parts.1 else stem) + Mp3)
  }

  /** extract_audio's output path as the code has it: an omitted output name
      reaches `.lower()` as None and fails there. */
  function AudioTargetAsWritten(mov: string, outName: Option<string>): Result<string, ToolError>
    requires outName.Some? ==> CleanupTerminates(outName.value)
  {
    match outName
    case None => Failure(OutputNameMissing)
    case Some(n) => Success(AudioPath(mov, StripMp3(n)))
  }

  /** extract_audio, loop by loop (the ffmpeg run is left out). */
  method ExtractAudio(mov: string, sourceExists: bool, outName: Option<string>)
    returns (r: Result<string, ToolError>)
    requires sourceExists && outName.Some? ==> CleanupTerminates(outName.value)
    ensures r == if !sourceExists then Failure(NotFound(mov)) else AudioTargetAsWritten(mov, outName)
  {
    if !sourceExists {
      return Failure(NotFound(mov));
    }
    if outName.None? {
      return Failure(OutputNameMissing);
    }
    var parts := SourceParts(mov);
    var pth, nam := parts.0, parts.1;
    var stem := CleanupOutputName(outName.value);
    var out := if stem == "" then Join(pth, nam + Mp3) else Join(pth, stem + Mp3);
    return Success(out);
  }

  /** The output path as evidently intended: an omitted name falls back to the
      video's name, and the cleanup strips trailing ".mp3" on every name. */
  function AudioTarget(mov: string, outName: Option<string>): string {
    AudioPath(mov, StripMp3(outName.GetOr("")))
  }

  /** Where the code ends, it agrees with the intended output path. */
  lemma AudioTargetAgrees(mov: string, outName: string)
    requires CleanupTerminates(outName)
    ensures AudioTargetAsWritten(mov, Some(outName)) == Success(AudioTarget(mov, Some(outName)))
  {
  }

  /** An omitted output name makes the code fail ... */
  lemma OmittedNameFails(mov: string)
    ensures AudioTargetAsWritten(mov, None).Failure?
  {
  }

  /** ... where the intended behaviour is the video's own name with ".mp3". */
  lemma OmittedNameFallsBack(mov: string)
    ensures AudioTarget(mov, None) == Join(SourceParts(mov).0, SourceParts(mov).1 + Mp3)
    ensures AudioTarget(mov, None) == AudioTarget(mov, Some(".mp3"))
  {
    assert StripMp3(".mp3") == StripMp3("") by { StripMp3Absorbs("", ".mp3"); }
  }

  /** A name made of dots and then ".mp3" keeps the cleanup loop turning:
      splitext returns it unchanged, so it still ends in ".mp3". */
  lemma DotsThenMp3Hangs()
    ensures EndsWithMp3(".mp3") && SplitExt(".mp3") == (".mp3", "")
    ensures !CleanupTerminates(".mp3")
  {
    LastIndexIs(".mp3", '/', -1);
    LastIndexIs(".mp3", '.', 0);
  }

  /** A name without separators that does not start with a dot always lets the
      cleanup loop end. */
  lemma {:induction false} PlainNameTerminates(name: string)
    requires '/' !in name && (name == "" || name[0] != '.')
    ensures CleanupTerminates(name)
    decreases |name|
  {
    if EndsWithMp3(name) {
      var t := |name| - 4;
      LastIndexIs(name, '/', -1);
      LastIndexIs(name, '.', t);
      assert t > 0;
      assert HasNonDot(name, 0, t);
      var root := SplitExt(name).0;
      assert root == name[..t];
      assert root[0] == name[0];
      assert '/' !in root by {
        forall k | 0 <= k < |root| ensures root[k] != '/' { assert root[k] == name[k]; }
      }
      PlainNameTerminates(root);
    }
  }

  /** Whenever the cleaned name is not empty, the output ends in ".mp3" once:
      the extension is never doubled. */
  lemma AudioTargetSingleExtension(mov: string, outName: Option<string>)
    requires StripMp3(outName.GetOr("")) != ""
    ensures var out := AudioTarget(mov, outName);
      |out| >= 4 && out[|out| - 4..] == Mp3 && !EndsWithMp3(out[..|out| - 4])
  {
    var stem := StripMp3(outName.GetOr(""));
    var dir := SourceParts(mov).0;
    var out := AudioTarget(mov, outName);
    var j := Join(dir, stem);
    if stem[0] == '/' {
      assert j == stem && out == stem + Mp3;
    } else {
      JoinAppend(dir, stem, Mp3);
    }
    assert out == j + Mp3;
    assert out[..|out| - 4] == j;
    JoinKeepsNoMp3(dir, stem);
  }

  /** Joining a name that does not end in ".mp3" under a directory gives a path
      that does not either. */
  lemma JoinKeepsNoMp3(d: string, stem: string)
    requires stem != "" && !EndsWithMp3(stem)
    ensures !EndsWithMp3(Join(d, stem))
  {
    if stem[0] != '/' && d != "" {
      var head := if d[|d| - 1] == '/' then d else d + "/";
      assert Join(d, stem) == head + stem;
      SlashThenNoMp3(head, stem);
    }
  }

  /** A name that does not end in ".mp3", after anything ending in a separator,
      does not end in ".mp3" either. */
  lemma SlashThenNoMp3(head: string, stem: string)
    requires head != "" && head[|head| - 1] == '/' && !EndsWithMp3(stem)
    ensures !EndsWithMp3(head + stem)
  {
    var j := head + stem;
    var n := |j|;
    if |stem| >= 4 {
      assert j[n - 4] == stem[|stem| - 4] && j[n - 3] == stem[|stem| - 3];
      assert j[n - 2] == stem[|stem| - 2] && j[n - 1] == stem[|stem| - 1];
    } else if n >= 4 {
      assert j[|head| - 1] == '/';
    }
  }

  /** A requested "audio.mp3" for clip.mp4 yields audio.mp3, not audio.mp3.mp3. */
  lemma AudioExample()
    ensures AudioTarget("clip.mp4", Some("audio.mp3")) == "audio.mp3"
    ensures AudioTarget("clip.mp4", Some("audio.MP3.mp3")) == "audio.mp3"
    ensures AudioTarget("clip.mp4", None) == "clip.mp3"
  {
    SourcePartsExample();
    StripExample();
    JoinExample();
  }

  lemma JoinExample()
    ensures Join("", "audio" + Mp3) == "audio.mp3"
    ensures Join("", "clip" + Mp3) == "clip.mp3"
  {
    assert "audio" + Mp3 == "audio.mp3";
    assert "clip" + Mp3 == "clip.mp3";
  }

  lemma StripExample()
    ensures StripMp3("audio.mp3") == "audio"
    ensures StripMp3("audio.MP3.mp3") == "audio"
    ensures StripMp3("") == ""
  {
    assert "audio.mp3"[..5] == "audio";
    assert "audio.MP3.mp3"[..9] == "audio.MP3";
    assert "audio.MP3"[..5] == "audio";
  }
}
