# ffmpeg video tools: segment planning and output naming

This project models the self-contained logic of `ffmpeg_tool.py`: the segment
calculator (`VideoSegmentCalculatorTool.calculate_segments`) and the rules that
derive output paths in `VideoSplitterTool.split_video`,
`AudioExtractorTool.extract_audio` and
`VideoTimecodeOverlayTool.add_timecode_overlay`. It then proves what those
rules promise.

Modules:

- `Outcomes` (`outcomes.dfy`): `Option`, `Result` and the tools' error cases.
  The error cases are: file not found, missing inputs, unknown method,
  float "equal" count, no segments, omitted audio name, and (in the
  corrected segment plan only) a negative input.
- `PyPath` (`py_path.dfy`): the parts of Python's `posixpath` the tools call.
  - `splitext` splits at the last dot of the final component, but not when
    only dots precede that dot.
  - `split` returns the head with its trailing separators removed, unless the
    head is made only of separators.
  - `join` takes two arguments.
  - `SourceParts` takes a source path apart the way all three tools do.
- `SegmentCalculator` (`segment_calculator.dfy`):
  - the "equal" and "duration" plans as functions;
  - `calculate_segments` as a method whose two loops are proved to build
    exactly those plans;
  - the tiling, ordering, length and error properties of the plans.
- `VideoSplitter` (`video_splitter.dfy`):
  - the zero-padded sequence numbers;
  - the output path of every segment and the cuts requested;
  - the output loop, proved against that plan;
  - distinct output paths and the parse-back of every output path.
- `AudioExtractor` (`audio_extractor.dfy`):
  - the `.mp3` cleanup loop as written, and exactly which names it fails to
    end on;
  - the output path as written and as evidently intended, and the proof that
    the two agree wherever the code returns.
- `TimecodeOverlay` (`timecode_overlay.dfy`): the overlay output path and its
  parse-back, plus when it can coincide with the source.

Times are exact `real`s. `os.path.exists` is a boolean parameter.

Where the code and the tools' parameter schemas disagree, the model follows
the code. The schemas are at ffmpeg_tool.py:112-127 (the duration is "the length
of the original video clip"), 236-239 (the audio name defaults to the video's
name) and 303-306 (the overlay suffix):

- `calculate_segments` does not refuse a negative duration, count or step.
  - With "duration" and a negative duration, or "equal" with a negative
    count, the loop does not run and the result is empty
    (`SegmentCalculator.PlanAcceptsNegatives`).
  - With "equal", a negative duration and a positive count, the loop still
    runs: every segment ends at the duration, before its own start
    (`SegmentCalculator.EqualPartsInverted`, see "## Findings").
  - With "duration", a positive duration and a negative step, the loop never
    ends (`SegmentCalculator.NegativeStepNeverStops`, see "## Findings").
- A zero duration, count or step is refused as a missing input, not as a
  separate invalid-input error.
- "equal" with a float count, integral or not (`2.0` as well as `2.5`),
  reaches Python's `range()`, which raises. This is modelled as the error
  `CountNotInteger`.
- The `add_timecode_overlay` suffix is used verbatim. An empty suffix names
  the source's own final component in the source's directory, that is the
  source file itself (`TimecodeOverlay.EmptySuffixKeepsComponent`). The path
  string can differ from the source's only by separators, e.g. `a//b.mp4`
  gives `a/b.mp4`.

## Model

| member | source | states |
|---|---|---|
| SegmentCalculator.Terminates | ffmpeg_tool.py:150-156 | The request returns unless it is "duration" with a positive duration and a negative step (the excluded case is `NegativeStepNeverStops`) |
| SegmentCalculator.CalculateSegments | ffmpeg_tool.py:130-160 | On every request that returns (`Terminates`), the result is the plan for the request: missing inputs for any falsy input, an unknown-method error for other methods, a float-count error for "equal" with any float, else the segment list of the chosen method |
| SegmentCalculator.EqualLoop | ffmpeg_tool.py:143-149 | For a non-zero count (zero is refused before as missing), the "equal" loop appends exactly the segments of the equal plan, in order |
| SegmentCalculator.DurationLoop | ffmpeg_tool.py:150-156 | The "duration" loop ends whenever the step is positive or the duration is not, and then holds exactly the segments of the fixed-length plan |
| SegmentCalculator.EqualParts | ffmpeg_tool.py:143-149 | The "equal" plan has `count` segments (none for a count below one), and no end exceeds the duration |
| SegmentCalculator.FixedLength | ffmpeg_tool.py:150-156 | The "duration" plan has as many segments as the loop makes steps, and no end exceeds the duration |
| SegmentCalculator.StepCountBounds | ffmpeg_tool.py:152-156 | With a positive duration and step, the loop runs ceil(duration/step) ≥ 1 times: every start it emits is below the duration, and the next start is not |
| SegmentCalculator.StartAtNext | ffmpeg_tool.py:156 | Each pass advances `start` by exactly one step |
| SegmentCalculator.TilesOrdered | ffmpeg_tool.py:142-156 | In a tiling plan every segment ends no later than any later segment starts |
| SegmentCalculator.TilesCoverFrom | ffmpeg_tool.py:142-156 | In a tiling plan every instant from a segment's start up to the duration lies in that segment or a later one |
| SegmentCalculator.TilesPartition | ffmpeg_tool.py:142-156 | In a tiling plan every instant of [0, duration) lies in exactly one segment |
| SegmentCalculator.EqualSegmentAt | ffmpeg_tool.py:145-148 | With a positive duration, segment i of n runs from i·duration/n to (i+1)·duration/n; the clamp never cuts it short |
| SegmentCalculator.EqualPartsShape | ffmpeg_tool.py:143-149 | With a positive duration, "equal" with n ≥ 1 gives n segments, segment i starts at i·duration/n and is duration/n long |
| SegmentCalculator.EqualPartsContiguous | ffmpeg_tool.py:146-148 | With a positive duration and a count n ≥ 1, each "equal" segment ends where the next begins |
| SegmentCalculator.EqualPartsLastEnd | ffmpeg_tool.py:148 | With a positive duration and a count n ≥ 1, the last "equal" segment ends exactly at the duration |
| SegmentCalculator.EqualPartsTile | ffmpeg_tool.py:143-149 | With a positive duration and a count n ≥ 1, the "equal" plan tiles [0, duration]: it starts at 0, ends at the duration, has no empty segment and no gap |
| SegmentCalculator.FixedSegmentAt | ffmpeg_tool.py:153-156 | With a positive duration and step, segment k of the "duration" plan starts at k·step below the duration, is not empty, ends at the next start, and the last one ends at the duration |
| SegmentCalculator.FixedLengthStarts | ffmpeg_tool.py:151-156 | With a positive duration and step, the "duration" plan has ceil(duration/step) ≥ 1 segments; the first starts at 0 and each later one a step after the previous one |
| SegmentCalculator.FixedLengthStops | ffmpeg_tool.py:153-156 | With a positive duration and step, every emitted start is below the duration, and one more step from the last reaches it |
| SegmentCalculator.FixedLengthLengths | ffmpeg_tool.py:154 | With a positive duration and step, every "duration" segment but the last is one step long; the last is not empty and at most one step long |
| SegmentCalculator.FixedLengthTile | ffmpeg_tool.py:150-156 | With a positive duration and step, the "duration" plan tiles [0, duration] |
| SegmentCalculator.PlanTiles | ffmpeg_tool.py:139-160 | Every valid request with positive inputs succeeds, and its segments tile [0, duration] |
| SegmentCalculator.PlanFailures | ffmpeg_tool.py:139-158 | On every request that returns (`Terminates`): the missing-inputs error comes exactly when an input is falsy; a request fails exactly when an input is falsy, the method is unknown, or "equal" gets a float count (integral or not); an unknown method names itself in the error |
| SegmentCalculator.PlanExamples | ffmpeg_tool.py:143-156 | 10 s in two equal parts gives [0,5],[5,10]; 10 s in 4 s steps gives [0,4],[4,8],[8,10]; 7 s in 7 s steps gives [0,7] |
| SegmentCalculator.PlanAcceptsNegatives | ffmpeg_tool.py:139-156 | For every negative duration and non-zero step, "duration" succeeds with no segments; for every non-zero duration and negative count, so does "equal" |
| SegmentCalculator.EqualPartsInverted | ffmpeg_tool.py:143-149 | "equal" with a negative duration and a count n ≥ 1 still gives n segments, each ending at the duration, before its own start |
| SegmentCalculator.NegativeDurationExample | ffmpeg_tool.py:143-149 | -10 s in two equal parts gives [0,-10] and [-5,-10] |
| SegmentCalculator.NegativeStepNeverStops | ffmpeg_tool.py:150-156 | With a positive duration and a negative step, every value of `start` stays below the duration, so the loop test never fails |
| SegmentCalculator.CheckedPlan | ffmpeg_tool.py:139-160 | The evidently intended plan: the same checks, plus a refusal of a negative duration, count or step; defined on every request |
| SegmentCalculator.CheckedPlanTiles | ffmpeg_tool.py:139-160 | Every plan the corrected calculator accepts tiles [0, duration] |
| SegmentCalculator.CheckedPlanAgrees | ffmpeg_tool.py:139-160 | The correction refuses exactly the well-formed requests with a negative input; on every other request it terminates and returns what calculate_segments returns |
| SegmentCalculator.Missing | ffmpeg_tool.py:139 | An input counts as missing when it is None or falsy: zero, 0.0 or the empty method name |
| SegmentCalculator.Plan | ffmpeg_tool.py:139-160 | The result of calculate_segments by its branches, on every request that returns (`Terminates`): missing inputs, then "equal" (the equal plan, or the float-count error), then "duration" (the fixed-length plan), then the unknown-method error |
| PyPath.LastIndex | ffmpeg_tool.py:200 | The index of the last occurrence of a character, or -1 when there is none |
| PyPath.LastIndexAppend | ffmpeg_tool.py:200-201 | Appending text free of a character leaves that character's last index unchanged |
| PyPath.SplitExt | ffmpeg_tool.py:200 | Root and extension concatenate back to the path; the extension is empty or one leading dot with no further dot or separator; a root with an extension split off keeps a non-dot character in its final component |
| PyPath.RStripSlashes | ffmpeg_tool.py:201 | The result is a prefix, only separators were removed, and it does not end in a separator |
| PyPath.Split | ffmpeg_tool.py:201 | The tail is the separator-free end of the path, the head a prefix without trailing separators (unless it is all separators), and only separators lie between them |
| PyPath.SplitJoinRoundTrip | ffmpeg_tool.py:201-208 | Splitting `join(d, b)` gives back `(d, b)` for a split-style directory and a separator-free name |
| PyPath.ExtRoundTrip | ffmpeg_tool.py:200-208 | `splitext(a + e)` gives back `(a, e)` for a proper extension after a named component |
| PyPath.DerivedPathParsesBack | ffmpeg_tool.py:200-208 | For a directory as `split` returns it, a separator-free stem with a non-dot character and a proper extension (a dot, then no dot or separator), the derived path `join(d, stem + ext)` splits back into `join(d, stem)` and `ext`, and that into `d` and `stem` |
| PyPath.JoinAppend | ffmpeg_tool.py:208 | For a non-empty stem that does not start with a separator, joining `stem + ext` equals joining `stem` and then appending `ext` |
| PyPath.JoinedStemIsNamed | ffmpeg_tool.py:208 | A separator-free stem with a non-dot character, joined under any directory, is a named final component |
| PyPath.Join | ffmpeg_tool.py:208 | `os.path.join(a, b)`: an absolute `b` replaces `a`; otherwise `a` and `b` with one separator between them, unless `a` is empty or already ends with one |
| PyPath.SourceParts | ffmpeg_tool.py:200-201 | The source's directory is split-style, its name has no separator, and its extension is empty or proper |
| PyPath.SourceFinalComponent | ffmpeg_tool.py:200-201 | The source's final component is its name followed by its extension |
| PyPath.TailOfAppend | ffmpeg_tool.py:200-201 | Appending separator-free text to a path extends its final component by that text |
| PyPath.SplitTail | ffmpeg_tool.py:201 | The tail of `split` is everything after the last separator |
| PyPath.DerivedPathDiffersFromSource | ffmpeg_tool.py:208-212 | A path derived next to the source with a separator-free stem of another length is not the source, so deleting an old output never deletes the input |
| PyPath.SourcePartsExample | ffmpeg_tool.py:200-201 | `clip.mp4` is ("", "clip", ".mp4") and `media/clip.mp4` is ("media", "clip", ".mp4") |
| VideoSplitter.Decimal | ffmpeg_tool.py:207 | The numeral is non-empty and all digits, with one digit exactly below 10 and at most two below 100 |
| VideoSplitter.Pad2 | ffmpeg_tool.py:207 | `{i:02}` is all digits, at least two long, and exactly two long below 100 |
| VideoSplitter.DecimalRoundTrip | ffmpeg_tool.py:207 | The numeral reads back as the number |
| VideoSplitter.LeadingZero | ffmpeg_tool.py:207 | A leading zero does not change the value of a numeral |
| VideoSplitter.Pad2RoundTrip | ffmpeg_tool.py:207 | The zero-padded sequence number reads back as the segment's position |
| VideoSplitter.SegmentStem | ffmpeg_tool.py:207-208 | The output stem of position i of n: `nam_<token>_NN` when n > 1, `nam_<token>` otherwise |
| VideoSplitter.TargetIn | ffmpeg_tool.py:207-208 | The output path of position i of n, from the source's directory, name and extension: `join(pth, nam_<token><sfx>)` |
| VideoSplitter.SegmentTarget | ffmpeg_tool.py:200-208 | The output path of position i of n, from the source path itself |
| VideoSplitter.CutsIn | ffmpeg_tool.py:203-221 | The cuts from the source's parts: one per segment, in order, at its start, of length end − start, to the output path of its 1-based position |
| VideoSplitter.Cuts | ffmpeg_tool.py:200-221 | The same cuts, from the source path itself |
| VideoSplitter.SplitPlan | ffmpeg_tool.py:192-223 | The result of split_video: file not found, else no segments for an empty list, else the cuts with the token defaulting to "segment" |
| VideoSplitter.SplitVideo | ffmpeg_tool.py:190-223 | split_video fails with file-not-found, else with no-segments on an empty list, else returns one cut per segment as planned |
| VideoSplitter.CutEach | ffmpeg_tool.py:203-221 | The loop appends, for positions 1..n, the cut at each segment's start, of length end − start, to that position's output path |
| VideoSplitter.CutsShape | ffmpeg_tool.py:204-221 | One cut per segment in input order: the k-th seeks to segment k's start, lasts end − start, and writes output path k + 1 of n |
| VideoSplitter.JoinInjective | ffmpeg_tool.py:208 | Joining two relative names under one directory gives equal paths only for equal names |
| VideoSplitter.SegmentTargetsDistinct | ffmpeg_tool.py:204-212 | With several segments, different positions have different output paths, so no cut deletes or overwrites another |
| VideoSplitter.TargetInDistinct | ffmpeg_tool.py:207-208 | The same, given the source's directory, a separator-free name and the extension |
| VideoSplitter.NumberedNamesDistinct | ffmpeg_tool.py:207 | Names differing only in their sequence number differ |
| VideoSplitter.SegmentTargetParsesBack | ffmpeg_tool.py:199-208 | When the source has an extension and the token no separator, each output path splits back into the source's directory, `name_token[_NN]` and the source's extension |
| VideoSplitter.TargetInParsesBack | ffmpeg_tool.py:207-208 | The same, given a split-style directory, a separator-free name, a proper extension (a dot, then no dot or separator) and a separator-free token |
| VideoSplitter.StemHasNoSeparator | ffmpeg_tool.py:207-208 | The segment stem has no separator when the name and token have none |
| VideoSplitter.StemIsNamed | ffmpeg_tool.py:208 | The segment stem always holds a non-dot character (the `_` after the name) |
| VideoSplitter.TargetInIsStemExt | ffmpeg_tool.py:207-208 | The output path is the segment stem plus the source's extension, joined under the source's directory |
| VideoSplitter.SplitExamples | ffmpeg_tool.py:199-208 | Three segments of `clip.mp4` go to `clip_segment_01.mp4` … `clip_segment_03.mp4`; one segment of `media/clip.mp4` with token "thirds" goes to `media/clip_thirds.mp4` |
| AudioExtractor.SplitExtOfMp3 | ffmpeg_tool.py:263-265 | On a name ending in ".mp3", splitext removes exactly those four characters or nothing |
| AudioExtractor.CleanupTerminates | ffmpeg_tool.py:262-267 | The cleanup loop ends on the name: every pass that finds ".mp3" makes it shorter, down to a name without ".mp3". By `CleanupTerminatesIff` it fails exactly on the names ending in ".mp3" whose cleaned name ends in an empty or all-dots component |
| AudioExtractor.CleanupTerminatesIff | ffmpeg_tool.py:262-267 | The loop ends exactly on the names that do not end in ".mp3" and on those whose cleaned name (every trailing ".mp3" removed) has a final component with a non-dot character; it hangs on all others, such as ".mp3", "a/.mp3" and "..MP3.mp3" |
| AudioExtractor.CleanupStep | ffmpeg_tool.py:263-265 | One pass on a name ending in ".mp3": splitext drops the four characters exactly when what precedes them is a final component with a non-dot character, and otherwise leaves the name unchanged |
| AudioExtractor.EndsWithMp3 | ffmpeg_tool.py:263 | `name.lower().endswith('.mp3')`: the last four characters are ".", "m" or "M", "p" or "P", "3" |
| AudioExtractor.StripMp3 | ffmpeg_tool.py:262-267 | The cleaned name is a prefix of the request that no longer ends in ".mp3" (any case); what was removed is a run of ".mp3" extensions; a request not ending in ".mp3" is kept whole |
| AudioExtractor.StripMp3Unique | ffmpeg_tool.py:262-267 | Those properties leave no choice: any prefix reached by removing a run of ".mp3" extensions that no longer ends in one is the cleaned name |
| AudioExtractor.StripMp3Absorbs | ffmpeg_tool.py:262-267 | Adding one more ".mp3" (any case) to a requested name changes nothing |
| AudioExtractor.CleanupOutputName | ffmpeg_tool.py:262-267 | When the cleanup loop ends, its result is the request with every trailing ".mp3" removed |
| AudioExtractor.AudioPath | ffmpeg_tool.py:269-272 | The audio output for a cleaned name: `join(pth, name + ".mp3")`, with the video's name when the cleaned name is empty |
| AudioExtractor.AudioTargetAsWritten | ffmpeg_tool.py:252-272 | Wherever the cleanup loop ends (`CleanupTerminates`), the code's output path: a failure for an omitted name, else the path for the cleaned name |
| AudioExtractor.AudioTarget | ffmpeg_tool.py:258-272 | The intended output path: an omitted name counts as empty and falls back to the video's name |
| AudioExtractor.ExtractAudio | ffmpeg_tool.py:251-272 | Wherever the cleanup loop ends (`CleanupTerminates`), extract_audio fails with file-not-found, fails on an omitted name, else returns the as-written output path |
| AudioExtractor.AudioTargetAgrees | ffmpeg_tool.py:262-272 | Wherever the cleanup loop ends, the code's output path is the intended one |
| AudioExtractor.OmittedNameFails | ffmpeg_tool.py:252-263 | An omitted output name makes the code fail |
| AudioExtractor.OmittedNameFallsBack | ffmpeg_tool.py:269-270 | Under the intended rule, an omitted name gives the video's own name with ".mp3", the same as a request for ".mp3" |
| AudioExtractor.DotsThenMp3Hangs | ffmpeg_tool.py:262-267 | For ".mp3", splitext returns the name unchanged, so the cleanup loop never ends |
| AudioExtractor.PlainNameTerminates | ffmpeg_tool.py:262-267 | The cleanup loop ends on every separator-free name that does not start with a dot |
| AudioExtractor.AudioTargetSingleExtension | ffmpeg_tool.py:262-272 | When the cleaned name is not empty, the output ends in ".mp3" exactly once: what precedes it does not end in ".mp3" |
| AudioExtractor.JoinKeepsNoMp3 | ffmpeg_tool.py:272 | Joining a non-empty name that does not end in ".mp3" under a directory gives a path that does not either |
| AudioExtractor.SlashThenNoMp3 | ffmpeg_tool.py:272 | A name that does not end in ".mp3", placed after a separator, does not end in ".mp3" either |
| AudioExtractor.AudioExample | ffmpeg_tool.py:258-272 | For `clip.mp4`: "audio.mp3" and "audio.MP3.mp3" give `audio.mp3`, and no name gives `clip.mp3` |
| TimecodeOverlay.TimecodeIn | ffmpeg_tool.py:329 | `join(pth, nam + suffix + ext)` from the source's parts |
| TimecodeOverlay.TimecodeTarget | ffmpeg_tool.py:319-329 | The overlay output path of a source, with the suffix defaulting to "_timecoded" |
| TimecodeOverlay.AddTimecodeOverlay | ffmpeg_tool.py:318-329 | File not found, else the overlay output path |
| TimecodeOverlay.TimecodeTargetParsesBack | ffmpeg_tool.py:319-329 | When the source has an extension, the suffix has no separator and `name + suffix` has a non-dot character, the output splits back into the source's directory, `name + suffix` and the source's extension |
| TimecodeOverlay.DefaultSuffixParsesBack | ffmpeg_tool.py:319-329 | With the default "_timecoded" suffix that holds for every source with an extension |
| TimecodeOverlay.TimecodeTargetIsNotSource | ffmpeg_tool.py:319-334 | A non-empty, separator-free suffix never makes the output the source itself |
| TimecodeOverlay.EmptySuffixKeepsComponent | ffmpeg_tool.py:319-334 | For every source, an empty suffix gives an output in the source's directory with the source's own final component: the source file, which the tool deletes before writing |
| TimecodeOverlay.EmptySuffixIsSource | ffmpeg_tool.py:319-334 | With an empty suffix, `clip.mp4` is written to the path `clip.mp4` itself |
| TimecodeOverlay.TimecodeExample | ffmpeg_tool.py:319-329 | `media/clip.mp4` with no suffix goes to `media/clip_timecoded.mp4` |

## Left out

- The ffmpeg and ffprobe runs, the argument lists, the drawtext filter and the
  parsing of ffprobe's output. These are external processes.
- `os.path.exists` is a boolean parameter. The deletion of an existing output
  and the `print` logging are not modelled. The lemmas about output paths
  coinciding with each other or with the source state the consequences of
  that deletion instead.
- The artifact wrappers and their message texts. Results are `Result` values
  carrying the segment list, the cuts or the output path.
- IEEE float rounding. All times are exact reals, so `min(..., duration)` never
  has to absorb an overshoot.
- Input types beyond `int`/`float` for numbers and `str` for names, such as a
  `bool` value or a non-string method. An `output_name` key that is present
  with the value `None` is also not modelled. For split_video that value would
  be formatted as "None".
- Python's `str.lower()` beyond the letters of "mp3". Non-ASCII case mappings,
  some of which change a string's length, are not modelled.
- SegmentCalculator.CalculateSegments: a "duration" request with a positive
  duration and a negative value never returns in the source. The model
  requires that such a request is not made rather than modelling the hang.
  `NegativeStepNeverStops` exhibits the hang, and `CheckedPlan` is the
  corrected plan, defined on every request.
- AudioExtractor.CleanupOutputName: it is specified only on names where the
  loop ends. `CleanupTerminatesIff` characterises the names where it does not,
  and `DotsThenMp3Hangs` exhibits one.
- `os.path` is modelled as `posixpath`, with '/' as the only separator.
  Windows `ntpath`, with backslashes and drive letters, is not modelled.
- TimecodeOverlay.AddTimecodeOverlay: modelled as a function without its own
  contract. Its properties are the `TimecodeTarget` lemmas.

## Findings

| source | as written | input that shows it | evidently intended | confidence | as-written member | corrected member |
|---|---|---|---|---|---|---|
| ffmpeg_tool.py:252-263 | `output_name` defaults to `None`, and the cleanup loop calls `.lower()` on it | extract_audio on an existing `clip.mp4` with no `output_name` | fall back to the video's own name, `clip.mp3`, as lines 269-270 and the parameter's description say | high (not executed) | AudioExtractor.OmittedNameFails | AudioExtractor.OmittedNameFallsBack |
| ffmpeg_tool.py:262-267 | the loop strips ".mp3" with `os.path.splitext`, which leaves a dots-only stem in place | `output_name` ".mp3"; by `CleanupTerminatesIff`, every name ending in ".mp3" whose cleaned name ends in an empty or all-dots component, e.g. "a/.mp3", "..mp3", "..MP3.mp3" | strip the extension, leaving an empty name that falls back to the video's name | high (not executed) | AudioExtractor.DotsThenMp3Hangs | AudioExtractor.StripMp3 |
| ffmpeg_tool.py:143-149 | "equal" divides a negative duration into parts; nothing refuses it, and each end is clamped to the duration | duration -10, method "equal", value 2: segments [0,-10] and [-5,-10], which split_video would cut with a negative length | refuse a negative duration, as a zero one is refused | medium (not executed) | SegmentCalculator.EqualPartsInverted | SegmentCalculator.CheckedPlanTiles |
| ffmpeg_tool.py:150-156 | the "duration" loop adds the step to `start` until it reaches the duration, and nothing refuses a negative step | duration 10, method "duration", value -2: `start` goes 0, -2, -4, … and the loop never ends | refuse a negative step, as a zero one is refused | high (not executed) | SegmentCalculator.NegativeStepNeverStops | SegmentCalculator.CheckedPlanAgrees |
