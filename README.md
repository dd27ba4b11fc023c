# quickcut — a verified model of the cutting core

quickcut removes filler words and pauses from talking-head videos. A speech
recognizer (Vosk) turns the audio into word timestamps. Those timestamps
become speech ranges, and the ranges of filler words ("um", "uh", ...) are
cut out of them. The remaining ranges are the clips that are concatenated
and exported. This project models the part of quickcut that decides *what*
is kept, together with the helpers that check and present settings. It
proves what these parts promise.

The model is split by source file:

- `intervals.dfy` (`Intervals`): time ranges, the stable sort by start
  time, and the merge of neighbouring ranges. This is the merge of
  `_merge_intervals` and `_merge_adjacent`, which have the same code.
- `asr_filler_detector.dfy` (`AsrFillerDetector`): the word-event
  adapter. Each 8000-byte chunk of recognizer output is turned into word
  ranges or filler ranges, with the per-chunk progress reports. The
  recognizer is a black box that either completes an utterance or does
  not.
- `video_processor.dfy` (`VideoProcessor`): `_subtract_intervals` as an
  imperative sweep, and the codec and temporary-extension tables.
  `process_video` is modelled as its outcome (export the original, edited
  clips, or failure) and its sequence of progress values. `analyze_video`
  is modelled as its statistics.
- `audio_analyzer.dfy` (`AudioAnalyzer`): the energy path. It covers the
  frame count of `calculate_rms_energy`, the -60 dB floor of `rms_to_db`,
  the adaptive threshold, and the silence and speech loops with their
  fallback. It also has the `Analyzer` class and its two setters.
- `validators.dfy` (`Validators`): the range checks, `sanitize_filename`
  and `is_supported_output_format`.
- `file_utils.dfy` (`FileUtils`): the unit loop of `format_file_size` and
  the hour/minute/second split of `get_duration_string`.
- `settings.dfy` (`Config`): the `Settings` class with its defaults, the
  merge done by `load`, `get`, `set`, `reset_to_defaults`, the lower-casing
  accessors and `is_format_supported`.
- `text.dfy`, `progress.dfy` and `wrappers.dfy` hold shared helpers:
  - ASCII lower-casing and path components;
  - the linear progress band `lo + (hi - lo) * f`;
  - `Option`.

Times and levels are exact `real` numbers. Some inputs are parameters:
the recognizer's answers, the per-frame sample counts, RMS values and
band ratios, `log10`, the 20th percentile of the levels, the user's home
directory, and what reading the configuration file produced.

Some behaviour of the code that the model keeps as written:

- A silence run that ends at frame `i` ends at `(i + 1) * 0.1`. Here `i`
  is the first frame that is not silent (audio_analyzer.py:196 and 208).
  So frames at -50, -50, -10, -10, -50, -50 dB give the silences
  `[0, 0.3)` and `[0.4, 0.6)`, not `[0, 0.2)` and `[0.4, 0.6)`
  (`AudioAnalyzer.SilenceScenario`).
- The silence test and the speech test of a frame are not complementary.
  A frame can pass both tests, or neither; `AudioAnalyzer.FrameClasses`
  states exactly when.
- The stored default minimum silence is 2.0 s (settings.py:21). The test
  at test_application.py:26 expects 0.5, and so does the fallback of
  `get_min_silence_duration` (settings.py:78). The model keeps 2.0 for the
  stored default.
- `format_duration`, which the tests look for, does not exist
  (test_application.py:80-84). `get_duration_string` is modelled instead.

## Model

| member | source | states |
|---|---|---|
| Text.Lower | config/settings.py:100 | `lower()` keeps the length and lower-cases each character in place |
| Text.LowerIsLower | config/settings.py:96 | the result of `lower()` is lower case, and lower-casing it again changes nothing |
| Intervals.SortByStart | processor/video_processor.py:392 | `sorted(key=start)` returns a permutation of its input (same length, same multiset) that is ordered by start time |
| Intervals.SortSortedIsIdentity | processor/video_processor.py:392 | the sort is stable: a list already ordered by start comes back unchanged |
| Intervals.SortKeepsCover | processor/video_processor.py:392 | sorting changes neither membership nor the set of covered time points |
| Intervals.MergeIntervals | processor/video_processor.py:388-402 | the loop computes the merge fold; the result is empty only for an empty input; it is sorted; consecutive ranges are more than `min_gap` apart; every input range lies inside one output range |
| Intervals.MergedShape | processor/video_processor.py:388-402 | the merge of any list is empty iff the list is empty, is sorted by start, and keeps consecutive ranges more than the gap apart |
| Intervals.MergedCovers | processor/video_processor.py:395-401 | every input range lies within some merged range |
| Intervals.MergedTight | processor/video_processor.py:394-401 | the merge invents no endpoints: every merged start and end is the start or end of some input range |
| Intervals.MergedProper | processor/video_processor.py:394-401 | merging positive-length ranges gives positive-length ranges |
| Intervals.SeparatedIsOrdered | processor/video_processor.py:396-400 | with a non-negative gap, a merged list is pairwise disjoint: each range ends before the next starts |
| Intervals.MergedIdempotent | processor/video_processor.py:388-402 | merging a merged list again changes nothing |
| Intervals.MergedOrderIndependent | processor/video_processor.py:388-402 | for well-formed ranges and a non-negative gap, the merge depends only on which ranges are given, not on their order, even among ranges with equal starts that the stable sort keeps in input order |
| AsrFillerDetector.WordSpans | processor/asr_filler_detector.py:182-189 | the ranges collected from one result have positive length, and there is at most one per word record |
| AsrFillerDetector.WordSpansExact | processor/asr_filler_detector.py:184-189 | when every timing converts, a range is collected iff some record has exactly that start (default 0.0) and end (default start) with end > start |
| AsrFillerDetector.WordSpansStopAtMalformed | processor/asr_filler_detector.py:159-163 | a record whose timing `float()` rejects ends the result: only the records before it contribute, because the exception abandons the rest of the list |
| AsrFillerDetector.FillerSpans | processor/asr_filler_detector.py:125-133 | filler ranges have positive length, and there is at most one per record |
| AsrFillerDetector.FillerSpansExact | processor/asr_filler_detector.py:125-133 | when every filler's timing converts, a range is collected iff some record whose lower-cased word is in the lexicon has exactly that start (default 0.0) and end (default start) with end > start; records outside the lexicon never contribute |
| AsrFillerDetector.FillerSpansStopAtMalformed | processor/asr_filler_detector.py:97-133 | a filler record whose timing `float()` rejects ends the result: only the records before it contribute, because the exception abandons the rest of the list |
| AsrFillerDetector.FillersAreWords | processor/asr_filler_detector.py:125-133 | every filler range of a result is also one of its word ranges |
| AsrFillerDetector.FillerMatchIgnoresCase | processor/asr_filler_detector.py:128-129 | "Um" and "HMM" are fillers whatever their case; "hello" and a missing word are not |
| AsrFillerDetector.FillerScenario | processor/asr_filler_detector.py:125-133 | "hello" is not a filler, so its bad timings are never read; "Um" at 1.0-1.25 is kept, and "uh" without an end (end = start) is dropped |
| AsrFillerDetector.CollectWordsFromResult | processor/asr_filler_detector.py:182-189 | the loop appends exactly the result's word ranges, in order, to `out` |
| AsrFillerDetector.CollectFillersFromResult | processor/asr_filler_detector.py:125-133 | the loop appends exactly the result's filler ranges, in order, to `out`; when the filler timings convert, the new list holds exactly the old ranges and the positive-length ranges of lexicon words |
| AsrFillerDetector.MergeAdjacent | processor/asr_filler_detector.py:191-205 | same contract as the interval merge, with `max_gap` |
| AsrFillerDetector.TotalChunks | processor/asr_filler_detector.py:155 | the progress denominator is at least 1 and at least the number of chunks |
| AsrFillerDetector.ChunkCountIsCeiling | processor/asr_filler_detector.py:154-156 | chunk `k` exists iff `k * 8000 < len(raw)`: there are ceil(len/8000) chunks |
| AsrFillerDetector.ChunkProgressMonotone | processor/asr_filler_detector.py:166-169 | chunk progress stays in `[start_pct, end_pct]`, never decreases with the chunk index, and rises strictly when the band is not empty |
| AsrFillerDetector.ProgressRises | processor/asr_filler_detector.py:156-179 | a pass reports once per chunk and once at the end; every report is in the band; reports never decrease; the last chunk report and the final report both equal `end_pct` |
| AsrFillerDetector.DetectSpeechSegments | processor/asr_filler_detector.py:135-180 | without a usable model: no segments and no reports; otherwise the merge (gap 0.5 s) of the word ranges of every completed, parseable utterance and of the final flush, and the reports of `ProgressReports` |
| AsrFillerDetector.DetectFillers | processor/asr_filler_detector.py:74-123 | the same pass restricted to lexicon words, merged with a 0.25 s gap |
| AsrFillerDetector.SpeechSegmentsShape | processor/asr_filler_detector.py:177-180 | the speech segments are sorted, positive-length and pairwise disjoint, and they cover every recognized word |
| AsrFillerDetector.FillerRangesShape | processor/asr_filler_detector.py:119-120 | the filler ranges are sorted, positive-length and pairwise disjoint, and they cover every filler word |
| VideoProcessor.SubtractIntervals | processor/video_processor.py:360-386 | empty base gives []; no cuts gives the base unchanged; otherwise every piece has positive length and lies inside a base range; no piece overlaps a cut; every base point outside the cuts is still covered; for a sorted, disjoint base and well-formed cuts the pieces are ordered and disjoint |
| VideoProcessor.SubtractEmptyIff | processor/video_processor.py:360-386 | subtraction leaves nothing iff the cuts cover every point of the base |
| VideoProcessor.PathSuffix | processor/video_processor.py:196 | `Path(p).suffix` is empty or a dot followed by at least one character |
| VideoProcessor.TrimTail | processor/video_processor.py:196 | what `pathlib` keeps of a path's end: a prefix of the path that ends neither in `/` nor in a `.` component |
| VideoProcessor.PathSuffixIgnoresTrailing | processor/video_processor.py:196 | a trailing `/` or `/.` does not change the suffix |
| VideoProcessor.PathSuffixOf | processor/video_processor.py:196 | the suffix of `dir/stem.ext` is `.ext`, whatever dots the stem contains |
| VideoProcessor.NoPathSuffix | processor/video_processor.py:196 | a final name without a dot, or a dot-file like `.mp4`, has no suffix (the name `.` names nothing and is skipped by `pathlib`) |
| VideoProcessor.ExportCodecsBySuffix | processor/video_processor.py:196-198 | the export codecs of `dir/stem.ext` are the table entry of the lower-cased `.ext` |
| VideoProcessor.ExportCodecsNoSuffix | processor/video_processor.py:196-198 | a path without a suffix is written with libx264/aac |
| VideoProcessor.ExportCodecsTrailingSlash | processor/video_processor.py:196-198 | `dir/stem.ext/` is written with the codecs of `.ext`, as `pathlib` reads it |
| VideoProcessor.CodecsHaveTempExtensions | processor/video_processor.py:247-273 | every codec choice names an audio codec listed in the temporary-extension table, so the temporary audio file is .m4a, .mp3 or .wav; the safe settings equal the first settings; unknown containers get libx264/aac |
| VideoProcessor.DetectedShape | processor/video_processor.py:109-120 | the detected speech is sorted, positive-length and disjoint; the detected fillers are positive-length |
| VideoProcessor.SpeechAfterFillers | processor/video_processor.py:121-123 | fillers are subtracted only when there are some; the resulting speech is empty iff the fillers cover all detected speech; the kept speech avoids every filler and keeps every speech point outside them |
| VideoProcessor.SegmentProgressRises | processor/video_processor.py:143-145 | segment progress rises strictly within (40, 50] and ends at 50 |
| VideoProcessor.PassReportsRise | processor/video_processor.py:108-120 | the reports of a recognition pass never decrease and stay within its band |
| VideoProcessor.EditedRunRises | processor/video_processor.py:97-239 | the progress of an edit that succeeds never decreases and ends at 100 |
| VideoProcessor.CutSegments | processor/video_processor.py:142-145 | one clip per speech segment, in order, with one progress report per segment |
| VideoProcessor.EditDetected | processor/video_processor.py:97-241 | the ASR path fails with "no speech" iff the fillers cover all detected speech; otherwise it edits to the kept speech; on success the progress never decreases and ends at 100, and on failure the last report is 0 |
| VideoProcessor.ProcessVideo | processor/video_processor.py:48-245 | missing input fails; no audio track exports the original with reports 0, 10, 20, 100; a disabled recognizer fails; otherwise as `EditDetected`; the result is true iff the outcome is not a failure |
| VideoProcessor.TotalLengthBound | processor/video_processor.py:327 | the total length of ordered ranges inside `[lo, hi]` is between 0 and `hi - lo` |
| VideoProcessor.StatsBounds | processor/video_processor.py:326-339 | speech time plus silence time is the duration; both are non-negative; the silence percentage is in [0, 100]; the expected output is the speech time and the time saved is the silence time |
| VideoProcessor.AnalyzeVideo | processor/video_processor.py:294-342 | no audio and no recognizer give their errors; otherwise the statistics are those of the kept speech segments |
| AudioAnalyzer.FrameCountIsCeiling | processor/audio_analyzer.py:79-82 | frame `k` exists iff `100 * k < len_ms`: there are ceil(len_ms/100) frames |
| AudioAnalyzer.FrameTimeCoversTrack | processor/audio_analyzer.py:79-82 | when there is one level per frame of the track, the end of the last frame, `n * 0.1`, is at least the duration `len_ms / 1000` and less than one frame beyond it |
| AudioAnalyzer.CalculateRmsEnergy | processor/audio_analyzer.py:68-92 | one value per 100 ms frame, in order: the frame's RMS, or 0.0 when the frame has no samples |
| AudioAnalyzer.RmsToDb | processor/audio_analyzer.py:94-108 | a non-positive RMS gives the -60 dB floor |
| AudioAnalyzer.DbValues | processor/audio_analyzer.py:110-114 | one level per frame, with -60 dB for every silent (RMS <= 0) frame |
| AudioAnalyzer.AdaptiveThreshold | processor/audio_analyzer.py:116-133 | no frames give the static threshold; otherwise the threshold is at most -20, at least min(static, -20) and min(floor + 6, -20), and equal to one of -20, the static value or floor + 6 |
| AudioAnalyzer.AdaptiveThresholdMonotone | processor/audio_analyzer.py:126-133 | raising the static threshold or the noise floor never lowers the adaptive threshold |
| AudioAnalyzer.FrameClasses | processor/audio_analyzer.py:201-242 | a frame is both silent and speech iff it is within 2 dB below the threshold with ratio >= 0.35; it is neither iff it is at least 3 dB above it with ratio < 0.35 |
| AudioAnalyzer.EmptyFrameIsSilent | processor/audio_analyzer.py:105-106 | a frame without samples is silent under any threshold above -63 dB |
| AudioAnalyzer.RunsFromShape | processor/audio_analyzer.py:194-215 | the runs are ordered, positive-length, inside the audio and at least `minLen` long |
| AudioAnalyzer.RunsFromCoverFlagged | processor/audio_analyzer.py:237-257 | with a minimum length of at most one frame, every flagged frame lies inside a run |
| AudioAnalyzer.SilenceSegmentsShape | processor/audio_analyzer.py:173-217 | the silences are ordered, positive-length, inside `[0, n * 0.1]` and at least `min_silence_duration` long |
| AudioAnalyzer.SpeechRunsShape | processor/audio_analyzer.py:219-257 | the speech runs are ordered, inside the audio, and cover every speech frame |
| AudioAnalyzer.RunsFromExact | processor/audio_analyzer.py:194-215 | from any frame, with the run open since frame `lo`, the loop emits exactly the ranges of the maximal flagged stretches starting at `lo` or later that are at least `minLen` long; a stretch's range starts at its first frame and ends at the end of the unflagged frame that closed it, or at `n * 0.1` when it reaches the last frame |
| AudioAnalyzer.RunsExact | processor/audio_analyzer.py:194-215 | the same from the first frame: a range is emitted iff it is the range of a maximal flagged stretch at least `minLen` long |
| AudioAnalyzer.SilenceSegmentsExact | processor/audio_analyzer.py:173-217 | a range is a silence iff it is the range of a maximal stretch of silent frames at least `min_silence_duration` long, so every long enough silent stretch is reported |
| AudioAnalyzer.SpeechRunsExact | processor/audio_analyzer.py:219-257 | a range is a speech run iff it is the range of a maximal stretch of speech frames |
| AudioAnalyzer.SpeechRunsEmpty | processor/audio_analyzer.py:219-263 | there are no speech runs, and the fallback is taken, iff no frame is speech |
| AudioAnalyzer.GapsFromShape | processor/audio_analyzer.py:271-278 | the gaps between silences are ordered and positive-length |
| AudioAnalyzer.GapsAvoidSilence | processor/audio_analyzer.py:271-278 | no gap overlaps a silence |
| AudioAnalyzer.GapsFromCover | processor/audio_analyzer.py:271-278 | every point from the start to the end is in a gap or in a silence |
| AudioAnalyzer.FallbackComplement | processor/audio_analyzer.py:265-279 | the fallback is ordered and disjoint from the silences, and together with them it covers `[0, total)` |
| AudioAnalyzer.SpeechSegmentsShape | processor/audio_analyzer.py:219-263 | the speech segments are ordered and cover every speech frame; when no frame is speech they are the complement of the silences |
| AudioAnalyzer.CollectGaps | processor/audio_analyzer.py:271-279 | the loop computes the gaps between the silences and the tail |
| AudioAnalyzer.Analyzer.constructor | processor/audio_analyzer.py:16-26 | the analyser holds the given threshold and minimum silence |
| AudioAnalyzer.Analyzer.SetSilenceThreshold | processor/audio_analyzer.py:300-302 | only the threshold changes |
| AudioAnalyzer.Analyzer.SetMinSilenceDuration | processor/audio_analyzer.py:304-305 | only the minimum silence changes |
| AudioAnalyzer.Analyzer.DetectSilenceSegments | processor/audio_analyzer.py:173-217 | the loop returns the silence runs under the analyser's settings: in order, inside `[0, n * 0.1]`, and holding a range iff it is the range of a maximal silent stretch at least `min_silence_duration` long |
| AudioAnalyzer.Analyzer.FallbackSpeechSegments | processor/audio_analyzer.py:265-279 | the whole track when there is no silence, else the gaps between the silences |
| AudioAnalyzer.Analyzer.FindSpeechSegments | processor/audio_analyzer.py:219-263 | ordered, well-formed speech segments; when some frame is speech, a range iff it is the range of a maximal speech stretch; the fallback is taken iff no frame is speech, and then the segments are disjoint from the silences and together with them cover `[0, duration)` |
| AudioAnalyzer.SilenceScenario | processor/audio_analyzer.py:194-215 | six frames give the silences `[0, 0.3)` and `[0.4, 0.6)` and the fallback speech `[0.3, 0.4)` |
| Validators.RangeExamples | utils/validators.py:43-55 | thresholds in [-60, -20], silences in [0.1, 5] and fades in [0, 1] are accepted, including the boundaries; -10 dB, 10 s and 2 s are rejected |
| Validators.ValidThresholdKeepsEmptyFramesSilent | utils/validators.py:43-45 | under any accepted threshold, the adaptive threshold stays in [-60, -20] and an empty frame is silent |
| Validators.ReplaceInvalid | utils/validators.py:61-62 | each of `<>:"/\|?*` becomes `_`, and every other character is kept in place |
| Validators.StripLeading | utils/validators.py:65 | the result is a suffix of the input; only dots and spaces are removed; it does not start with one |
| Validators.StripTrailing | utils/validators.py:65 | the result is a prefix of the input; only dots and spaces are removed; it does not end with one |
| Validators.StripIsSlice | utils/validators.py:65 | `strip('. ')` returns a contiguous slice of its input |
| Validators.StripCutsOnlyStripChars | utils/validators.py:65 | everything `strip` removes, at either end, is a dot or a space |
| Validators.SanitizeFilenameClean | utils/validators.py:58-71 | the sanitised name is never empty, has none of `<>:"/\|?*`, and neither starts nor ends with a dot or a space |
| Validators.SanitizeFixesClean | utils/validators.py:58-71 | a name that is already clean is returned unchanged |
| Validators.SanitizeIdempotent | utils/validators.py:58-71 | sanitising twice equals sanitising once |
| Validators.SupportedFormatIgnoresCaseAndDot | utils/validators.py:115-128 | the answer does not depend on case or on one leading dot |
| Validators.ListedFormatIsSupported | utils/validators.py:115-128 | every listed format is accepted, with or without its dot and in any case |
| FileUtils.FormatFileSize | utils/file_utils.py:23-35 | "0 B" iff the size is 0; otherwise the value is `size / 1024^k` in unit `k`, where `k` is the largest unit up to TB that the size reaches |
| FileUtils.UnitIsUnique | utils/file_utils.py:29-33 | exactly one unit fits a size, so the unit chosen is determined |
| FileUtils.ScaledValueInRange | utils/file_utils.py:31-35 | the shown value of a positive size is at least 1.0, and below 1024 except in TB |
| FileUtils.DurationDecomposes | utils/file_utils.py:37-50 | for a non-negative duration, the fields add up to its whole seconds; minutes and seconds are below 60; each form is chosen by its branch; the leading field is never 0 |
| FileUtils.FloorDivOfFloor | utils/file_utils.py:43-49 | Python's float `//` and `%` by a positive integer agree with integer division and remainder of the floor |
| FileUtils.DurationExamples | utils/file_utils.py:37-50 | 65 s is "1m 5s" and 3661 s is "1h 1m 1s" |
| FileUtils.FormatFileSizeExamples | utils/file_utils.py:23-35 | 1024 bytes are 1.0 KB and 1048576 bytes are 1.0 MB |
| Config.DefaultValues | config/settings.py:19-31 | the defaults hold exactly the ten settings, with -40 dB, 2.0 s, 0.1 s, "mp4" and the six containers |
| Config.AfterLoad | config/settings.py:36-46 | a loaded object overrides key by key and keeps the other keys; a read or parse error resets to the defaults; a missing file changes nothing |
| Config.LoadKeepsDefaultKeys | config/settings.py:42-43 | whatever the file holds, loading never loses a default key |
| Config.Extension | config/settings.py:148 | `os.path.splitext(p)[1]` is empty or a dot-started suffix of the last path component |
| Config.ExtensionOf | config/settings.py:148 | the extension of `dir/stem.ext` is `.ext` when the stem has a character other than a dot |
| Config.NoExtension | config/settings.py:148 | a name made of leading dots and then no dot has no extension |
| Config.FormatListed | config/settings.py:149 | for a stored list, list membership; an error exactly when the stored value is neither a list nor a string |
| Config.DefaultFormatsDecide | config/settings.py:146-149 | with the default list, `dir/stem.ext` is supported iff `.ext`, lower-cased, is one of the six containers |
| Config.Settings.constructor | config/settings.py:13-34 | current starts as a copy of the defaults and then loads |
| Config.Settings.Load | config/settings.py:36-46 | the current map becomes `AfterLoad` of the old one |
| Config.Settings.Get | config/settings.py:56-58 | the stored value, or the given default for a missing key |
| Config.Settings.Set | config/settings.py:60-62 | `get` returns the value just set, and every other key reads as before |
| Config.Settings.ResetToDefaults | config/settings.py:64-66 | every key reads its default, and keys without a default read the caller's fallback |
| Config.Settings.GetLowered | config/settings.py:94-96 | the stored string or the fallback, lower-cased; an error when the stored value is not a string |
| Config.Settings.GetOutputFormat | config/settings.py:94-96 | the answer is lower case, and "mp4" when nothing is stored |
| Config.Settings.GetOutputQuality | config/settings.py:102-104 | the answer is lower case, and "medium" when nothing is stored |
| Config.Settings.GetOutputResolution | config/settings.py:110-112 | the answer is lower case, and "original" when nothing is stored |
| Config.Settings.SetOutputFormat | config/settings.py:98-100 | stores the lower-cased format, which the getter then returns |
| Config.Settings.SetOutputQuality | config/settings.py:106-108 | stores the lower-cased quality, which the getter then returns |
| Config.Settings.SetOutputResolution | config/settings.py:114-116 | stores the lower-cased resolution, which the getter then returns |
| Config.Settings.IsFormatSupported | config/settings.py:146-149 | whether the lower-cased extension is in the stored list, or in the default list when none is stored |
| Config.SettingsScenario | config/settings.py:19-62 | a fresh store without a file reads -40 dB for the threshold; after `set` to -35 it reads -35, and the fade duration still reads 0.1 |

## Left out

- Floating point: times, levels and sizes are exact reals. Float rounding, and the text rendering of numbers (`{:.1f}`, `int` to string), are not modelled.
- FileUtils.FormatFileSize: returns the scaled value and unit name rather than the formatted string.
- FileUtils.DurationString: returns the hour, minute and second fields rather than the string.
- Signal processing: `np.sqrt`, `np.log10`, `np.percentile` and the FFT of `_compute_speech_band_ratio` are not modelled. The model takes their results as inputs: RMS values per frame, a `log10` function, a noise floor, and band ratios.
- AudioAnalyzer.RmsToDb: states only the -60 dB floor; the `20 * log10` branch depends on the `log10` parameter. A `reference_rms` other than 1.0 is not modelled.
- Audio decoding and resampling (`load_audio_from_video`, pydub) are not modelled. Neither is `get_audio_info`.
- The recognizer: Vosk, model loading and the model download are not modelled. The model takes the recognizer's per-chunk answers and its final flush as inputs. JSON parsing is modelled as either a word list or a decode failure.
- AsrFillerDetector: a `"word"` that is not a string is not modelled. The model has a string or nothing, so `str()` of other values is left out.
- Video: moviepy (loading, subclips, fades, concatenation, normalisation, `write_videofile`) and the export progress logger are not modelled. Directory creation is not modelled either.
- VideoProcessor.ProcessVideo: the fallback to the original video when concatenation fails is not modelled.
- VideoProcessor.ProcessVideo: cancellation is not modelled.
- VideoProcessor.ProcessVideo: a failed first export followed by the retry with the same codecs is not modelled.
- Progress: whether a progress callback was passed is not modelled. A pass either reports or returns nothing.
- VideoProcessor: the setters of `VideoProcessor` (video_processor.py:344-358) only forward to the analyser and the editor; they are not modelled. The analyser's own setters are modelled.
- Config: saving, the configuration path, `mkdir`, and JSON reading are not modelled. Loading is modelled as its outcome.
- Config: the float and bool getters and setters (settings.py:68-92 and 118-132) are not modelled. Neither are `get_last_output_directory` and `set_last_output_directory`. They convert JSON values with `float()` and `bool()`.
- Config.Value: lists hold only strings.
- Text.Lower: lower-cases ASCII letters only; Unicode case mapping is not modelled.
- Config.Defaults: `Path.home() / 'Desktop'` is modelled as the home directory followed by `/Desktop`.
- Validators: the file-system checks (`is_valid_video_file`, `is_valid_output_path`, `is_valid_directory_path`, `validate_file_size`) are not modelled. Neither are the string parsers `is_positive_number` and `is_integer`, or `get_file_extension`.
- FileUtils: the file-system helpers besides `format_file_size` and `get_duration_string` are not modelled.
- The test expectation of a 0.5 s default minimum silence (test_application.py:26) does not hold for the code, which stores 2.0.
