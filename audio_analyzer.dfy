/** The energy classifier of the audio analyser. Per-frame levels (dB) and
    speech-band ratios are turned into silence and speech ranges by two
    run-length state machines over 100 ms frames; when no frame looks like
    speech, the complement of the silence ranges is used instead. The frame
    levels, the band ratios and the 20th percentile of the levels are inputs
    here: the FFT, the square root, `log10` and `np.percentile` that produce
    them are not part of this model. */
module AudioAnalyzer {
  import opened Wrappers
  import opened Intervals

  /** `self.frame_duration`: every frame lasts 100 ms. */
  const FrameDuration: real := 0.1
  /** `int(frame_duration * 1000)`: the frame length in milliseconds. */
  const FrameLengthMs: nat := 100
  /** The level given to a frame whose RMS is not positive. */
  const FloorDb: real := -60.0
  /** How far above the noise floor speech is expected to be. */
  const NoiseMarginDb: real := 6.0
  /** The adaptive threshold never exceeds this level. */
  const ThresholdCeilingDb: real := -20.0
  /** The share of energy in the 300-3400 Hz band that marks speech. */
  const SpeechBandRatio: real := 0.35

  // ---------------------------------------------------------------------
  // Frame energies
  // ---------------------------------------------------------------------

  /** The number of frames of `len_ms` milliseconds of audio. */
  function FrameCount(lenMs: nat): nat
  {
    (lenMs + FrameLengthMs - 1) / FrameLengthMs
  }

  /** Frame `k` exists exactly when its first millisecond lies inside the
      audio: the count is the ceiling of `len_ms / 100`. */
  lemma FrameCountIsCeiling(lenMs: nat, k: nat)
    ensures k < FrameCount(lenMs) <==> k * FrameLengthMs < lenMs
  {
    var q := FrameCount(lenMs);
    assert q * FrameLengthMs <= lenMs + FrameLengthMs - 1 < (q + 1) * FrameLengthMs;
    if k < q {
      assert k * FrameLengthMs <= (q - 1) * FrameLengthMs;
    } else {
      assert k * FrameLengthMs >= q * FrameLengthMs;
    }
  }

  /** The value recorded for the frame starting at `offset` ms: its RMS, or
      0.0 when the frame holds no samples. */
  function FrameRms(offset: nat, sampleCount: nat -> nat, rmsAt: nat -> real): real
  {
    if sampleCount(offset) > 0 then rmsAt(offset) else 0.0
  }

  /** `calculate_rms_energy`: one value per 100 ms frame, in order. The
      sample counts and RMS values of the frames are given. */
  method CalculateRmsEnergy(lenMs: nat, sampleCount: nat -> nat, rmsAt: nat -> real)
    returns (values: seq<real>)
    ensures |values| == FrameCount(lenMs)
    ensures forall k :: 0 <= k < |values| ==> values[k] == FrameRms(k * FrameLengthMs, sampleCount, rmsAt)
  {
    values := [];
    var i := 0;
    while i < lenMs
      invariant i == |values| * FrameLengthMs
      invariant |values| <= FrameCount(lenMs)
      invariant forall k :: 0 <= k < |values| ==> values[k] == FrameRms(k * FrameLengthMs, sampleCount, rmsAt)
      decreases lenMs - i
    {
      FrameCountIsCeiling(lenMs, |values|);
      values := values + [FrameRms(i, sampleCount, rmsAt)];
      i := i + FrameLengthMs;
    }
    FrameCountIsCeiling(lenMs, |values|);
  }

  /** `rms_to_db` against the default reference 1.0; `log10` is a parameter. */
  function RmsToDb(rms: real, log10: real -> real): (db: real)
    ensures rms <= 0.0 ==> db == FloorDb
  {
    if rms <= 0.0 then FloorDb else 20.0 * log10(rms)
  }

  /** `_compute_db_values`: the level of every frame. */
  function DbValues(rms: seq<real>, log10: real -> real): (db: seq<real>)
    ensures |db| == |rms|
    ensures forall k :: 0 <= k < |rms| && rms[k] <= 0.0 ==> db[k] == FloorDb
  {
    seq(|rms|, k requires 0 <= k < |rms| => RmsToDb(rms[k], log10))
  }

  // ---------------------------------------------------------------------
  // Threshold and frame classes
  // ---------------------------------------------------------------------

  /** `_adaptive_threshold`: the static threshold for no frames, otherwise
      the noise floor (the 20th percentile of the levels, given as
      `noiseFloor`) plus 6 dB, raised to the static threshold and capped at
      -20 dB. */
  function AdaptiveThreshold(configured: real, db: seq<real>, noiseFloor: real): (t: real)
    ensures db == [] ==> t == configured
    ensures db != [] ==> t <= ThresholdCeilingDb
    ensures db != [] ==> t >= Min(configured, ThresholdCeilingDb)
    ensures db != [] ==> t >= Min(noiseFloor + NoiseMarginDb, ThresholdCeilingDb)
    ensures db != [] ==> t == ThresholdCeilingDb || t == configured || t == noiseFloor + NoiseMarginDb
  {
    if db == [] then configured else Min(Max(configured, noiseFloor + NoiseMarginDb), ThresholdCeilingDb)
  }

  /** Raising the configured threshold or the noise floor never lowers the
      adaptive threshold. */
  lemma AdaptiveThresholdMonotone(s1: real, s2: real, db: seq<real>, n1: real, n2: real)
    requires s1 <= s2 && n1 <= n2
    ensures AdaptiveThreshold(s1, db, n1) <= AdaptiveThreshold(s2, db, n2)
  {
  }

  /** `band_ratios[i] if i < len(band_ratios) else 0.0`. */
  function RatioAt(ratios: seq<real>, i: nat): real
  {
    if i < |ratios| then ratios[i] else 0.0
  }

  /** A frame is silent below the threshold, or a little above it when its
      energy is mostly outside the speech band. */
  predicate IsSilentFrame(db: real, ratio: real, t: real)
  {
    db < t || (db < t + 3.0 && ratio < SpeechBandRatio)
  }

  /** A frame is speech near or above the threshold when its energy is
      mostly inside the speech band. */
  predicate IsSpeechFrame(db: real, ratio: real, t: real)
  {
    db >= t - 2.0 && ratio >= SpeechBandRatio
  }

  /** The two tests are not complementary: a frame is both silent and speech
      exactly in the 2 dB just below the threshold with a speech-band ratio,
      and neither exactly when it is at least 3 dB above the threshold
      without one. */
  lemma FrameClasses(db: real, ratio: real, t: real)
    ensures IsSilentFrame(db, ratio, t) && IsSpeechFrame(db, ratio, t) <==>
            t - 2.0 <= db < t && ratio >= SpeechBandRatio
    ensures !IsSilentFrame(db, ratio, t) && !IsSpeechFrame(db, ratio, t) <==>
            db >= t + 3.0 && ratio < SpeechBandRatio
  {
  }

  /** A frame without samples (RMS 0.0, ratio 0.0) is silent under every
      threshold above -63 dB, whatever `log10` is. */
  lemma EmptyFrameIsSilent(t: real, log10: real -> real)
    requires t > FloorDb - 3.0
    ensures IsSilentFrame(RmsToDb(0.0, log10), 0.0, t)
  {
  }

  // ---------------------------------------------------------------------
  // Runs of frames
  // ---------------------------------------------------------------------

  /** The features of one audio track: its length, the level and band ratio
      of every frame, and the 20th percentile of the levels. */
  datatype Frames = Frames(lenMs: nat, db: seq<real>, ratios: seq<real>, noiseFloor: real)

  function Threshold(f: Frames, configured: real): real
  {
    AdaptiveThreshold(configured, f.db, f.noiseFloor)
  }

  /** `i * frame_duration`. */
  function FrameTime(i: nat): real
  {
    i as real * FrameDuration
  }

  /** The time span of frame `k`. */
  function FrameSpan(k: nat): Interval
  {
    Interval(FrameTime(k), FrameTime(k + 1))
  }

  function SilenceFlags(f: Frames, configured: real): (flags: seq<bool>)
    ensures |flags| == |f.db|
  {
    seq(|f.db|, i requires 0 <= i < |f.db| => IsSilentFrame(f.db[i], RatioAt(f.ratios, i), Threshold(f, configured)))
  }

  function SpeechFlags(f: Frames, configured: real): (flags: seq<bool>)
    ensures |flags| == |f.db|
  {
    seq(|f.db|, i requires 0 <= i < |f.db| => IsSpeechFrame(f.db[i], RatioAt(f.ratios, i), Threshold(f, configured)))
  }

  /** The loop's open-run variable at frame `i`: a run can only have been
      opened at an earlier frame. */
  predicate OpenState(open: Option<real>, i: nat)
  {
    open.Some? ==> i > 0 && 0.0 <= open.value <= FrameTime(i - 1)
  }

  /** The ranges the run-length loop emits from frame `i` on, while the run
      opened at time `open` (if any) is still open. A run closed by frame `i`
      ends at `(i + 1) * frame_duration`, so it includes that frame; a run
      still open after the last frame ends at `len * frame_duration`. Runs
      shorter than `minLen` are dropped. */
  function RunsFrom(flags: seq<bool>, i: nat, open: Option<real>, minLen: real): seq<Interval>
    requires i <= |flags|
    decreases |flags| - i
  {
    if i == |flags| then
      if open.Some? && FrameTime(|flags|) - open.value >= minLen then [Interval(open.value, FrameTime(|flags|))]
      else []
    else if flags[i] then
      RunsFrom(flags, i + 1, if open.None? then Some(FrameTime(i)) else open, minLen)
    else if open.Some? then
      (if FrameTime(i + 1) - open.value >= minLen then [Interval(open.value, FrameTime(i + 1))] else []) +
      RunsFrom(flags, i + 1, None, minLen)
    else
      RunsFrom(flags, i + 1, None, minLen)
  }

  function Runs(flags: seq<bool>, minLen: real): seq<Interval>
  {
    RunsFrom(flags, 0, None, minLen)
  }

  /** The runs come out in order, none empty, all within the frames not yet
      closed, and none shorter than `minLen`. */
  lemma RunsFromShape(flags: seq<bool>, i: nat, open: Option<real>, minLen: real)
    requires i <= |flags| && OpenState(open, i)
    ensures var r := RunsFrom(flags, i, open, minLen);
      Ordered(r) && AllProper(r) &&
      AllWithin(r, if open.Some? then open.value else FrameTime(i), FrameTime(|flags|)) &&
      (forall k :: 0 <= k < |r| ==> r[k].end - r[k].start >= minLen)
  {
    RunsFromBounds(flags, i, open, minLen);
    RunsFromOrdered(flags, i, open, minLen);
  }

  /** Every run is non-empty, at least `minLen` long, and lies between the
      open run's start (or frame `i`) and the end of the last frame. */
  lemma {:induction false} RunsFromBounds(flags: seq<bool>, i: nat, open: Option<real>, minLen: real)
    requires i <= |flags| && OpenState(open, i)
    ensures var r := RunsFrom(flags, i, open, minLen);
      AllProper(r) &&
      AllWithin(r, if open.Some? then open.value else FrameTime(i), FrameTime(|flags|)) &&
      (forall k :: 0 <= k < |r| ==> r[k].end - r[k].start >= minLen)
    decreases |flags| - i
  {
    if i == |flags| {
    } else if flags[i] {
      RunsFromBounds(flags, i + 1, if open.None? then Some(FrameTime(i)) else open, minLen);
    } else {
      RunsFromBounds(flags, i + 1, None, minLen);
      if open.Some? {
        var head: seq<Interval> :=
          if FrameTime(i + 1) - open.value >= minLen then [Interval(open.value, FrameTime(i + 1))] else [];
        var rest := RunsFrom(flags, i + 1, None, minLen);
        assert RunsFrom(flags, i, open, minLen) == head + rest;
      }
    }
  }

  lemma {:induction false} RunsFromOrdered(flags: seq<bool>, i: nat, open: Option<real>, minLen: real)
    requires i <= |flags| && OpenState(open, i)
    ensures Ordered(RunsFrom(flags, i, open, minLen))
    decreases |flags| - i
  {
    if i == |flags| {
    } else if flags[i] {
      RunsFromOrdered(flags, i + 1, if open.None? then Some(FrameTime(i)) else open, minLen);
    } else {
      RunsFromOrdered(flags, i + 1, None, minLen);
      if open.Some? {
        var head: seq<Interval> :=
          if FrameTime(i + 1) - open.value >= minLen then [Interval(open.value, FrameTime(i + 1))] else [];
        var rest := RunsFrom(flags, i + 1, None, minLen);
        RunsFromBounds(flags, i + 1, None, minLen);
        assert forall q :: q in rest ==> FrameTime(i + 1) <= q.start;
        OrderedConcat(head, rest, FrameTime(i + 1));
        assert RunsFrom(flags, i, open, minLen) == head + rest;
      }
    }
  }

  /** When no run can be too short, every flagged frame from `i` on, and
      every frame since the open run began, lies inside an emitted run. */
  lemma {:induction false} RunsFromCoverFlagged(flags: seq<bool>, i: nat, open: Option<real>, minLen: real)
    requires i <= |flags| && OpenState(open, i) && minLen <= FrameDuration
    ensures forall k: nat :: i <= k < |flags| && flags[k] ==> InsideSome(FrameSpan(k), RunsFrom(flags, i, open, minLen))
    ensures forall k: nat :: open.Some? && open.value <= FrameTime(k) && k < i ==>
      InsideSome(FrameSpan(k), RunsFrom(flags, i, open, minLen))
    decreases |flags| - i
  {
    var r := RunsFrom(flags, i, open, minLen);
    if i == |flags| {
      if open.Some? {
        forall k: nat | open.value <= FrameTime(k) && k < i ensures InsideSome(FrameSpan(k), r) {
          assert Within(FrameSpan(k), r[0]);
        }
      }
    } else if flags[i] {
      var open' := if open.None? then Some(FrameTime(i)) else open;
      RunsFromCoverFlagged(flags, i + 1, open', minLen);
    } else {
      RunsFromCoverFlagged(flags, i + 1, None, minLen);
      var rest := RunsFrom(flags, i + 1, None, minLen);
      if open.Some? {
        var p := Interval(open.value, FrameTime(i + 1));
        assert r == [p] + rest;
        forall k: nat | i <= k < |flags| && flags[k] ensures InsideSome(FrameSpan(k), r) {
          var outer :| outer in rest && Within(FrameSpan(k), outer);
          assert outer in r;
        }
        forall k: nat | open.value <= FrameTime(k) && k < i ensures InsideSome(FrameSpan(k), r) {
          assert Within(FrameSpan(k), p) && p in r;
        }
      }
    }
  }

  /** `detect_silence_segments` as a value: the silent runs of at least
      `min_silence_duration`. */
  function SilenceSegments(f: Frames, configured: real, minSilence: real): seq<Interval>
  {
    Runs(SilenceFlags(f, configured), minSilence)
  }

  /** The speech runs of `find_speech_segments`, before the fallback. */
  function SpeechRuns(f: Frames, configured: real): seq<Interval>
  {
    Runs(SpeechFlags(f, configured), 0.0)
  }

  /** Silence ranges come out in order, each at least `min_silence_duration`
      long, within the frames of the track. */
  lemma SilenceSegmentsShape(f: Frames, configured: real, minSilence: real)
    ensures var s := SilenceSegments(f, configured, minSilence);
      Ordered(s) && AllProper(s) && AllWithin(s, 0.0, FrameTime(|f.db|)) &&
      (forall k :: 0 <= k < |s| ==> s[k].end - s[k].start >= minSilence)
  {
    RunsFromShape(SilenceFlags(f, configured), 0, None, minSilence);
  }

  /** Speech runs come out in order within the track, and every speech
      frame lies inside one of them. */
  lemma SpeechRunsShape(f: Frames, configured: real)
    ensures var s := SpeechRuns(f, configured);
      Ordered(s) && AllProper(s) && AllWithin(s, 0.0, FrameTime(|f.db|)) &&
      (forall k :: 0 <= k < |f.db| && IsSpeechFrame(f.db[k], RatioAt(f.ratios, k), Threshold(f, configured)) ==>
        InsideSome(FrameSpan(k), s))
  {
    var flags := SpeechFlags(f, configured);
    RunsFromShape(flags, 0, None, 0.0);
    RunsFromCoverFlagged(flags, 0, None, 0.0);
    forall k | 0 <= k < |f.db| && IsSpeechFrame(f.db[k], RatioAt(f.ratios, k), Threshold(f, configured))
      ensures InsideSome(FrameSpan(k), SpeechRuns(f, configured))
    {
      assert flags[k];
    }
  }

  // ---------------------------------------------------------------------
  // Exactly which runs are emitted
  // ---------------------------------------------------------------------

  /** Frames `j` up to `e - 1` are flagged and the stretch cannot be
      extended: frame `j - 1`, if any, and frame `e`, if any, are not. */
  predicate IsStretch(flags: seq<bool>, j: nat, e: nat)
  {
    j < e <= |flags| && (forall t :: j <= t < e ==> flags[t]) &&
    (j == 0 || !flags[j - 1]) && (e == |flags| || !flags[e])
  }

  /** The range the loop gives the stretch of frames `j` up to `e - 1` of
      `n`: it starts at frame `j`; closed by frame `e`, it ends at the end
      of that frame; reaching the last frame, it ends at `n * frame_duration`. */
  function StretchRange(n: nat, j: nat, e: nat): Interval
  {
    Interval(FrameTime(j), if e == n then FrameTime(n) else FrameTime(e + 1))
  }

  /** `iv` is the range of a stretch starting at frame `lo` or later, and is
      at least `minLen` long. */
  ghost predicate IsRun(flags: seq<bool>, lo: nat, minLen: real, iv: Interval)
  {
    exists j: nat, e: nat :: lo <= j && IsStretch(flags, j, e) &&
      iv == StretchRange(|flags|, j, e) && iv.end - iv.start >= minLen
  }

  /** Frames `lo` up to `i - 1` are flagged and the run through them began at
      `lo`: the state of the loop at frame `i`. */
  predicate OpenSince(flags: seq<bool>, lo: nat, i: nat)
  {
    lo <= i <= |flags| && (forall t :: lo <= t < i ==> flags[t]) && (lo == 0 || !flags[lo - 1])
  }

  /** At the end of the frames, the only stretch left is the open one. */
  lemma RunAtEnd(flags: seq<bool>, lo: nat, minLen: real, iv: Interval)
    requires OpenSince(flags, lo, |flags|)
    ensures IsRun(flags, lo, minLen, iv) <==>
      lo < |flags| && iv == Interval(FrameTime(lo), FrameTime(|flags|)) && iv.end - iv.start >= minLen
  {
    var n := |flags|;
    if IsRun(flags, lo, minLen, iv) {
      var j: nat, e: nat :| lo <= j && IsStretch(flags, j, e) && iv == StretchRange(n, j, e) && iv.end - iv.start >= minLen;
      assert j == lo && e == n;
    }
    if lo < n && iv == Interval(FrameTime(lo), FrameTime(n)) && iv.end - iv.start >= minLen {
      assert IsStretch(flags, lo, n) && iv == StretchRange(n, lo, n);
    }
  }

  /** An unflagged frame `i` closes the stretch open since `lo`; the other
      stretches start after `i`. */
  lemma RunClosed(flags: seq<bool>, lo: nat, i: nat, minLen: real, iv: Interval)
    requires OpenSince(flags, lo, i) && lo < i < |flags| && !flags[i]
    ensures IsRun(flags, lo, minLen, iv) <==>
      (iv == Interval(FrameTime(lo), FrameTime(i + 1)) && iv.end - iv.start >= minLen) ||
      IsRun(flags, i + 1, minLen, iv)
  {
    var n := |flags|;
    if IsRun(flags, lo, minLen, iv) && !IsRun(flags, i + 1, minLen, iv) {
      var j: nat, e: nat :| lo <= j && IsStretch(flags, j, e) && iv == StretchRange(n, j, e) && iv.end - iv.start >= minLen;
      assert j == lo && e == i;
    }
    if iv == Interval(FrameTime(lo), FrameTime(i + 1)) && iv.end - iv.start >= minLen {
      assert IsStretch(flags, lo, i) && iv == StretchRange(n, lo, i);
    }
  }

  /** An unflagged frame starts no stretch. */
  lemma RunSkip(flags: seq<bool>, i: nat, minLen: real, iv: Interval)
    requires i < |flags| && !flags[i]
    ensures IsRun(flags, i, minLen, iv) <==> IsRun(flags, i + 1, minLen, iv)
  {
    if IsRun(flags, i, minLen, iv) {
      var j: nat, e: nat :| i <= j && IsStretch(flags, j, e) && iv == StretchRange(|flags|, j, e) && iv.end - iv.start >= minLen;
      assert j != i;
    }
  }

  /** From frame `i` on, with the run open since `lo`, the loop emits exactly
      the ranges of the stretches starting at `lo` or later that are at least
      `minLen` long. */
  lemma {:induction false} RunsFromExact(flags: seq<bool>, lo: nat, i: nat, minLen: real, iv: Interval)
    requires OpenSince(flags, lo, i)
    ensures iv in RunsFrom(flags, i, if lo < i then Some(FrameTime(lo)) else None, minLen) <==>
      IsRun(flags, lo, minLen, iv)
    decreases |flags| - i
  {
    var open := if lo < i then Some(FrameTime(lo)) else None;
    if i == |flags| {
      RunAtEnd(flags, lo, minLen, iv);
    } else if flags[i] {
      assert OpenSince(flags, lo, i + 1);
      RunsFromExact(flags, lo, i + 1, minLen, iv);
    } else if lo < i {
      assert OpenSince(flags, i + 1, i + 1);
      RunsFromExact(flags, i + 1, i + 1, minLen, iv);
      RunClosed(flags, lo, i, minLen, iv);
    } else {
      assert OpenSince(flags, i + 1, i + 1);
      RunsFromExact(flags, i + 1, i + 1, minLen, iv);
      RunSkip(flags, i, minLen, iv);
    }
  }

  /** The loop emits exactly the maximal flagged stretches at least `minLen`
      long, each as the range from its first frame to the end of the frame
      that closed it (or to the end of the last frame). */
  lemma RunsExact(flags: seq<bool>, minLen: real, iv: Interval)
    ensures iv in Runs(flags, minLen) <==> IsRun(flags, 0, minLen, iv)
  {
    RunsFromExact(flags, 0, 0, minLen, iv);
  }

  /** A silence range is emitted exactly when it is the range of a maximal
      stretch of silent frames at least `min_silence_duration` long. */
  lemma SilenceSegmentsExact(f: Frames, configured: real, minSilence: real, iv: Interval)
    ensures iv in SilenceSegments(f, configured, minSilence) <==>
      IsRun(SilenceFlags(f, configured), 0, minSilence, iv)
  {
    RunsExact(SilenceFlags(f, configured), minSilence, iv);
  }

  /** A speech run is emitted exactly when it is the range of a maximal
      stretch of speech frames. */
  lemma SpeechRunsExact(f: Frames, configured: real, iv: Interval)
    ensures iv in SpeechRuns(f, configured) <==> IsRun(SpeechFlags(f, configured), 0, 0.0, iv)
  {
    RunsExact(SpeechFlags(f, configured), 0.0, iv);
  }

  /** There are no speech runs exactly when no frame is speech, which is
      when the fallback is taken. */
  lemma SpeechRunsEmpty(f: Frames, configured: real)
    ensures SpeechRuns(f, configured) == [] <==>
      forall k :: 0 <= k < |f.db| ==> !IsSpeechFrame(f.db[k], RatioAt(f.ratios, k), Threshold(f, configured))
  {
    var flags := SpeechFlags(f, configured);
    var r := SpeechRuns(f, configured);
    if r != [] {
      SpeechRunsExact(f, configured, r[0]);
      var j: nat, e: nat :| IsStretch(flags, j, e) && r[0] == StretchRange(|flags|, j, e);
      assert flags[j];
    } else {
      SpeechRunsShape(f, configured);
    }
  }

  // ---------------------------------------------------------------------
  // The fallback: speech is what silence leaves
  // ---------------------------------------------------------------------

  /** The gaps the fallback loop emits from cursor `cur` on: the part before
      each silence when it is not empty, then the tail up to `total`. */
  function GapsFrom(silence: seq<Interval>, cur: real, total: real): seq<Interval>
    decreases |silence|
  {
    if silence == [] then
      if cur < total then [Interval(cur, total)] else []
    else
      (if cur < silence[0].start then [Interval(cur, silence[0].start)] else []) +
      GapsFrom(silence[1..], silence[0].end, total)
  }

  /** `_fallback_speech_segments` given the silence ranges and the total
      duration `len_ms / 1000`. */
  function Fallback(silence: seq<Interval>, total: real): seq<Interval>
  {
    if silence == [] then [Interval(0.0, total)] else GapsFrom(silence, 0.0, total)
  }

  function TotalDuration(f: Frames): real
  {
    f.lenMs as real / 1000.0
  }

  /** When the frames are those of the whole track, the end of the last
      frame lies at or after the end of the track and less than one frame
      beyond it: a silence run reaching the last frame may end up to a
      frame past the track's duration. */
  lemma FrameTimeCoversTrack(f: Frames)
    requires |f.db| == FrameCount(f.lenMs)
    ensures TotalDuration(f) <= FrameTime(|f.db|) < TotalDuration(f) + FrameDuration
  {
    var n := |f.db|;
    FrameCountIsCeiling(f.lenMs, n);
    if n > 0 {
      FrameCountIsCeiling(f.lenMs, n - 1);
    }
    assert f.lenMs <= n * FrameLengthMs < f.lenMs + FrameLengthMs;
    assert FrameTime(n) == (n * FrameLengthMs) as real / 1000.0;
  }

  /** The silences after the first are still ordered and well formed. */
  lemma OrderedRest(silence: seq<Interval>)
    requires silence != [] && Ordered(silence) && AllWellFormed(silence)
    ensures Ordered(silence[1..]) && AllWellFormed(silence[1..])
    ensures silence[1..] != [] ==> silence[0].end <= silence[1..][0].start
  {
    var more := silence[1..];
    forall a, b | 0 <= a < b < |more| ensures more[a].end <= more[b].start {
      assert more[a] == silence[a + 1] && more[b] == silence[b + 1];
    }
    forall a | 0 <= a < |more| ensures more[a].start <= more[a].end {
      assert more[a] == silence[a + 1];
    }
  }

  /** Between ordered silences, the gaps are ordered, not empty, and start
      at or after the cursor. */
  lemma {:induction false} GapsFromShape(silence: seq<Interval>, cur: real, total: real)
    requires Ordered(silence) && AllWellFormed(silence)
    requires silence != [] ==> cur <= silence[0].start
    ensures var g := GapsFrom(silence, cur, total);
      Ordered(g) && AllProper(g) && (forall k :: 0 <= k < |g| ==> cur <= g[k].start)
    decreases |silence|
  {
    if silence != [] {
      var s0, more := silence[0], silence[1..];
      OrderedRest(silence);
      GapsFromShape(more, s0.end, total);
      var head: seq<Interval> := if cur < s0.start then [Interval(cur, s0.start)] else [];
      var rest := GapsFrom(more, s0.end, total);
      assert GapsFrom(silence, cur, total) == head + rest;
      OrderedConcat(head, rest, s0.end);
    }
  }

  /** No range of `g` overlaps a range of `s`. */
  predicate Disjoint(g: seq<Interval>, s: seq<Interval>)
  {
    forall p, q :: p in g && q in s ==> !Overlap(p, q)
  }

  /** No gap overlaps a silence. */
  lemma {:induction false} GapsAvoidSilence(silence: seq<Interval>, cur: real, total: real)
    requires Ordered(silence) && AllWellFormed(silence)
    requires silence != [] ==> cur <= silence[0].start
    ensures Disjoint(GapsFrom(silence, cur, total), silence)
    decreases |silence|
  {
    if silence != [] {
      var s0, more := silence[0], silence[1..];
      OrderedRest(silence);
      GapsAvoidSilence(more, s0.end, total);
      GapsFromShape(more, s0.end, total);
      var head: seq<Interval> := if cur < s0.start then [Interval(cur, s0.start)] else [];
      var rest := GapsFrom(more, s0.end, total);
      assert GapsFrom(silence, cur, total) == head + rest;
      assert silence == [s0] + more;
      AfterFirstSilence(rest, s0, more);
      BeforeAllSilence(head, silence);
      DisjointConcat(head, rest, silence);
    }
  }

  /** Ranges that start after the first silence ends and miss the later
      silences miss them all. */
  lemma AfterFirstSilence(g: seq<Interval>, s0: Interval, more: seq<Interval>)
    requires Disjoint(g, more)
    requires forall k :: 0 <= k < |g| ==> s0.end <= g[k].start
    ensures Disjoint(g, [s0] + more)
  {
    forall p, q | p in g && q in [s0] + more ensures !Overlap(p, q) {
      if q == s0 {
        var k :| 0 <= k < |g| && g[k] == p;
      }
    }
  }

  /** A gap that ends where the first silence starts misses every silence. */
  lemma BeforeAllSilence(head: seq<Interval>, silence: seq<Interval>)
    requires silence != [] && Ordered(silence) && AllWellFormed(silence)
    requires forall k :: 0 <= k < |head| ==> head[k].end <= silence[0].start
    ensures Disjoint(head, silence)
  {
    forall p, q | p in head && q in silence ensures !Overlap(p, q) {
      var k :| 0 <= k < |head| && head[k] == p;
      var j :| 0 <= j < |silence| && silence[j] == q;
      if j > 0 {
        assert silence[0].end <= silence[j].start;
      }
    }
  }

  lemma DisjointConcat(a: seq<Interval>, b: seq<Interval>, s: seq<Interval>)
    requires Disjoint(a, s) && Disjoint(b, s)
    ensures Disjoint(a + b, s)
  {
  }

  /** Every moment from the cursor up to `total` is in a gap or in a
      silence. */
  lemma {:induction false} GapsFromCover(silence: seq<Interval>, cur: real, total: real, x: real)
    requires cur <= x < total
    ensures Covers(GapsFrom(silence, cur, total), x) || Covers(silence, x)
    decreases |silence|
  {
    var g := GapsFrom(silence, cur, total);
    if silence == [] {
      assert Contains(g[0], x) && g[0] in g;
    } else {
      var s0, more := silence[0], silence[1..];
      var head: seq<Interval> := if cur < s0.start then [Interval(cur, s0.start)] else [];
      var rest := GapsFrom(more, s0.end, total);
      assert g == head + rest;
      if x < s0.start {
        assert head[0] in g && Contains(head[0], x);
      } else if x < s0.end {
        assert s0 in silence && Contains(s0, x);
      } else {
        GapsFromCover(more, s0.end, total, x);
        if Covers(rest, x) {
          var iv :| iv in rest && Contains(iv, x);
          assert iv in g;
        } else {
          var iv :| iv in more && Contains(iv, x);
          assert iv in silence;
        }
      }
    }
  }

  /** The fallback is the complement of the silence within `[0, total)`: its
      ranges are ordered, overlap no silence, and together with the silence
      cover every moment of the track; with any silence at all, none of its
      ranges is empty. */
  lemma FallbackComplement(silence: seq<Interval>, total: real)
    requires Ordered(silence) && AllWellFormed(silence)
    requires silence != [] ==> 0.0 <= silence[0].start
    requires 0.0 <= total
    ensures var sp := Fallback(silence, total);
      Ordered(sp) && AllWellFormed(sp) && (silence != [] ==> AllProper(sp)) && Disjoint(sp, silence) &&
      (forall x :: 0.0 <= x < total ==> Covers(sp, x) || Covers(silence, x))
  {
    var sp := Fallback(silence, total);
    if silence == [] {
      forall x | 0.0 <= x < total ensures Covers(sp, x) {
        assert sp[0] in sp && Contains(sp[0], x);
      }
    } else {
      GapsFromShape(silence, 0.0, total);
      GapsAvoidSilence(silence, 0.0, total);
      forall x | 0.0 <= x < total ensures Covers(sp, x) || Covers(silence, x) {
        GapsFromCover(silence, 0.0, total, x);
      }
    }
  }

  /** `find_speech_segments` as a value: the speech runs, or the fallback
      when there are none. */
  function SpeechSegments(f: Frames, configured: real, minSilence: real): seq<Interval>
  {
    var runs := SpeechRuns(f, configured);
    if runs != [] then runs else Fallback(SilenceSegments(f, configured, minSilence), TotalDuration(f))
  }

  /** The speech ranges are always ordered. With speech frames they cover
      every speech frame; without, they are the complement of the silence
      ranges over the track's duration. */
  lemma SpeechSegmentsShape(f: Frames, configured: real, minSilence: real)
    ensures var sp := SpeechSegments(f, configured, minSilence);
      Ordered(sp) && AllWellFormed(sp) &&
      (forall k :: 0 <= k < |f.db| && IsSpeechFrame(f.db[k], RatioAt(f.ratios, k), Threshold(f, configured)) ==>
        InsideSome(FrameSpan(k), sp))
    ensures SpeechRuns(f, configured) == [] ==>
      var sp, si := SpeechSegments(f, configured, minSilence), SilenceSegments(f, configured, minSilence);
      Disjoint(sp, si) &&
      (forall x :: 0.0 <= x < TotalDuration(f) ==> Covers(sp, x) || Covers(si, x))
  {
    SpeechRunsShape(f, configured);
    if SpeechRuns(f, configured) == [] {
      SilenceSegmentsShape(f, configured, minSilence);
      FallbackComplement(SilenceSegments(f, configured, minSilence), TotalDuration(f));
    }
  }

  // ---------------------------------------------------------------------
  // The analyser and its loops
  // ---------------------------------------------------------------------

  /** One step of the fallback loop: the gaps from silence `k` on are the
      gap before it, if any, then the gaps after it. */
  lemma GapsFromStep(silence: seq<Interval>, k: nat, cur: real, total: real)
    requires k < |silence|
    ensures GapsFrom(silence[k..], cur, total) ==
      (if cur < silence[k].start then [Interval(cur, silence[k].start)] else []) +
      GapsFrom(silence[k + 1..], silence[k].end, total)
  {
    assert silence[k..][0] == silence[k] && silence[k..][1..] == silence[k + 1..];
  }

  lemma AppendAssoc(a: seq<Interval>, b: seq<Interval>, c: seq<Interval>)
    ensures a + (b + c) == a + b + c
  {
  }

  /** The loop of `_fallback_speech_segments` over the silences: emit the
      gap before each silence when it is not empty, move the cursor to the
      silence's end, and emit the tail up to `total`. */
  method CollectGaps(silence: seq<Interval>, total: real) returns (segments: seq<Interval>)
    ensures segments == GapsFrom(silence, 0.0, total)
  {
    segments := [];
    var cur := 0.0;
    for k := 0 to |silence|
      invariant segments + GapsFrom(silence[k..], cur, total) == GapsFrom(silence, 0.0, total)
    {
      GapsFromStep(silence, k, cur, total);
      ghost var rest := GapsFrom(silence[k + 1..], silence[k].end, total);
      if cur < silence[k].start {
        AppendAssoc(segments, [Interval(cur, silence[k].start)], rest);
        segments := segments + [Interval(cur, silence[k].start)];
      } else {
        assert [] + rest == rest;
      }
      cur := silence[k].end;
    }
    assert silence[|silence|..] == [];
    if cur < total {
      segments := segments + [Interval(cur, total)];
    }
  }

  /** `AudioAnalyzer`: the static threshold and the minimum silence length
      are its settable state. */
  class Analyzer {
    var silenceThreshold: real
    var minSilenceDuration: real

    constructor(silenceThreshold: real, minSilenceDuration: real)
      ensures this.silenceThreshold == silenceThreshold
      ensures this.minSilenceDuration == minSilenceDuration
    {
      this.silenceThreshold := silenceThreshold;
      this.minSilenceDuration := minSilenceDuration;
    }

    method SetSilenceThreshold(threshold: real)
      modifies this
      ensures silenceThreshold == threshold && minSilenceDuration == old(minSilenceDuration)
    {
      silenceThreshold := threshold;
    }

    method SetMinSilenceDuration(duration: real)
      modifies this
      ensures minSilenceDuration == duration && silenceThreshold == old(silenceThreshold)
    {
      minSilenceDuration := duration;
    }

    /** The silence loop: opens a run at the first silent frame, closes it at
        the next frame that is not, keeps it if long enough, and closes a run
        still open at the end. */
    method DetectSilenceSegments(f: Frames) returns (segments: seq<Interval>)
      ensures segments == SilenceSegments(f, silenceThreshold, minSilenceDuration)
      ensures forall iv :: iv in segments <==> IsRun(SilenceFlags(f, silenceThreshold), 0, minSilenceDuration, iv)
      ensures Ordered(segments) && AllWithin(segments, 0.0, FrameTime(|f.db|))
    {
      var t := AdaptiveThreshold(silenceThreshold, f.db, f.noiseFloor);
      ghost var flags := SilenceFlags(f, silenceThreshold);
      segments := [];
      var current: Option<real> := None;
      for i := 0 to |f.db|
        invariant OpenState(current, i)
        invariant segments + RunsFrom(flags, i, current, minSilenceDuration) == Runs(flags, minSilenceDuration)
      {
        var endTime := FrameTime(i + 1);
        var ratio := RatioAt(f.ratios, i);
        assert flags[i] == IsSilentFrame(f.db[i], ratio, t);
        if IsSilentFrame(f.db[i], ratio, t) {
          if current.None? {
            current := Some(FrameTime(i));
          }
        } else if current.Some? {
          ghost var kept := RunsFrom(flags, i + 1, None, minSilenceDuration);
          if endTime - current.value >= minSilenceDuration {
            assert segments + ([Interval(current.value, endTime)] + kept) ==
                   segments + [Interval(current.value, endTime)] + kept;
            segments := segments + [Interval(current.value, endTime)];
          }
          current := None;
        }
      }
      if current.Some? {
        var total := FrameTime(|f.db|);
        if total - current.value >= minSilenceDuration {
          segments := segments + [Interval(current.value, total)];
        }
      }
      forall iv ensures iv in segments <==> IsRun(flags, 0, minSilenceDuration, iv) {
        SilenceSegmentsExact(f, silenceThreshold, minSilenceDuration, iv);
      }
      SilenceSegmentsShape(f, silenceThreshold, minSilenceDuration);
    }

    /** `_fallback_speech_segments`: the whole track when there is no
        silence, else the non-empty gaps between silences and the tail. */
    method FallbackSpeechSegments(f: Frames) returns (segments: seq<Interval>)
      ensures segments == Fallback(SilenceSegments(f, silenceThreshold, minSilenceDuration), TotalDuration(f))
    {
      var silence := DetectSilenceSegments(f);
      var total := f.lenMs as real / 1000.0;
      if silence == [] {
        return [Interval(0.0, total)];
      }
      segments := CollectGaps(silence, total);
    }

    /** The speech loop: like the silence loop with the speech test and no
        minimum length; without any speech run, the fallback is used. */
    method FindSpeechSegments(f: Frames) returns (segments: seq<Interval>)
      ensures segments == SpeechSegments(f, silenceThreshold, minSilenceDuration)
      ensures Ordered(segments) && AllWellFormed(segments)
      ensures SpeechRuns(f, silenceThreshold) != [] ==>
        forall iv :: iv in segments <==> IsRun(SpeechFlags(f, silenceThreshold), 0, 0.0, iv)
      ensures SpeechRuns(f, silenceThreshold) == [] <==>
        forall k :: 0 <= k < |f.db| ==> !IsSpeechFrame(f.db[k], RatioAt(f.ratios, k), Threshold(f, silenceThreshold))
      ensures SpeechRuns(f, silenceThreshold) == [] ==>
        var si := SilenceSegments(f, silenceThreshold, minSilenceDuration);
        Disjoint(segments, si) &&
        forall x :: 0.0 <= x < TotalDuration(f) ==> Covers(segments, x) || Covers(si, x)
    {
      var t := AdaptiveThreshold(silenceThreshold, f.db, f.noiseFloor);
      ghost var flags := SpeechFlags(f, silenceThreshold);
      segments := [];
      var current: Option<real> := None;
      for i := 0 to |f.db|
        invariant OpenState(current, i)
        invariant segments + RunsFrom(flags, i, current, 0.0) == Runs(flags, 0.0)
      {
        var endTime := FrameTime(i + 1);
        var ratio := RatioAt(f.ratios, i);
        assert flags[i] == IsSpeechFrame(f.db[i], ratio, t);
        if IsSpeechFrame(f.db[i], ratio, t) {
          if current.None? {
            current := Some(FrameTime(i));
          }
        } else if current.Some? {
          ghost var kept := RunsFrom(flags, i + 1, None, 0.0);
          assert segments + ([Interval(current.value, endTime)] + kept) ==
                 segments + [Interval(current.value, endTime)] + kept;
          segments := segments + [Interval(current.value, endTime)];
          current := None;
        }
      }
      if current.Some? {
        segments := segments + [Interval(current.value, FrameTime(|f.db|))];
      }
      if segments == [] {
        segments := FallbackSpeechSegments(f);
      } else {
        forall iv ensures iv in segments <==> IsRun(flags, 0, 0.0, iv) {
          SpeechRunsExact(f, silenceThreshold, iv);
        }
      }
      SpeechSegmentsShape(f, silenceThreshold, minSilenceDuration);
      SpeechRunsEmpty(f, silenceThreshold);
    }
  }

  // ---------------------------------------------------------------------
  // A worked example
  // ---------------------------------------------------------------------

  /** Six frames at -50, -50, -10, -10, -50, -50 dB with no speech-band
      energy, a configured threshold of -40 dB and a 20th percentile of -50 dB:
      the threshold stays at -40; the first silence run is closed by frame 2
      and so ends at 0.3 s; no frame is speech, so the fallback leaves the
      gap between the two silences. */
  lemma SilenceScenario()
    ensures var f := Frames(600, [-50.0, -50.0, -10.0, -10.0, -50.0, -50.0], [], -50.0);
      SilenceSegments(f, -40.0, 0.15) == [Interval(0.0, 0.3), Interval(0.4, 0.6)] &&
      SpeechSegments(f, -40.0, 0.15) == [Interval(0.3, 0.4)]
  {
    var f := Frames(600, [-50.0, -50.0, -10.0, -10.0, -50.0, -50.0], [], -50.0);
    assert Threshold(f, -40.0) == -40.0;
    var si := SilenceFlags(f, -40.0);
    assert si == [true, true, false, false, true, true];
    assert FrameTime(6) == 0.6;
    assert RunsFrom(si, 6, Some(0.4), 0.15) == [Interval(0.4, 0.6)];
    assert RunsFrom(si, 5, Some(0.4), 0.15) == [Interval(0.4, 0.6)];
    assert RunsFrom(si, 4, None, 0.15) == [Interval(0.4, 0.6)];
    assert RunsFrom(si, 2, Some(0.0), 0.15) == [Interval(0.0, 0.3), Interval(0.4, 0.6)];
    var sp := SpeechFlags(f, -40.0);
    assert sp == [false, false, false, false, false, false];
    assert RunsFrom(sp, 6, None, 0.0) == [];
    assert RunsFrom(sp, 5, None, 0.0) == [];
    assert RunsFrom(sp, 3, None, 0.0) == [];
    assert SpeechRuns(f, -40.0) == [];
    assert GapsFrom([Interval(0.4, 0.6)], 0.3, 0.6) == [Interval(0.3, 0.4)];
  }
}
