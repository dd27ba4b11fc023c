/** The word-event adapter of `ASRFillerDetector`
    (processor/asr_filler_detector.py). The recognizer is a black box: for
    each 8000-byte chunk of audio it either keeps a partial hypothesis or
    completes an utterance whose JSON carries a `"result"` list of word
    records, and a final flush yields one more such result. The adapter turns
    word records into time ranges, keeps all of them (speech) or only the
    filler words (fillers), and merges neighbours with a gap tolerance. */
module AsrFillerDetector {
  import opened Wrappers
  import opened Text
  import opened Intervals
  import opened Progress

  // ---------------------------------------------------------------------
  // Recognizer output
  // ---------------------------------------------------------------------

  /** A `"start"` or `"end"` entry of a word record: missing, a value that
      `float(...)` accepts, or one it rejects with an exception. */
  datatype Field = Absent | Number(value: real) | Malformed

  /** One entry of a result's `"result"` list. */
  datatype WordRecord = WordRecord(word: Option<string>, start: Field, end: Field)

  /** What `json.loads` makes of one recognizer result: `Unparsable` when
      decoding fails, otherwise the `"result"` list (empty when absent). */
  datatype Parsed = Unparsable | Parsed(words: seq<WordRecord>)

  /** The recognizer's answer to one chunk: `AcceptWaveform` was false (only
      a partial hypothesis, whose timings are not used) or an utterance was
      completed. */
  datatype ChunkResult = PartialOnly | Utterance(res: Parsed)

  /** The detector's state after construction: `enabled` holds exactly when
      a model was loaded, so the detect methods' test of both `enabled` and
      the model is the one flag. */
  datatype Detector = Detector(enabled: bool)

  /** The filler lexicon, all lower case. */
  const FillerLexicon: set<string> := {"um", "uh", "umm", "uhh", "erm", "er", "ah", "eh", "mm", "hmm"}
  /** Filler ranges closer than this (seconds) are merged. */
  const FillerMergeGap: real := 0.25
  /** Word ranges closer than this (seconds) form one speech segment. */
  const SpeechMergeGap: real := 0.5
  /** A quarter second of 16 kHz, 16-bit mono audio: `int(0.25 * 16000) * 2`. */
  const ChunkSize: nat := 8000

  /** `float(w.get("start", 0.0))`; `None` when the conversion raises. */
  function StartOf(w: WordRecord): Option<real>
  {
    match w.start
    case Absent => Some(0.0)
    case Number(v) => Some(v)
    case Malformed => None
  }

  /** `float(w.get("end", start))`; `None` when the conversion raises. */
  function EndOf(w: WordRecord, start: real): Option<real>
  {
    match w.end
    case Absent => Some(start)
    case Number(v) => Some(v)
    case Malformed => None
  }

  /** `str(w.get("word", "")).lower()`. */
  function WordText(w: WordRecord): string
  {
    match w.word
    case None => ""
    case Some(s) => Lower(s)
  }

  predicate IsFiller(w: WordRecord)
  {
    WordText(w) in FillerLexicon
  }

  /** The range a record stands for once both times convert. */
  function RecordSpan(w: WordRecord): Option<Interval>
  {
    match StartOf(w)
    case None => None
    case Some(s) =>
      match EndOf(w, s)
      case None => None
      case Some(e) => Some(Interval(s, e))
  }

  /** No record's times make `float(...)` raise. */
  predicate Convertible(words: seq<WordRecord>)
  {
    forall k :: 0 <= k < |words| ==> RecordSpan(words[k]).Some?
  }

  /** What `_collect_words_from_result` appends: the range of every record
      whose end lies after its start, in order, up to the first record whose
      times do not convert (the exception leaves the rest unread). */
  function WordSpans(words: seq<WordRecord>): (r: seq<Interval>)
    ensures AllProper(r) && |r| <= |words|
  {
    if words == [] then []
    else
      match RecordSpan(words[0])
      case None => []
      case Some(iv) =>
        if iv.end > iv.start then [iv] + WordSpans(words[1..]) else WordSpans(words[1..])
  }

  /** What `_collect_fillers_from_result` appends: as `WordSpans`, but only
      for records whose lower-cased word is in the lexicon; the times of other
      records are never converted. */
  function FillerSpans(words: seq<WordRecord>): (r: seq<Interval>)
    ensures AllProper(r) && |r| <= |words|
  {
    if words == [] then []
    else if !IsFiller(words[0]) then FillerSpans(words[1..])
    else
      match RecordSpan(words[0])
      case None => []
      case Some(iv) =>
        if iv.end > iv.start then [iv] + FillerSpans(words[1..]) else FillerSpans(words[1..])
  }

  /** With convertible times, a range is collected exactly when some record
      spans it with positive length. */
  lemma {:induction false} WordSpansExact(words: seq<WordRecord>, iv: Interval)
    requires Convertible(words)
    ensures iv in WordSpans(words) <==>
      exists k :: 0 <= k < |words| && RecordSpan(words[k]) == Some(iv) && iv.start < iv.end
  {
    if words != [] {
      assert Convertible(words[1..]) by {
        forall k | 0 <= k < |words[1..]| ensures RecordSpan(words[1..][k]).Some? {
          assert words[1..][k] == words[k + 1];
        }
      }
      WordSpansExact(words[1..], iv);
      if exists k :: 0 <= k < |words| && RecordSpan(words[k]) == Some(iv) && iv.start < iv.end {
        var k :| 0 <= k < |words| && RecordSpan(words[k]) == Some(iv) && iv.start < iv.end;
        if k > 0 {
          assert words[1..][k - 1] == words[k];
        }
      }
      if iv in WordSpans(words[1..]) {
        var k :| 0 <= k < |words[1..]| && RecordSpan(words[1..][k]) == Some(iv) && iv.start < iv.end;
        assert words[k + 1] == words[1..][k];
      }
    }
  }

  /** A record whose times do not convert ends collection: nothing after it
      is appended. */
  lemma {:induction false} WordSpansStopAtMalformed(words: seq<WordRecord>, k: nat)
    requires k < |words| && RecordSpan(words[k]).None?
    ensures WordSpans(words) == WordSpans(words[..k])
  {
    if k > 0 {
      WordSpansStopAtMalformed(words[1..], k - 1);
      assert words[1..][..k - 1] == words[..k][1..];
    }
  }

  /** Every filler range is also a word range of the same result. */
  lemma {:induction false} FillersAreWords(words: seq<WordRecord>)
    requires Convertible(words)
    ensures forall iv :: iv in FillerSpans(words) ==> iv in WordSpans(words)
  {
    if words != [] {
      assert Convertible(words[1..]) by {
        forall k | 0 <= k < |words[1..]| ensures RecordSpan(words[1..][k]).Some? {
          assert words[1..][k] == words[k + 1];
        }
      }
      FillersAreWords(words[1..]);
    }
  }

  /** No filler record's times make `float(...)` raise; the times of other
      records are never read. */
  predicate FillersConvertible(words: seq<WordRecord>)
  {
    forall k :: 0 <= k < |words| && IsFiller(words[k]) ==> RecordSpan(words[k]).Some?
  }

  /** Some record whose lower-cased word is in the lexicon spans `iv` with
      positive length. */
  predicate IsFillerRange(words: seq<WordRecord>, iv: Interval)
  {
    exists k :: 0 <= k < |words| && IsFiller(words[k]) && RecordSpan(words[k]) == Some(iv) && iv.start < iv.end
  }

  /** With convertible filler times, a range is collected exactly when some
      filler record spans it with positive length: the lexicon filter and
      the length filter, both ways. */
  lemma {:induction false} FillerSpansExact(words: seq<WordRecord>, iv: Interval)
    requires FillersConvertible(words)
    ensures iv in FillerSpans(words) <==> IsFillerRange(words, iv)
  {
    if words != [] {
      assert FillersConvertible(words[1..]) by {
        forall k | 0 <= k < |words[1..]| && IsFiller(words[1..][k])
          ensures RecordSpan(words[1..][k]).Some?
        {
          assert words[1..][k] == words[k + 1];
        }
      }
      FillerSpansExact(words[1..], iv);
      if IsFillerRange(words, iv) {
        var k :| 0 <= k < |words| && IsFiller(words[k]) && RecordSpan(words[k]) == Some(iv) && iv.start < iv.end;
        if k > 0 {
          assert words[1..][k - 1] == words[k];
        }
      }
      if IsFillerRange(words[1..], iv) {
        var k :| 0 <= k < |words[1..]| && IsFiller(words[1..][k]) && RecordSpan(words[1..][k]) == Some(iv) && iv.start < iv.end;
        assert words[k + 1] == words[1..][k];
      }
    }
  }

  /** A filler record whose times do not convert ends the collection: the
      ranges are those of the records before it. */
  lemma {:induction false} FillerSpansStopAtMalformed(words: seq<WordRecord>, k: nat)
    requires k < |words| && IsFiller(words[k]) && RecordSpan(words[k]).None?
    ensures FillerSpans(words) == FillerSpans(words[..k])
  {
    if k > 0 {
      FillerSpansStopAtMalformed(words[1..], k - 1);
      assert words[1..][..k - 1] == words[..k][1..];
    }
  }

  /** The lexicon is lower case, so a capitalised filler such as "Um" is
      recognised while a word outside the lexicon never is. */
  lemma FillerMatchIgnoresCase()
    ensures IsFiller(WordRecord(Some("Um"), Number(1.0), Number(1.25)))
    ensures IsFiller(WordRecord(Some("HMM"), Absent, Absent))
    ensures !IsFiller(WordRecord(Some("hello"), Number(1.0), Number(1.5)))
    ensures !IsFiller(WordRecord(None, Number(1.0), Number(1.5)))
  {
    assert Lower("Um") == "um";
    assert Lower("HMM") == "hmm";
    assert Lower("hello") == "hello";
    assert "hello" !in FillerLexicon;
  }

  /** A filler without an `"end"` gets end = start and is dropped; a word
      outside the lexicon is skipped even when its times are malformed. */
  lemma FillerScenario()
    ensures FillerSpans([
      WordRecord(Some("hello"), Malformed, Malformed),
      WordRecord(Some("Um"), Number(1.0), Number(1.25)),
      WordRecord(Some("uh"), Number(2.0), Absent)]) == [Interval(1.0, 1.25)]
  {
    var ws := [
      WordRecord(Some("hello"), Malformed, Malformed),
      WordRecord(Some("Um"), Number(1.0), Number(1.25)),
      WordRecord(Some("uh"), Number(2.0), Absent)];
    FillerMatchIgnoresCase();
    assert Lower("uh") == "uh";
    assert ws[1..][1..] == [ws[2]];
    assert ws[1..][1..][1..] == [];
  }

  /** `_collect_words_from_result(res, out)`: appends to the caller's list;
      a conversion error stops the loop and the exception is swallowed by the
      caller, keeping what was already appended. */
  method CollectWordsFromResult(words: seq<WordRecord>, out: seq<Interval>) returns (out': seq<Interval>)
    ensures out' == out + WordSpans(words)
  {
    out' := out;
    var k := 0;
    while k < |words|
      invariant k <= |words|
      invariant out' + WordSpans(words[k..]) == out + WordSpans(words)
    {
      var w := words[k];
      assert words[k..][0] == w && words[k..][1..] == words[k + 1..];
      var s := StartOf(w);
      if s.None? {
        return;
      }
      var e := EndOf(w, s.value);
      if e.None? {
        return;
      }
      if e.value > s.value {
        out' := out' + [Interval(s.value, e.value)];
      }
      k := k + 1;
    }
    assert words[k..] == [];
  }

  /** The ranges a collection appends to `out` are the filler ranges. */
  lemma AppendedFillers(words: seq<WordRecord>, out: seq<Interval>)
    ensures FillersConvertible(words) ==>
      forall iv :: iv in out + FillerSpans(words) <==> iv in out || IsFillerRange(words, iv)
  {
    if FillersConvertible(words) {
      forall iv ensures iv in out + FillerSpans(words) <==> iv in out || IsFillerRange(words, iv) {
        FillerSpansExact(words, iv);
      }
    }
  }

  /** `_collect_fillers_from_result(res, out)`. */
  method CollectFillersFromResult(words: seq<WordRecord>, out: seq<Interval>) returns (out': seq<Interval>)
    ensures out' == out + FillerSpans(words)
    ensures FillersConvertible(words) ==>
      forall iv :: iv in out' <==> iv in out || IsFillerRange(words, iv)
  {
    AppendedFillers(words, out);
    out' := out;
    var k := 0;
    while k < |words|
      invariant k <= |words|
      invariant out' + FillerSpans(words[k..]) == out + FillerSpans(words)
    {
      var w := words[k];
      assert words[k..][0] == w && words[k..][1..] == words[k + 1..];
      if WordText(w) in FillerLexicon {
        var s := StartOf(w);
        if s.None? {
          return;
        }
        var e := EndOf(w, s.value);
        if e.None? {
          return;
        }
        if e.value > s.value {
          out' := out' + [Interval(s.value, e.value)];
        }
      }
      k := k + 1;
    }
    assert words[k..] == [];
  }

  /** `_merge_adjacent(ranges, max_gap)`: the same sort-and-fold as
      `_merge_intervals`. */
  method MergeAdjacent(ranges: seq<Interval>, maxGap: real) returns (merged: seq<Interval>)
    ensures merged == Merged(ranges, maxGap)
    ensures merged == [] <==> ranges == []
    ensures SortedByStart(merged) && Separated(merged, maxGap)
    ensures forall iv :: iv in ranges ==> InsideSome(iv, merged)
  {
    merged := MergeIntervals(ranges, maxGap);
  }

  // ---------------------------------------------------------------------
  // Chunk loop and progress
  // ---------------------------------------------------------------------

  /** The number of chunks `range(0, len(raw), chunk_size)` yields. */
  function ChunkCount(rawLen: nat): nat
  {
    (rawLen + ChunkSize - 1) / ChunkSize
  }

  /** `total_chunks = max(1, ...)`, the denominator of the progress fraction. */
  function TotalChunks(count: nat): (t: nat)
    ensures t >= 1 && t >= count
  {
    if count < 1 then 1 else count
  }

  /** Chunk `k` (0-based) exists exactly when its first byte `k * 8000` lies
      inside the audio, so the count is the ceiling of `rawLen / 8000`. */
  lemma ChunkCountIsCeiling(rawLen: nat, k: nat)
    ensures k < ChunkCount(rawLen) <==> k * ChunkSize < rawLen
  {
    var q := ChunkCount(rawLen);
    assert q * ChunkSize <= rawLen + ChunkSize - 1 < (q + 1) * ChunkSize;
    if k < q {
      assert k * ChunkSize <= (q - 1) * ChunkSize;
    } else {
      assert k * ChunkSize >= q * ChunkSize;
    }
  }

  /** `start_pct + (end_pct - start_pct) * (idx / total_chunks)`. */
  function ChunkProgress(idx: nat, total: nat, startPct: real, endPct: real): real
    requires total > 0
  {
    InBand(startPct, endPct, idx as real / total as real)
  }

  /** The reports of the first `count` loop iterations. */
  function LoopReports(count: nat, total: nat, startPct: real, endPct: real): (r: seq<real>)
    requires total > 0
    ensures |r| == count
  {
    if count == 0 then []
    else LoopReports(count - 1, total, startPct, endPct) + [ChunkProgress(count, total, startPct, endPct)]
  }

  /** Every progress report of one detect call: one per chunk, then `end_pct`. */
  function ProgressReports(count: nat, startPct: real, endPct: real): seq<real>
  {
    LoopReports(count, TotalChunks(count), startPct, endPct) + [endPct]
  }

  lemma {:induction false} LoopReportAt(count: nat, total: nat, startPct: real, endPct: real, k: nat)
    requires total > 0 && k < count
    ensures LoopReports(count, total, startPct, endPct)[k] == ChunkProgress(k + 1, total, startPct, endPct)
  {
    if k < count - 1 {
      LoopReportAt(count - 1, total, startPct, endPct, k);
    }
  }

  lemma ChunkProgressMonotone(a: nat, b: nat, total: nat, startPct: real, endPct: real)
    requires 0 < total && a <= b <= total && startPct <= endPct
    ensures startPct <= ChunkProgress(a, total, startPct, endPct) <= ChunkProgress(b, total, startPct, endPct) <= endPct
    ensures startPct < endPct && a < b ==> ChunkProgress(a, total, startPct, endPct) < ChunkProgress(b, total, startPct, endPct)
  {
    FractionBounds(a, total);
    FractionBounds(b, total);
    if a < b {
      FractionMonotone(a, b, total);
    }
    InBandMonotone(startPct, endPct, a as real / total as real, b as real / total as real);
  }

  /** The reports of a detect call start no lower than `start_pct`, never go
      down, stay within `[start_pct, end_pct]` and end at `end_pct`; with at
      least one chunk the last loop report already reaches `end_pct`, and
      with `start_pct < end_pct` the loop reports rise strictly. */
  lemma ProgressRises(count: nat, startPct: real, endPct: real)
    requires startPct <= endPct
    ensures var r := ProgressReports(count, startPct, endPct);
      |r| == count + 1 && r[count] == endPct &&
      (forall i, j :: 0 <= i <= j < |r| ==> startPct <= r[i] <= r[j] <= endPct) &&
      (count > 0 ==> r[count - 1] == endPct) &&
      (startPct < endPct ==> forall i, j :: 0 <= i < j < count ==> r[i] < r[j])
  {
    var total := TotalChunks(count);
    var r := ProgressReports(count, startPct, endPct);
    forall i | 0 <= i < count ensures r[i] == ChunkProgress(i + 1, total, startPct, endPct) {
      LoopReportAt(count, total, startPct, endPct, i);
    }
    forall i, j | 0 <= i <= j < |r| ensures startPct <= r[i] <= r[j] <= endPct {
      if j < count {
        ChunkProgressMonotone(i + 1, j + 1, total, startPct, endPct);
      } else if i < count {
        ChunkProgressMonotone(i + 1, total, total, startPct, endPct);
      }
    }
    if count > 0 {
      assert r[count - 1] == ChunkProgress(count, total, startPct, endPct);
      FractionBounds(count, total);
    }
    if startPct < endPct {
      forall i, j | 0 <= i < j < count ensures r[i] < r[j] {
        ChunkProgressMonotone(i + 1, j + 1, total, startPct, endPct);
      }
    }
  }

  // ---------------------------------------------------------------------
  // The two detect passes
  // ---------------------------------------------------------------------

  /** The words of a result that `json.loads` could decode. */
  function ParsedWords(p: Parsed): seq<WordRecord>
  {
    if p.Parsed? then p.words else []
  }

  /** The records of the completed utterances among the first chunks. */
  function ChunkWords(chunks: seq<ChunkResult>): seq<seq<WordRecord>>
    ensures |ChunkWords(chunks)| <= |chunks|
  {
    if chunks == [] then []
    else
      var last := chunks[|chunks| - 1];
      ChunkWords(chunks[..|chunks| - 1]) + (if last.Utterance? && last.res.Parsed? then [last.res.words] else [])
  }

  /** The word ranges one pass collects from the chunk results and the final
      flush, before merging. */
  function SpeechWordSpans(chunks: seq<ChunkResult>, final: Parsed): seq<Interval>
  {
    ConcatWordSpans(ChunkWords(chunks) + [ParsedWords(final)])
  }

  function ConcatWordSpans(results: seq<seq<WordRecord>>): (r: seq<Interval>)
    ensures AllProper(r)
  {
    if results == [] then []
    else
      var p := ConcatWordSpans(results[..|results| - 1]);
      var q := WordSpans(results[|results| - 1]);
      assert AllProper(p + q) by {
        forall k | 0 <= k < |p + q| ensures (p + q)[k].start < (p + q)[k].end {
          if k >= |p| {
            assert (p + q)[k] == q[k - |p|];
          }
        }
      }
      p + q
  }

  function FillerWordSpans(chunks: seq<ChunkResult>, final: Parsed): seq<Interval>
  {
    ConcatFillerSpans(ChunkWords(chunks) + [ParsedWords(final)])
  }

  function ConcatFillerSpans(results: seq<seq<WordRecord>>): (r: seq<Interval>)
    ensures AllProper(r)
  {
    if results == [] then []
    else
      var p := ConcatFillerSpans(results[..|results| - 1]);
      var q := FillerSpans(results[|results| - 1]);
      assert AllProper(p + q) by {
        forall k | 0 <= k < |p + q| ensures (p + q)[k].start < (p + q)[k].end {
          if k >= |p| {
            assert (p + q)[k] == q[k - |p|];
          }
        }
      }
      p + q
  }

  lemma ConcatStep(results: seq<seq<WordRecord>>, ws: seq<WordRecord>)
    ensures ConcatWordSpans(results + [ws]) == ConcatWordSpans(results) + WordSpans(ws)
    ensures ConcatFillerSpans(results + [ws]) == ConcatFillerSpans(results) + FillerSpans(ws)
  {
    assert (results + [ws])[..|results|] == results;
  }

  lemma ChunkWordsStep(chunks: seq<ChunkResult>, n: nat)
    requires n < |chunks|
    ensures ChunkWords(chunks[..n + 1]) ==
      ChunkWords(chunks[..n]) + (if chunks[n].Utterance? && chunks[n].res.Parsed? then [chunks[n].res.words] else [])
  {
    assert chunks[..n + 1][..n] == chunks[..n];
  }

  /** `detect_speech_segments`: a detector that is disabled or has no model
      returns `[]` without reporting; otherwise every completed utterance and
      the final flush contribute their word ranges, one progress report is
      made per chunk plus a last one at `end_pct`, and the words are merged
      with a 0.5 s gap. */
  method DetectSpeechSegments(d: Detector, rawLen: nat, chunks: seq<ChunkResult>, final: Parsed,
                              startPct: real, endPct: real)
    returns (segments: seq<Interval>, reports: seq<real>)
    requires |chunks| == ChunkCount(rawLen)
    ensures !d.enabled ==> segments == [] && reports == []
    ensures d.enabled ==> segments == Merged(SpeechWordSpans(chunks, final), SpeechMergeGap)
    ensures d.enabled ==> reports == ProgressReports(|chunks|, startPct, endPct)
  {
    if !d.enabled {
      return [], [];
    }
    var total := TotalChunks(|chunks|);
    var words: seq<Interval> := [];
    reports := [];
    for idx := 1 to |chunks| + 1
      invariant words == ConcatWordSpans(ChunkWords(chunks[..idx - 1]))
      invariant reports == LoopReports(idx - 1, total, startPct, endPct)
    {
      ChunkWordsStep(chunks, idx - 1);
      var c := chunks[idx - 1];
      if c.Utterance? && c.res.Parsed? {
        words := CollectWordsFromResult(c.res.words, words);
        ConcatStep(ChunkWords(chunks[..idx - 1]), c.res.words);
        assert ChunkWords(chunks[..idx]) == ChunkWords(chunks[..idx - 1]) + [c.res.words];
        assert words == ConcatWordSpans(ChunkWords(chunks[..idx]));
      } else {
        assert ChunkWords(chunks[..idx]) == ChunkWords(chunks[..idx - 1]);
      }
      reports := reports + [ChunkProgress(idx, total, startPct, endPct)];
    }
    assert chunks[..|chunks|] == chunks;
    var finalWords := ParsedWords(final);
    words := CollectWordsFromResult(finalWords, words);
    ConcatStep(ChunkWords(chunks), finalWords);
    reports := reports + [endPct];
    segments := MergeAdjacent(words, SpeechMergeGap);
  }

  /** `detect_fillers`: the same pass keeping only lexicon words, merged with
      a 0.25 s gap. */
  method DetectFillers(d: Detector, rawLen: nat, chunks: seq<ChunkResult>, final: Parsed,
                       startPct: real, endPct: real)
    returns (fillers: seq<Interval>, reports: seq<real>)
    requires |chunks| == ChunkCount(rawLen)
    ensures !d.enabled ==> fillers == [] && reports == []
    ensures d.enabled ==> fillers == Merged(FillerWordSpans(chunks, final), FillerMergeGap)
    ensures d.enabled ==> reports == ProgressReports(|chunks|, startPct, endPct)
  {
    if !d.enabled {
      return [], [];
    }
    var total := TotalChunks(|chunks|);
    var found: seq<Interval> := [];
    reports := [];
    for idx := 1 to |chunks| + 1
      invariant found == ConcatFillerSpans(ChunkWords(chunks[..idx - 1]))
      invariant reports == LoopReports(idx - 1, total, startPct, endPct)
    {
      ChunkWordsStep(chunks, idx - 1);
      var c := chunks[idx - 1];
      if c.Utterance? && c.res.Parsed? {
        found := CollectFillersFromResult(c.res.words, found);
        ConcatStep(ChunkWords(chunks[..idx - 1]), c.res.words);
        assert ChunkWords(chunks[..idx]) == ChunkWords(chunks[..idx - 1]) + [c.res.words];
        assert found == ConcatFillerSpans(ChunkWords(chunks[..idx]));
      } else {
        assert ChunkWords(chunks[..idx]) == ChunkWords(chunks[..idx - 1]);
      }
      reports := reports + [ChunkProgress(idx, total, startPct, endPct)];
    }
    assert chunks[..|chunks|] == chunks;
    var finalWords := ParsedWords(final);
    found := CollectFillersFromResult(finalWords, found);
    ConcatStep(ChunkWords(chunks), finalWords);
    fillers := MergeAdjacent(found, FillerMergeGap);
    reports := reports + [endPct];
  }

  /** The speech segments of a pass are sorted, positive, pairwise disjoint
      and separated by more than 0.5 s, and cover every collected word. */
  lemma SpeechSegmentsShape(chunks: seq<ChunkResult>, final: Parsed)
    ensures var s := Merged(SpeechWordSpans(chunks, final), SpeechMergeGap);
      SortedByStart(s) && Separated(s, SpeechMergeGap) && Ordered(s) && AllProper(s) &&
      (forall iv :: iv in SpeechWordSpans(chunks, final) ==> InsideSome(iv, s))
  {
    var w := SpeechWordSpans(chunks, final);
    MergedShape(w, SpeechMergeGap);
    MergedCovers(w, SpeechMergeGap);
    MergedProper(w, SpeechMergeGap);
    SeparatedIsOrdered(Merged(w, SpeechMergeGap), SpeechMergeGap);
  }

  /** The filler ranges of a pass are sorted, positive and pairwise disjoint
      and cover every collected filler word. */
  lemma FillerRangesShape(chunks: seq<ChunkResult>, final: Parsed)
    ensures var s := Merged(FillerWordSpans(chunks, final), FillerMergeGap);
      SortedByStart(s) && Separated(s, FillerMergeGap) && Ordered(s) && AllProper(s) &&
      (forall iv :: iv in FillerWordSpans(chunks, final) ==> InsideSome(iv, s))
  {
    var w := FillerWordSpans(chunks, final);
    MergedShape(w, FillerMergeGap);
    MergedCovers(w, FillerMergeGap);
    MergedProper(w, FillerMergeGap);
    SeparatedIsOrdered(Merged(w, FillerMergeGap), FillerMergeGap);
  }
}
