/** The interval-level core of `VideoProcessor` (processor/video_processor.py):
    subtracting filler ranges from speech ranges, the export codec tables,
    the keep-or-fail decision of `process_video` and the statistics of
    `analyze_video`. */
module VideoProcessor {
  import opened Wrappers
  import opened Text
  import opened Intervals
  import opened Progress
  import Asr = AsrFillerDetector

  // ---------------------------------------------------------------------
  // _subtract_intervals
  // ---------------------------------------------------------------------

  lemma CoversGrow(s: seq<Interval>, p: Interval)
    ensures forall x :: Covers(s, x) ==> Covers(s + [p], x)
    ensures forall x :: Contains(p, x) ==> Covers(s + [p], x)
  {
    forall x | Covers(s, x) ensures Covers(s + [p], x) {
      var iv :| iv in s && Contains(iv, x);
      assert iv in s + [p];
    }
    forall x | Contains(p, x) ensures Covers(s + [p], x) {
      assert p in s + [p];
    }
  }

  /** Appending a positive-length range that starts no earlier than every
      range before it ends keeps a list ordered. */
  lemma OrderedAppend(s: seq<Interval>, p: Interval)
    requires Ordered(s) && AllProper(s) && p.start < p.end
    requires forall q :: q in s ==> q.end <= p.start
    ensures Ordered(s + [p]) && AllProper(s + [p])
  {
    forall i, j | 0 <= i < j < |s + [p]| ensures (s + [p])[i].end <= (s + [p])[j].start {
      if j == |s| {
        assert s[i] in s;
      }
    }
  }

  /** A piece that starts after every cut before index `j` ends, and ends
      before cut `j` starts, overlaps no cut of a start-sorted list. */
  lemma PieceAvoidsCuts(c: seq<Interval>, j: nat, p: Interval)
    requires SortedByStart(c) && j <= |c|
    requires forall t :: 0 <= t < j ==> c[t].end <= p.start
    requires j < |c| ==> p.end <= c[j].start
    ensures forall iv :: iv in c ==> !Overlap(p, iv)
  {
    forall iv | iv in c ensures !Overlap(p, iv) {
      var t :| 0 <= t < |c| && c[t] == iv;
      if t >= j {
        assert c[j].start <= c[t].start;
      }
    }
  }

  /** One step of the inner sweep keeps "every point of `[cs, min(cur, ce))`
      outside the cuts is covered by the result". */
  lemma SweepCovers(c: seq<Interval>, j: nat, result: seq<Interval>, result': seq<Interval>,
                    cs: real, ce: real, cur: real, cur': real)
    requires j < |c|
    requires forall x :: cs <= x < cur && x < ce && !Covers(c, x) ==> Covers(result, x)
    requires forall x :: Covers(result, x) ==> Covers(result', x)
    requires c[j].start > cur ==> forall x :: Contains(Interval(cur, Min(c[j].start, ce)), x) ==> Covers(result', x)
    requires cur' == Max(cur, c[j].end)
    ensures forall x :: cs <= x < cur' && x < ce && !Covers(c, x) ==> Covers(result', x)
  {
    forall x | cs <= x < cur' && x < ce && !Covers(c, x) ensures Covers(result', x) {
      if x >= cur {
        if c[j].start <= x {
          assert c[j] in c && Contains(c[j], x);
        } else {
          assert Contains(Interval(cur, Min(c[j].start, ce)), x);
        }
      }
    }
  }

  /** The body of the outer loop of `_subtract_intervals` for one base
      range `r`: move the shared cursor past the cuts that end before `r`
      starts, then sweep the cuts that start before `r` ends, emitting the
      uncut gaps, and finally the uncut tail. `chain` is a proof-only flag
      saying that the cuts are well formed. */
  method CarveRange(c: seq<Interval>, i0: nat, r: Interval, ghost chain: bool) returns (i: nat, pieces: seq<Interval>)
    requires SortedByStart(c) && i0 <= |c|
    requires forall t :: 0 <= t < i0 ==> c[t].end <= r.start
    requires chain ==> AllWellFormed(c)
    ensures i0 <= i <= |c|
    ensures forall t :: 0 <= t < i ==> c[t].end <= r.start
    ensures AllProper(pieces) && forall p :: p in pieces ==> Within(p, r)
    ensures forall p, iv :: p in pieces && iv in c ==> !Overlap(p, iv)
    ensures forall x :: Contains(r, x) && !Covers(c, x) ==> Covers(pieces, x)
    ensures chain ==> Ordered(pieces)
  {
    var cs, ce := r.start, r.end;
    i := i0;
    while i < |c| && c[i].end <= cs
      invariant i0 <= i <= |c|
      invariant forall t :: 0 <= t < i ==> c[t].end <= cs
    {
      i := i + 1;
    }
    pieces := [];
    var j := i;
    var cur := cs;
    while j < |c| && c[j].start < ce
      invariant i <= j <= |c|
      invariant cs <= cur
      invariant forall t :: 0 <= t < j ==> c[t].end <= cur
      invariant AllProper(pieces) && forall p :: p in pieces ==> Within(p, r)
      invariant forall p, iv :: p in pieces && iv in c ==> !Overlap(p, iv)
      invariant forall x :: cs <= x < cur && x < ce && !Covers(c, x) ==> Covers(pieces, x)
      invariant chain ==> Ordered(pieces) && forall p :: p in pieces ==> p.end <= cur
    {
      var cutS, cutE := c[j].start, c[j].end;
      ghost var prev, prevCur := pieces, cur;
      if cutS > cur {
        var piece := Interval(cur, Min(cutS, ce));
        PieceAvoidsCuts(c, j, piece);
        CoversGrow(pieces, piece);
        if chain { OrderedAppend(pieces, piece); }
        pieces := pieces + [piece];
      }
      cur := Max(cur, cutE);
      SweepCovers(c, j, prev, pieces, cs, ce, prevCur, cur);
      if cur >= ce {
        break;
      }
      j := j + 1;
    }
    if cur < ce {
      var piece := Interval(cur, ce);
      PieceAvoidsCuts(c, j, piece);
      CoversGrow(pieces, piece);
      if chain { OrderedAppend(pieces, piece); }
      pieces := pieces + [piece];
    }
  }

  /** The state of the outer loop of `_subtract_intervals` once the first
      `n` (sorted) base ranges are done and the cut cursor is at `i`. */
  ghost predicate Swept(b: seq<Interval>, c: seq<Interval>, base: seq<Interval>,
                        n: nat, i: nat, result: seq<Interval>)
  {
    n <= |b| && i <= |c| && (n == 0 ==> i == 0) &&
    (n > 0 ==> forall t :: 0 <= t < i ==> c[t].end <= b[n - 1].start) &&
    AllProper(result) && (forall p :: p in result ==> InsideSome(p, base)) &&
    (forall p, iv :: p in result && iv in c ==> !Overlap(p, iv)) &&
    (forall m, x :: 0 <= m < n && Contains(b[m], x) && !Covers(c, x) ==> Covers(result, x)) &&
    (Ordered(b) && AllWellFormed(c) ==>
       Ordered(result) && (n < |b| ==> forall p :: p in result ==> p.end <= b[n].start))
  }

  /** The cursor never passes a cut that the next base range could meet:
      every cut before it ends by the time that range starts. */
  lemma SweptCursor(b: seq<Interval>, c: seq<Interval>, base: seq<Interval>,
                    n: nat, i: nat, result: seq<Interval>)
    requires SortedByStart(b) && Swept(b, c, base, n, i, result) && n < |b|
    ensures forall t :: 0 <= t < i ==> c[t].end <= b[n].start
  {
    if n > 0 {
      assert b[n - 1].start <= b[n].start;
    }
  }

  /** Appending the pieces carved from base range `b[n]` advances the loop
      state from `n` to `n + 1`. */
  lemma SweepStep(b: seq<Interval>, c: seq<Interval>, base: seq<Interval>,
                  n: nat, i: nat, result: seq<Interval>, i': nat, pieces: seq<Interval>)
    requires SortedByStart(b) && Swept(b, c, base, n, i, result) && n < |b| && b[n] in base
    requires i <= i' <= |c|
    requires forall t :: 0 <= t < i' ==> c[t].end <= b[n].start
    requires AllProper(pieces) && forall p :: p in pieces ==> Within(p, b[n])
    requires forall p, iv :: p in pieces && iv in c ==> !Overlap(p, iv)
    requires forall x :: Contains(b[n], x) && !Covers(c, x) ==> Covers(pieces, x)
    requires AllWellFormed(c) ==> Ordered(pieces)
    ensures Swept(b, c, base, n + 1, i', result + pieces)
  {
    var r := result + pieces;
    forall m, x | 0 <= m <= n && Contains(b[m], x) && !Covers(c, x) ensures Covers(r, x) {
      CoversAppend(result, pieces, x);
    }
    forall p | p in r ensures InsideSome(p, base) {
      if p in pieces {
        assert Within(p, b[n]);
      }
    }
    assert AllProper(r) by {
      forall k | 0 <= k < |r| ensures r[k].start < r[k].end {
        if k >= |result| {
          assert r[k] == pieces[k - |result|];
        }
      }
    }
    if Ordered(b) && AllWellFormed(c) {
      OrderedConcat(result, pieces, b[n].start);
      if n + 1 < |b| {
        assert b[n].end <= b[n + 1].start && b[n].start <= b[n + 1].start;
      }
    }
  }

  /** What the loop state says once every base range is done. */
  lemma SweptFacts(b: seq<Interval>, c: seq<Interval>, base: seq<Interval>, i: nat, result: seq<Interval>)
    requires Swept(b, c, base, |b|, i, result)
    ensures AllProper(result) && forall p :: p in result ==> InsideSome(p, base)
    ensures forall p, iv :: p in result && iv in c ==> !Overlap(p, iv)
    ensures forall m, x :: 0 <= m < |b| && Contains(b[m], x) && !Covers(c, x) ==> Covers(result, x)
    ensures Ordered(b) && AllWellFormed(c) ==> Ordered(result)
  {
  }

  /** Facts about the sorted copies carry back to the caller's lists. */
  lemma BackFromSorted(base: seq<Interval>, cuts: seq<Interval>, result: seq<Interval>)
    requires forall p, iv :: p in result && iv in SortByStart(cuts) ==> !Overlap(p, iv)
    requires forall m, x ::
      (0 <= m < |SortByStart(base)| && Contains(SortByStart(base)[m], x) && !Covers(SortByStart(cuts), x))
      ==> Covers(result, x)
    ensures forall p, iv :: p in result && iv in cuts ==> !Overlap(p, iv)
    ensures forall x :: Covers(base, x) && !Covers(cuts, x) ==> Covers(result, x)
  {
    var b := SortByStart(base);
    forall x | Covers(base, x) && !Covers(cuts, x) ensures Covers(result, x) {
      var iv :| iv in base && Contains(iv, x);
      SortKeepsMembers(base, iv);
      SortKeepsCover(cuts, x);
      var m :| 0 <= m < |b| && b[m] == iv;
    }
    forall p, iv | p in result && iv in cuts ensures !Overlap(p, iv) {
      SortKeepsMembers(cuts, iv);
    }
  }

  /** A sorted, disjoint base list is its own sorted copy, and sorting keeps
      the cuts well formed. */
  lemma ChainSurvivesSort(base: seq<Interval>, cuts: seq<Interval>)
    ensures SortedByStart(base) && Ordered(base) && AllWellFormed(cuts) ==>
      Ordered(SortByStart(base)) && AllWellFormed(SortByStart(cuts))
  {
    if SortedByStart(base) && Ordered(base) && AllWellFormed(cuts) {
      SortSortedIsIdentity(base);
      var c := SortByStart(cuts);
      forall t | 0 <= t < |c| ensures c[t].start <= c[t].end {
        SortKeepsMembers(cuts, c[t]);
        var u :| 0 <= u < |cuts| && cuts[u] == c[t];
      }
    }
  }

  /** `_subtract_intervals(base, cuts)`: the parts of the base ranges that no
      cut covers. Both lists are sorted by start; the cursor `i` over the
      cuts only moves forward from one base range to the next. */
  method SubtractIntervals(base: seq<Interval>, cuts: seq<Interval>) returns (result: seq<Interval>)
    ensures base == [] ==> result == []
    ensures base != [] && cuts == [] ==> result == base
    ensures cuts != [] ==> AllProper(result) && forall p :: p in result ==> InsideSome(p, base)
    ensures forall p, c :: p in result && c in cuts ==> !Overlap(p, c)
    ensures forall x :: Covers(base, x) && !Covers(cuts, x) ==> Covers(result, x)
    ensures SortedByStart(base) && Ordered(base) && AllWellFormed(cuts) ==> Ordered(result)
  {
    if |base| == 0 {
      return [];
    }
    if |cuts| == 0 {
      return base;
    }
    var b := SortByStart(base);
    var c := SortByStart(cuts);
    ChainSurvivesSort(base, cuts);
    result := [];
    var i := 0;
    for n := 0 to |b|
      invariant Swept(b, c, base, n, i, result)
    {
      SweptCursor(b, c, base, n, i, result);
      assert b[n] in base by { SortKeepsMembers(base, b[n]); }
      var i', pieces := CarveRange(c, i, b[n], AllWellFormed(c));
      SweepStep(b, c, base, n, i, result, i', pieces);
      i, result := i', result + pieces;
    }
    SweptFacts(b, c, base, i, result);
    BackFromSorted(base, cuts, result);
  }

  /** Removing the cuts leaves nothing exactly when every point of the base
      ranges lies in some cut (given positive-length base ranges when there
      are no cuts). */
  lemma SubtractEmptyIff(base: seq<Interval>, cuts: seq<Interval>, result: seq<Interval>)
    requires cuts == [] ==> result == base && AllProper(base)
    requires cuts != [] ==> AllProper(result) && forall p :: p in result ==> InsideSome(p, base)
    requires forall p, c :: p in result && c in cuts ==> !Overlap(p, c)
    requires forall x :: Covers(base, x) && !Covers(cuts, x) ==> Covers(result, x)
    ensures result == [] <==> forall x :: Covers(base, x) ==> Covers(cuts, x)
  {
    if result == [] {
      forall x | Covers(base, x) ensures Covers(cuts, x) {
        assert !Covers(result, x);
      }
    } else {
      var p := result[0];
      assert p in result;
      if cuts == [] {
        assert Contains(p, p.start) && Covers(base, p.start);
      } else {
        var outer :| outer in base && Within(p, outer);
        assert Contains(outer, p.start);
        if Covers(cuts, p.start) {
          var c :| c in cuts && Contains(c, p.start);
          assert Overlap(p, c);
          assert false;
        }
      }
    }
  }

  // ---------------------------------------------------------------------
  // Export codecs
  // ---------------------------------------------------------------------

  /** A video codec and an audio codec for `write_videofile`. */
  datatype CodecPair = CodecPair(codec: string, audioCodec: string)

  const DefaultCodecs: CodecPair := CodecPair("libx264", "aac")

  /** The container-specific codec table of `_get_codec_settings`. */
  const CodecTable: map<string, CodecPair> := map[
    ".mp4" := CodecPair("libx264", "aac"),
    ".avi" := CodecPair("mpeg4", "libmp3lame"),
    ".mov" := CodecPair("libx264", "aac"),
    ".mkv" := CodecPair("libx264", "aac"),
    ".wmv" := CodecPair("wmv2", "wmav2"),
    ".flv" := CodecPair("flv", "libmp3lame")
  ]

  /** The temporary-audio-file extensions of `_get_temp_audio_extension`. */
  const TempExtensionTable: map<string, string> := map[
    "aac" := ".m4a",
    "libmp3lame" := ".mp3",
    "mp3" := ".mp3",
    "wav" := ".wav",
    "flac" := ".flac",
    "wmav2" := ".wav"
  ]

  /** `_get_codec_settings(ext)`: the table entry, or libx264/aac. */
  function CodecSettings(ext: string): CodecPair
  {
    if ext in CodecTable then CodecTable[ext] else DefaultCodecs
  }

  /** `_get_safe_codec_settings(ext)`: the same lookup. */
  function SafeCodecSettings(ext: string): CodecPair
  {
    CodecSettings(ext)
  }

  /** `_get_temp_audio_extension(codec)`: the table entry, or `.m4a`. */
  function TempAudioExtension(audioCodec: string): string
  {
    if audioCodec in TempExtensionTable then TempExtensionTable[audioCodec] else ".m4a"
  }

  /** The path as `pathlib` parses it at its end: trailing `/` and trailing
      `.` components name nothing and are dropped. */
  function TrimTail(path: string): (r: string)
    ensures |r| <= |path| && r == path[..|r|]
    ensures r == [] || (r[|r| - 1] != '/' && !(r[|r| - 1] == '.' && (|r| == 1 || r[|r| - 2] == '/')))
    decreases |path|
  {
    if path == [] then []
    else if path[|path| - 1] == '/' then TrimTail(path[..|path| - 1])
    else if path[|path| - 1] == '.' && (|path| == 1 || path[|path| - 2] == '/') then TrimTail(path[..|path| - 1])
    else path
  }

  /** `PurePath.suffix` of a final component `name`: the part from its last
      dot, when that dot is neither the first nor the last character. */
  function NameSuffix(name: string): (r: string)
    ensures r == [] || (r[0] == '.' && |r| >= 2)
  {
    var i := LastIndexOf(name, '.');
    if 0 < i < |name| - 1 then name[i..] else []
  }

  /** `Path(p).suffix`: the suffix of the last component that names
      something. */
  function PathSuffix(path: string): (r: string)
    ensures r == [] || (r[0] == '.' && |r| >= 2)
  {
    NameSuffix(LastComponent(TrimTail(path)))
  }

  /** A path ending in an ordinary character is its own trimmed form. */
  lemma TrimTailKeeps(path: string)
    requires path != [] && path[|path| - 1] != '/' && path[|path| - 1] != '.'
    ensures TrimTail(path) == path
  {
  }

  /** The suffix of `dir/name`, for a name that ends in an ordinary
      character, is the suffix of `name`. */
  lemma PathSuffixOfName(dir: string, name: string)
    requires dir == [] || dir[|dir| - 1] == '/'
    requires '/' !in name && name != [] && name[|name| - 1] != '.'
    ensures PathSuffix(dir + name) == NameSuffix(name)
  {
    var path := dir + name;
    assert path[|path| - 1] == name[|name| - 1];
    assert name[|name| - 1] in name;
    TrimTailKeeps(path);
    LastComponentOf(dir, name);
  }

  /** The codecs used to write `output_path`: looked up by its lower-cased
      suffix. */
  function ExportCodecs(outputPath: string): CodecPair
  {
    CodecSettings(Lower(PathSuffix(outputPath)))
  }

  /** Every container in the table, and the default, names an audio codec
      that has its own temporary extension, so the `.m4a` fallback is only
      ever used for AAC; the retry settings are the first settings. */
  lemma CodecsHaveTempExtensions(ext: string)
    ensures CodecSettings(ext).audioCodec in TempExtensionTable
    ensures SafeCodecSettings(ext) == CodecSettings(ext)
    ensures ext !in CodecTable ==> CodecSettings(ext) == DefaultCodecs
    ensures TempAudioExtension(CodecSettings(ext).audioCodec) in {".m4a", ".mp3", ".wav"}
  {
  }

  /** The suffix of `dir/stem.ext` is `.ext`, however many dots `stem` has. */
  lemma PathSuffixOf(dir: string, stem: string, ext: string)
    requires dir == [] || dir[|dir| - 1] == '/'
    requires '/' !in stem && '/' !in ext && '.' !in ext
    requires stem != [] && ext != []
    ensures PathSuffix(dir + stem + ['.'] + ext) == ['.'] + ext
  {
    var tail := ['.'] + ext;
    var name := stem + tail;
    Regroup(dir, stem, ['.'], ext);
    assert dir + stem + ['.'] + ext == dir + name;
    assert '/' !in name;
    assert name[|name| - 1] == ext[|ext| - 1] && ext[|ext| - 1] in ext;
    PathSuffixOfName(dir, name);
    LastDotBefore(stem, ext);
    assert LastIndexOf(name, '.') == |stem| < |name| - 1;
    DropFront(stem, tail);
  }

  /** A name with no dot, or whose only dot comes first (a hidden file), has
      no suffix. */
  lemma NoPathSuffix(dir: string, name: string)
    requires dir == [] || dir[|dir| - 1] == '/'
    requires '/' !in name && name != [] && name != "."
    requires '.' !in name || (name[0] == '.' && '.' !in name[1..])
    ensures PathSuffix(dir + name) == []
  {
    forall k | 0 < k < |name| ensures name[k] != '.' {
      assert name[k] == name[1..][k - 1];
    }
    if |name| == 1 {
      assert name == [name[0]];
    }
    PathSuffixOfName(dir, name);
    assert LastIndexOf(name, '.') <= 0;
  }

  /** A trailing `/` or `/.` does not change the suffix: `out/clip.avi/`
      and `out/clip.avi/.` are `out/clip.avi`. */
  lemma PathSuffixIgnoresTrailing(path: string)
    ensures PathSuffix(path + "/") == PathSuffix(path)
    ensures PathSuffix(path + "/.") == PathSuffix(path)
  {
    TrimTailTrailing(path);
  }

  lemma TrimTailTrailing(path: string)
    ensures TrimTail(path + "/") == TrimTail(path)
    ensures TrimTail(path + "/.") == TrimTail(path)
  {
    var p1, p2 := path + "/", path + "/.";
    assert p1[..|p1| - 1] == path;
    assert p2[|p2| - 1] == '.' && p2[|p2| - 2] == '/';
    assert p2[..|p2| - 1] == p1;
  }

  /** A file named `stem.ext` in any directory is written with the codecs of
      its lower-cased suffix `.ext`; a file without a suffix with the
      default codecs. */
  lemma ExportCodecsBySuffix(dir: string, stem: string, ext: string)
    requires dir == [] || dir[|dir| - 1] == '/'
    requires '/' !in stem && '/' !in ext && '.' !in ext
    requires stem != [] && ext != []
    ensures ExportCodecs(dir + stem + ['.'] + ext) == CodecSettings(Lower(['.'] + ext))
  {
    PathSuffixOf(dir, stem, ext);
  }

  /** A trailing `/` leaves the codecs as they are: `out/clip.avi/` is
      written as `.avi`. */
  lemma ExportCodecsTrailingSlash(dir: string, stem: string, ext: string)
    requires dir == [] || dir[|dir| - 1] == '/'
    requires '/' !in stem && '/' !in ext && '.' !in ext
    requires stem != [] && ext != []
    ensures ExportCodecs(dir + stem + ['.'] + ext + "/") == CodecSettings(Lower(['.'] + ext))
  {
    PathSuffixOf(dir, stem, ext);
    PathSuffixIgnoresTrailing(dir + stem + ['.'] + ext);
  }

  lemma ExportCodecsNoSuffix(dir: string, name: string)
    requires dir == [] || dir[|dir| - 1] == '/'
    requires '/' !in name && name != [] && name != "."
    requires '.' !in name || (name[0] == '.' && '.' !in name[1..])
    ensures ExportCodecs(dir + name) == DefaultCodecs
  {
    NoPathSuffix(dir, name);
    assert Lower([]) == [];
  }

  // ---------------------------------------------------------------------
  // process_video and analyze_video, at the level of intervals
  // ---------------------------------------------------------------------

  /** What audio extraction and the two recognizer passes give for one video:
      the length of the 16 kHz PCM stream and the recognizer's answers to its
      chunks in the speech pass and in the filler pass. */
  datatype Recognition = Recognition(
    rawLen: nat,
    speechChunks: seq<Asr.ChunkResult>, speechFinal: Asr.Parsed,
    fillerChunks: seq<Asr.ChunkResult>, fillerFinal: Asr.Parsed)

  /** The recognizer answers once per chunk in each pass. */
  predicate OneAnswerPerChunk(rec: Recognition)
  {
    |rec.speechChunks| == Asr.ChunkCount(rec.rawLen) && |rec.fillerChunks| == Asr.ChunkCount(rec.rawLen)
  }

  /** The speech segments the detector reports. */
  function DetectedSpeech(d: Asr.Detector, rec: Recognition): seq<Interval>
  {
    if d.enabled then Merged(Asr.SpeechWordSpans(rec.speechChunks, rec.speechFinal), Asr.SpeechMergeGap) else []
  }

  /** The filler ranges the detector reports. */
  function DetectedFillers(d: Asr.Detector, rec: Recognition): seq<Interval>
  {
    if d.enabled then Merged(Asr.FillerWordSpans(rec.fillerChunks, rec.fillerFinal), Asr.FillerMergeGap) else []
  }

  lemma DetectedShape(d: Asr.Detector, rec: Recognition)
    ensures SortedByStart(DetectedSpeech(d, rec)) && Ordered(DetectedSpeech(d, rec)) && AllProper(DetectedSpeech(d, rec))
    ensures AllProper(DetectedFillers(d, rec)) && AllWellFormed(DetectedFillers(d, rec))
  {
    if d.enabled {
      Asr.SpeechSegmentsShape(rec.speechChunks, rec.speechFinal);
      Asr.FillerRangesShape(rec.fillerChunks, rec.fillerFinal);
    }
  }

  /** What the kept segments are to the detected speech `S` and fillers `F`:
      positive, disjoint and in order, each inside a speech segment, clear of
      every filler, and covering every speech instant outside the fillers. */
  ghost predicate KeptSpeech(segs: seq<Interval>, S: seq<Interval>, F: seq<Interval>)
  {
    AllProper(segs) && Ordered(segs) &&
    (forall p :: p in segs ==> InsideSome(p, S)) &&
    (forall p, c :: p in segs && c in F ==> !Overlap(p, c)) &&
    (forall x :: Covers(S, x) && !Covers(F, x) ==> Covers(segs, x))
  }

  /** The speech that survives filler removal, as both `process_video` and
      `analyze_video` compute it: detect speech, detect fillers, and subtract
      the fillers only when there are some. */
  method SpeechAfterFillers(d: Asr.Detector, rec: Recognition, speechPct: (real, real), fillerPct: (real, real))
    returns (speech: seq<Interval>, hadFillers: bool, speechReports: seq<real>, fillerReports: seq<real>)
    requires OneAnswerPerChunk(rec)
    ensures var S, F := DetectedSpeech(d, rec), DetectedFillers(d, rec);
      (hadFillers <==> F != []) && (!hadFillers ==> speech == S) &&
      (speech == [] <==> forall x :: Covers(S, x) ==> Covers(F, x)) &&
      KeptSpeech(speech, S, F)
    ensures speechReports == PassReports(d, |rec.speechChunks|, speechPct.0, speechPct.1)
    ensures fillerReports == PassReports(d, |rec.fillerChunks|, fillerPct.0, fillerPct.1)
  {
    var S, F := DetectedSpeech(d, rec), DetectedFillers(d, rec);
    DetectedShape(d, rec);
    var fillers;
    speech, speechReports := Asr.DetectSpeechSegments(d, rec.rawLen, rec.speechChunks, rec.speechFinal, speechPct.0, speechPct.1);
    fillers, fillerReports := Asr.DetectFillers(d, rec.rawLen, rec.fillerChunks, rec.fillerFinal, fillerPct.0, fillerPct.1);
    assert speech == S && fillers == F;
    hadFillers := fillers != [];
    if hadFillers {
      speech := SubtractIntervals(speech, fillers);
      SubtractEmptyIff(S, F, speech);
    } else {
      KeepAllWithoutFillers(S, F);
    }
  }

  /** With no fillers, the detected speech is kept as it is. */
  lemma KeepAllWithoutFillers(S: seq<Interval>, F: seq<Interval>)
    requires F == [] && AllProper(S) && Ordered(S)
    ensures KeptSpeech(S, S, F)
    ensures S == [] <==> forall x :: Covers(S, x) ==> Covers(F, x)
  {
    forall p | p in S ensures InsideSome(p, S) {
      assert Within(p, p);
    }
    SubtractEmptyIff(S, F, S);
  }

  /** Why `process_video` returns False. */
  datatype Failure = InputMissing | AsrUnavailable | NoSpeechDetected

  /** How a run of `process_video` ends: the original is written unchanged,
      the kept speech ranges are cut out and joined, or it fails. */
  datatype Outcome = ExportedOriginal | Edited(segments: seq<Interval>) | Failed(reason: Failure)

  /** `40 + (50 - 40) * (i + 1) / n`, reported before cutting segment `i`. */
  function SegmentProgress(i: nat, n: nat): real
    requires i < n
  {
    InBand(40.0, 50.0, (i + 1) as real / n as real)
  }

  function SegmentReports(k: nat, n: nat): (r: seq<real>)
    requires k <= n
    ensures |r| == k
  {
    if k == 0 then [] else SegmentReports(k - 1, n) + [SegmentProgress(k - 1, n)]
  }

  lemma {:induction false} SegmentReportAt(k: nat, n: nat, i: nat)
    requires i < k <= n
    ensures SegmentReports(k, n)[i] == SegmentProgress(i, n)
  {
    if i < k - 1 {
      SegmentReportAt(k - 1, n, i);
    }
  }

  /** The per-segment reports rise strictly from above 40 and the last one
      is exactly 50. */
  lemma SegmentProgressRises(n: nat)
    requires n > 0
    ensures var r := SegmentReports(n, n);
      r[n - 1] == 50.0 &&
      (forall i :: 0 <= i < n ==> 40.0 < r[i] <= 50.0) &&
      (forall i, j :: 0 <= i < j < n ==> r[i] < r[j])
  {
    var r := SegmentReports(n, n);
    forall i | 0 <= i < n ensures 40.0 < r[i] <= 50.0 {
      SegmentReportAt(n, n, i);
      FractionBounds(i + 1, n);
      InBandMonotone(40.0, 50.0, 0.0, (i + 1) as real / n as real);
    }
    forall i, j | 0 <= i < j < n ensures r[i] < r[j] {
      SegmentReportAt(n, n, i);
      SegmentReportAt(n, n, j);
      FractionBounds(i + 1, n);
      FractionBounds(j + 1, n);
      FractionMonotone(i + 1, j + 1, n);
      InBandMonotone(40.0, 50.0, (i + 1) as real / n as real, (j + 1) as real / n as real);
    }
    SegmentReportAt(n, n, n - 1);
    FractionBounds(n, n);
  }

  /** Every progress value of a successful editing run, in order. */
  function EditReports(speechReports: seq<real>, fillerReports: seq<real>, hadFillers: bool,
                       n: nat, normalize: bool): seq<real>
  {
    [0.0] + [10.0] + [20.0] + speechReports + fillerReports + (if hadFillers then [28.0] else []) +
    [30.0, 40.0] + SegmentReports(n, n) + [50.0] + (if normalize then [70.0] else []) + [80.0, 100.0]
  }

  predicate NonDecreasing(s: seq<real>)
  {
    forall i, j :: 0 <= i <= j < |s| ==> s[i] <= s[j]
  }

  /** All values of `s` lie in `[lo, hi]`. */
  predicate Between(s: seq<real>, lo: real, hi: real)
  {
    forall i :: 0 <= i < |s| ==> lo <= s[i] <= hi
  }

  /** Joining a rising list in `[lo, mid]` to a rising list in `[mid, hi]`
      gives a rising list in `[lo, hi]`. */
  lemma JoinRising(a: seq<real>, b: seq<real>, lo: real, mid: real, hi: real)
    requires NonDecreasing(a) && Between(a, lo, mid)
    requires NonDecreasing(b) && Between(b, mid, hi)
    requires lo <= mid <= hi
    ensures NonDecreasing(a + b) && Between(a + b, lo, hi)
  {
    forall i, j | 0 <= i <= j < |a + b| ensures (a + b)[i] <= (a + b)[j] {
      if i < |a| && j >= |a| {
        assert a[i] <= mid && mid <= b[j - |a|];
      }
    }
  }

  /** The reports up to the end of filler detection rise from 0 to at most 28. */
  lemma DetectionReportsRise(sr: seq<real>, fr: seq<real>, hadFillers: bool)
    requires NonDecreasing(sr) && Between(sr, 20.0, 24.0)
    requires NonDecreasing(fr) && Between(fr, 24.0, 28.0)
    ensures var r := [0.0] + [10.0] + [20.0] + sr + fr + (if hadFillers then [28.0] else []);
      NonDecreasing(r) && Between(r, 0.0, 28.0)
  {
    var head: seq<real> := [0.0] + [10.0] + [20.0];
    assert head == [0.0, 10.0, 20.0];
    JoinRising(head, sr, 0.0, 20.0, 24.0);
    JoinRising(head + sr, fr, 0.0, 24.0, 28.0);
    JoinRising(head + sr + fr, if hadFillers then [28.0] else [], 0.0, 28.0, 28.0);
  }

  /** A successful run never reports a lower percentage after a higher one
      and finishes at 100, whatever the two recognizer passes reported within
      their bands of 20-24 and 24-28. */
  lemma EditReportsRise(sr: seq<real>, fr: seq<real>, hadFillers: bool, n: nat, normalize: bool)
    requires NonDecreasing(sr) && Between(sr, 20.0, 24.0)
    requires NonDecreasing(fr) && Between(fr, 24.0, 28.0)
    requires n > 0
    ensures var r := EditReports(sr, fr, hadFillers, n, normalize);
      NonDecreasing(r) && r[|r| - 1] == 100.0
  {
    var seg := SegmentReports(n, n);
    assert NonDecreasing(seg) && Between(seg, 40.0, 50.0) by {
      SegmentProgressRises(n);
      forall i, j | 0 <= i <= j < n ensures seg[i] <= seg[j] {
        if i < j {
          assert seg[i] < seg[j];
        }
      }
    }
    var c := [0.0] + [10.0] + [20.0] + sr + fr + (if hadFillers then [28.0] else []);
    DetectionReportsRise(sr, fr, hadFillers);
    JoinRising(c, [30.0, 40.0], 0.0, 28.0, 40.0);
    var e := c + [30.0, 40.0];
    JoinRising(e, seg, 0.0, 40.0, 50.0);
    var h := e + seg + [50.0];
    JoinRising(e + seg, [50.0], 0.0, 50.0, 50.0);
    var n70: seq<real> := if normalize then [70.0] else [];
    JoinRising(h, n70, 0.0, 50.0, 70.0);
    JoinRising(h + n70, [80.0, 100.0], 0.0, 70.0, 100.0);
  }

  /** What one recognizer pass over `count` chunks reports within its band
      `[lo, hi]`: nothing when the detector cannot run. */
  function PassReports(d: Asr.Detector, count: nat, lo: real, hi: real): seq<real>
  {
    if d.enabled then Asr.ProgressReports(count, lo, hi) else []
  }

  /** The reports of one recognizer pass rise within its band. */
  lemma PassReportsRise(d: Asr.Detector, count: nat, lo: real, hi: real)
    requires lo <= hi
    ensures var r := PassReports(d, count, lo, hi);
      NonDecreasing(r) && Between(r, lo, hi)
  {
    if d.enabled {
      Asr.ProgressRises(count, lo, hi);
    }
  }

  /** The reports of an editing run over recognition `rec` rise to 100. */
  lemma EditedRunRises(d: Asr.Detector, rec: Recognition, hadFillers: bool, n: nat, normalize: bool)
    requires n > 0
    ensures var r := EditReports(PassReports(d, |rec.speechChunks|, 20.0, 24.0),
                                 PassReports(d, |rec.fillerChunks|, 24.0, 28.0), hadFillers, n, normalize);
      |r| > 0 && NonDecreasing(r) && r[|r| - 1] == 100.0
  {
    PassReportsRise(d, |rec.speechChunks|, 20.0, 24.0);
    PassReportsRise(d, |rec.fillerChunks|, 24.0, 28.0);
    EditReportsRise(PassReports(d, |rec.speechChunks|, 20.0, 24.0),
                    PassReports(d, |rec.fillerChunks|, 24.0, 28.0), hadFillers, n, normalize);
  }

  /** The loop of `process_video` that takes one clip per speech segment and
      reports `40 + 10 * (i + 1) / n` after each. */
  method CutSegments(speech: seq<Interval>) returns (clips: seq<Interval>, segmentReports: seq<real>)
    requires speech != []
    ensures clips == speech
    ensures segmentReports == SegmentReports(|speech|, |speech|)
  {
    clips, segmentReports := [], [];
    var n := |speech|;
    for i := 0 to n
      invariant clips == speech[..i]
      invariant segmentReports == SegmentReports(i, n)
    {
      segmentReports := segmentReports + [SegmentProgress(i, n)];
      clips := clips + [speech[i]];
    }
  }

  /** The part of `process_video` after the detector was found enabled: the
      reports so far are `[0, 10, 20]`; the run either edits the video down
      to the speech left after removing fillers or fails for lack of speech. */
  method EditDetected(rec: Recognition, d: Asr.Detector, normalize: bool)
    returns (outcome: Outcome, ok: bool, reports: seq<real>)
    requires OneAnswerPerChunk(rec)
    ensures ok <==> !outcome.Failed?
    ensures outcome.Failed? ==> outcome == Failed(NoSpeechDetected)
    ensures outcome != ExportedOriginal
    ensures var S, F := DetectedSpeech(d, rec), DetectedFillers(d, rec);
      (outcome == Failed(NoSpeechDetected) <==> forall x :: Covers(S, x) ==> Covers(F, x))
    ensures outcome.Edited? ==>
      var S, F := DetectedSpeech(d, rec), DetectedFillers(d, rec);
      var segs := outcome.segments;
      segs != [] && KeptSpeech(segs, S, F) && (F == [] ==> segs == S)
    ensures outcome.Edited? ==> reports == EditReports(
      PassReports(d, |rec.speechChunks|, 20.0, 24.0), PassReports(d, |rec.fillerChunks|, 24.0, 28.0),
      DetectedFillers(d, rec) != [], |outcome.segments|, normalize)
    ensures ok ==> |reports| > 0 && NonDecreasing(reports) && reports[|reports| - 1] == 100.0
    ensures !ok ==> reports != [] && reports[|reports| - 1] == 0.0
  {
    var speech, hadFillers, sr, fr := SpeechAfterFillers(d, rec, (20.0, 24.0), (24.0, 28.0));
    if speech == [] {
      reports := [0.0, 10.0, 20.0] + sr + fr + (if hadFillers then [28.0] else []) + [0.0];
      return Failed(NoSpeechDetected), false, reports;
    }
    var clips, segmentReports := CutSegments(speech);
    reports := [0.0] + [10.0] + [20.0] + sr + fr + (if hadFillers then [28.0] else []) + [30.0, 40.0]
      + segmentReports + [50.0] + (if normalize then [70.0] else []) + [80.0, 100.0];
    EditedRunRises(d, rec, hadFillers, |speech|, normalize);
    return Edited(clips), true, reports;
  }

  /** The decision of `process_video`, with every progress value it reports.
      The input must exist; a video without an audio track is exported as it
      is; a detector that is not enabled fails the run; otherwise the speech
      left after removing fillers is cut out segment by segment, or the run
      fails when none is left. Every failure ends with a report of 0. */
  method ProcessVideo(inputExists: bool, audio: Option<Recognition>, d: Asr.Detector, normalize: bool)
    returns (outcome: Outcome, ok: bool, reports: seq<real>)
    requires audio.Some? ==> OneAnswerPerChunk(audio.value)
    ensures ok <==> !outcome.Failed?
    ensures !inputExists ==> outcome == Failed(InputMissing)
    ensures inputExists && audio.None? ==> outcome == ExportedOriginal
    ensures inputExists && audio.Some? && !d.enabled ==> outcome == Failed(AsrUnavailable)
    ensures inputExists && audio.Some? && d.enabled ==>
      var S, F := DetectedSpeech(d, audio.value), DetectedFillers(d, audio.value);
      (outcome == Failed(NoSpeechDetected) <==> forall x :: Covers(S, x) ==> Covers(F, x))
    ensures outcome.Edited? ==>
      var S, F := DetectedSpeech(d, audio.value), DetectedFillers(d, audio.value);
      var segs := outcome.segments;
      segs != [] && KeptSpeech(segs, S, F) && (F == [] ==> segs == S)
    ensures outcome == ExportedOriginal ==> reports == [0.0, 10.0, 20.0, 100.0]
    ensures outcome.Edited? ==> reports == EditReports(
      PassReports(d, |audio.value.speechChunks|, 20.0, 24.0), PassReports(d, |audio.value.fillerChunks|, 24.0, 28.0),
      DetectedFillers(d, audio.value) != [], |outcome.segments|, normalize)
    ensures ok ==> |reports| > 0 && NonDecreasing(reports) && reports[|reports| - 1] == 100.0
    ensures !ok ==> reports != [] && reports[|reports| - 1] == 0.0
  {
    if !inputExists {
      return Failed(InputMissing), false, [0.0, 0.0];
    }
    if audio.None? {
      reports := [0.0, 10.0, 20.0, 100.0];
      assert NonDecreasing(reports);
      return ExportedOriginal, true, reports;
    }
    if !d.enabled {
      return Failed(AsrUnavailable), false, [0.0, 10.0, 20.0, 20.0, 0.0];
    }
    outcome, ok, reports := EditDetected(audio.value, d, normalize);
  }

  /** `sum(end - start for start, end in segments)`. */
  function TotalLength(s: seq<Interval>): real
  {
    if s == [] then 0.0 else (s[0].end - s[0].start) + TotalLength(s[1..])
  }

  /** Ordered ranges inside `[lo, hi]` add up to at most `hi - lo`. */
  lemma {:induction false} TotalLengthBound(s: seq<Interval>, lo: real, hi: real)
    requires Ordered(s) && AllWellFormed(s) && AllWithin(s, lo, hi) && lo <= hi
    ensures 0.0 <= TotalLength(s) <= hi - lo
  {
    if s != [] {
      var rest := s[1..];
      assert Ordered(rest) && AllWellFormed(rest) by {
        forall i, j | 0 <= i < j < |rest| ensures rest[i].end <= rest[j].start {
          assert rest[i] == s[i + 1] && rest[j] == s[j + 1];
        }
        forall k | 0 <= k < |rest| ensures rest[k].start <= rest[k].end {
          assert rest[k] == s[k + 1];
        }
      }
      assert AllWithin(rest, s[0].end, hi) by {
        forall k | 0 <= k < |rest| ensures s[0].end <= rest[k].start && rest[k].end <= hi {
          assert rest[k] == s[k + 1];
        }
      }
      if rest == [] {
        assert TotalLength(rest) == 0.0;
      } else {
        assert s[0].end <= rest[0].start <= rest[0].end <= hi;
        TotalLengthBound(rest, s[0].end, hi);
      }
    }
  }

  /** The dictionary `analyze_video` returns on success. */
  datatype Stats = Stats(
    originalDuration: real, speechSegments: seq<Interval>, totalSpeechTime: real,
    silenceTime: real, silencePercentage: real, expectedOutputDuration: real, timeSaved: real)

  function StatsOf(duration: real, segments: seq<Interval>): Stats
  {
    var total := TotalLength(segments);
    var silence := duration - total;
    Stats(duration, segments, total, silence,
          if duration > 0.0 then silence / duration * 100.0 else 0.0, total, silence)
  }

  /** When the kept speech lies inside the video, speech and silence split
      the duration and the silence percentage lies in `[0, 100]`. */
  lemma StatsBounds(duration: real, segments: seq<Interval>)
    requires 0.0 <= duration
    requires Ordered(segments) && AllProper(segments) && AllWithin(segments, 0.0, duration)
    ensures var st := StatsOf(duration, segments);
      st.totalSpeechTime + st.silenceTime == duration &&
      0.0 <= st.totalSpeechTime <= duration && 0.0 <= st.silenceTime &&
      0.0 <= st.silencePercentage <= 100.0 &&
      st.expectedOutputDuration == st.totalSpeechTime && st.timeSaved == st.silenceTime
  {
    TotalLengthBound(segments, 0.0, duration);
    var st := StatsOf(duration, segments);
    if duration > 0.0 {
      RatioBounds(st.silenceTime, duration);
    }
  }

  lemma RatioBounds(a: real, b: real)
    requires 0.0 <= a <= b && 0.0 < b
    ensures 0.0 <= a / b <= 1.0
  {
  }

  /** The error messages of `analyze_video`. */
  datatype AnalysisError = CouldNotExtractAudio | AsrModelNotAvailable

  datatype Analysis = AnalysisFailed(error: AnalysisError) | Analyzed(stats: Stats)

  /** `analyze_video`: the same detection as `process_video`, without
      progress, followed by the statistics. */
  method AnalyzeVideo(duration: real, audio: Option<Recognition>, d: Asr.Detector) returns (a: Analysis)
    requires audio.Some? ==> OneAnswerPerChunk(audio.value)
    ensures audio.None? ==> a == AnalysisFailed(CouldNotExtractAudio)
    ensures audio.Some? && !d.enabled ==> a == AnalysisFailed(AsrModelNotAvailable)
    ensures audio.Some? && d.enabled ==> a.Analyzed?
    ensures a.Analyzed? ==>
      var S, F := DetectedSpeech(d, audio.value), DetectedFillers(d, audio.value);
      var segs := a.stats.speechSegments;
      a.stats == StatsOf(duration, segs) && KeptSpeech(segs, S, F)
  {
    if audio.None? {
      return AnalysisFailed(CouldNotExtractAudio);
    }
    if !d.enabled {
      return AnalysisFailed(AsrModelNotAvailable);
    }
    var speech, _, _, _ := SpeechAfterFillers(d, audio.value, (0.0, 0.0), (0.0, 0.0));
    return Analyzed(StatsOf(duration, speech));
  }
}
