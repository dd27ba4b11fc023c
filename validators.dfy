/** Input validation: the ranges accepted for the silence settings, the
    file-name sanitiser and the output-format check. */
module Validators {
  import opened Text
  import Audio = AudioAnalyzer

  // ---------------------------------------------------------------------
  // Ranges
  // ---------------------------------------------------------------------

  predicate IsValidSilenceThreshold(threshold: real)
  {
    -60.0 <= threshold <= -20.0
  }

  predicate IsValidSilenceDuration(duration: real)
  {
    0.1 <= duration <= 5.0
  }

  predicate IsValidFadeDuration(duration: real)
  {
    0.0 <= duration <= 1.0
  }

  /** The boundaries and the values -40 dB, 0.5 s and 0.5 s are accepted;
      a threshold of -10 dB, a silence of 10 s and a fade of 2 s are
      rejected, as is anything just outside a boundary. */
  lemma RangeExamples()
    ensures IsValidSilenceThreshold(-60.0) && IsValidSilenceThreshold(-20.0) && IsValidSilenceThreshold(-40.0)
    ensures !IsValidSilenceThreshold(-10.0) && !IsValidSilenceThreshold(-60.5)
    ensures IsValidSilenceDuration(0.1) && IsValidSilenceDuration(5.0) && IsValidSilenceDuration(0.5)
    ensures !IsValidSilenceDuration(10.0) && !IsValidSilenceDuration(0.05)
    ensures IsValidFadeDuration(0.0) && IsValidFadeDuration(1.0) && IsValidFadeDuration(0.5)
    ensures !IsValidFadeDuration(2.0) && !IsValidFadeDuration(-0.1)
  {
  }

  /** Under any accepted threshold, the analyser's adaptive threshold stays
      within [-60, -20] and a frame without samples counts as silence. */
  lemma ValidThresholdKeepsEmptyFramesSilent(threshold: real, f: Audio.Frames, log10: real -> real)
    requires IsValidSilenceThreshold(threshold)
    ensures -60.0 <= Audio.Threshold(f, threshold) <= -20.0
    ensures Audio.IsSilentFrame(Audio.RmsToDb(0.0, log10), 0.0, Audio.Threshold(f, threshold))
  {
    Audio.EmptyFrameIsSilent(Audio.Threshold(f, threshold), log10);
  }

  // ---------------------------------------------------------------------
  // sanitize_filename
  // ---------------------------------------------------------------------

  /** The characters replaced by `_`. */
  const InvalidChars: set<char> := {'<', '>', ':', '"', '/', '\\', '|', '?', '*'}

  /** The characters stripped from both ends. */
  const StripChars: set<char> := {'.', ' '}

  /** `re.sub(r'[<>:"/\\|?*]', '_', name)`. */
  function ReplaceInvalid(name: string): (r: string)
    ensures |r| == |name|
    ensures forall i :: 0 <= i < |name| ==> r[i] == (if name[i] in InvalidChars then '_' else name[i])
  {
    seq(|name|, i requires 0 <= i < |name| => if name[i] in InvalidChars then '_' else name[i])
  }

  /** `lstrip('. ')`: what is left after the leading dots and spaces. */
  function StripLeading(s: string): (r: string)
    ensures |r| <= |s| && r == s[|s| - |r|..]
    ensures forall i :: 0 <= i < |s| - |r| ==> s[i] in StripChars
    ensures r != [] ==> r[0] !in StripChars
    decreases |s|
  {
    if s != [] && s[0] in StripChars then StripLeading(s[1..]) else s
  }

  /** `rstrip('. ')`: what is left after the trailing dots and spaces. */
  function StripTrailing(s: string): (r: string)
    ensures |r| <= |s| && r == s[..|r|]
    ensures forall i :: |r| <= i < |s| ==> s[i] in StripChars
    ensures r != [] ==> r[|r| - 1] !in StripChars
    decreases |s|
  {
    if s != [] && s[|s| - 1] in StripChars then StripTrailing(s[..|s| - 1]) else s
  }

  /** `strip('. ')`. */
  function Strip(s: string): string
  {
    StripTrailing(StripLeading(s))
  }

  /** `sanitize_filename`. */
  function SanitizeFilename(name: string): string
  {
    var stripped := Strip(ReplaceInvalid(name));
    if stripped == [] then "output" else stripped
  }

  predicate NoInvalidChars(s: string)
  {
    forall i :: 0 <= i < |s| ==> s[i] !in InvalidChars
  }

  /** Where `Strip(s)` starts in `s`. */
  function StripStart(s: string): nat
  {
    |s| - |StripLeading(s)|
  }

  /** Stripping never touches the inside: the result is the slice of its
      input that starts at `StripStart(s)`. */
  lemma StripIsSlice(s: string)
    ensures StripStart(s) + |Strip(s)| <= |s|
    ensures Strip(s) == s[StripStart(s)..StripStart(s) + |Strip(s)|]
  {
    var l := StripLeading(s);
    var a := |s| - |l|;
    assert l == s[a..];
    assert Strip(s) == l[..|Strip(s)|];
  }

  /** Everything stripping cuts off, at either end, is a dot or a space. */
  lemma StripCutsOnlyStripChars(s: string)
    ensures forall i :: 0 <= i < StripStart(s) ==> s[i] in StripChars
    ensures forall i :: StripStart(s) + |Strip(s)| <= i < |s| ==> s[i] in StripChars
  {
    var l := StripLeading(s);
    var a := |s| - |l|;
    forall i | a + |Strip(s)| <= i < |s| ensures s[i] in StripChars {
      assert s[i] == l[i - a];
    }
  }

  /** A stripped string neither starts nor ends with a dot or a space. */
  lemma StripEnds(s: string)
    ensures Strip(s) != [] ==> Strip(s)[0] !in StripChars && Strip(s)[|Strip(s)| - 1] !in StripChars
  {
    var l := StripLeading(s);
    if Strip(s) != [] {
      assert Strip(s)[0] == l[0];
    }
  }

  /** The sanitised name is never empty, contains none of `<>:"/\|?*`, and
      neither starts nor ends with a dot or a space. */
  lemma SanitizeFilenameClean(name: string)
    ensures var r := SanitizeFilename(name);
      r != [] && NoInvalidChars(r) && r[0] !in StripChars && r[|r| - 1] !in StripChars
  {
    var rep := ReplaceInvalid(name);
    ReplacedIsClean(name);
    StripIsSlice(rep);
    StripEnds(rep);
    if Strip(rep) == [] {
      DefaultNameIsClean();
    } else {
      SliceIsClean(rep, StripStart(rep), StripStart(rep) + |Strip(rep)|);
    }
  }

  lemma ReplacedIsClean(name: string)
    ensures NoInvalidChars(ReplaceInvalid(name))
  {
    assert '_' !in InvalidChars;
  }

  lemma SliceIsClean(s: string, a: nat, b: nat)
    requires NoInvalidChars(s) && a <= b <= |s|
    ensures NoInvalidChars(s[a..b])
  {
    forall i | 0 <= i < b - a ensures s[a..b][i] !in InvalidChars {
      assert s[a..b][i] == s[a + i];
    }
  }

  lemma DefaultNameIsClean()
    ensures NoInvalidChars("output") && "output"[0] !in StripChars && "output"[5] !in StripChars
  {
  }

  /** A name that is already clean comes back unchanged. */
  lemma SanitizeFixesClean(name: string)
    requires name != [] && NoInvalidChars(name)
    requires name[0] !in StripChars && name[|name| - 1] !in StripChars
    ensures SanitizeFilename(name) == name
  {
    assert ReplaceInvalid(name) == name;
    assert StripLeading(name) == name;
    assert StripTrailing(name) == name;
  }

  /** Sanitising twice is sanitising once. */
  lemma SanitizeIdempotent(name: string)
    ensures SanitizeFilename(SanitizeFilename(name)) == SanitizeFilename(name)
  {
    SanitizeFilenameClean(name);
    SanitizeFixesClean(SanitizeFilename(name));
  }

  // ---------------------------------------------------------------------
  // is_supported_output_format
  // ---------------------------------------------------------------------

  /** `format.lower()` with one leading dot removed. */
  function FormatCore(format: string): string
  {
    var l := Lower(format);
    if l != [] && l[0] == '.' then l[1..] else l
  }

  /** `is_supported_output_format`: false for an empty string, otherwise
      whether `.` plus the lower-cased format without its leading dot is one
      of the lower-cased supported formats. */
  predicate IsSupportedOutputFormat(format: string, supported: seq<string>)
  {
    format != [] && exists i :: 0 <= i < |supported| && Lower(supported[i]) == ['.'] + FormatCore(format)
  }

  /** Case does not matter, and neither does a single leading dot. */
  lemma SupportedFormatIgnoresCaseAndDot(format: string, supported: seq<string>)
    ensures IsSupportedOutputFormat(format, supported) == IsSupportedOutputFormat(Lower(format), supported)
    ensures format != [] && format[0] != '.' ==>
      IsSupportedOutputFormat(['.'] + format, supported) == IsSupportedOutputFormat(format, supported)
  {
    LowerIsLower(format);
    if format != [] && format[0] != '.' {
      LowerPrefixDot(format);
      assert Lower(format)[0] == LowerChar(format[0]) != '.';
      assert (['.'] + Lower(format))[1..] == Lower(format);
    }
  }

  /** Every listed format is accepted, written with or without its dot and
      in any case. */
  lemma ListedFormatIsSupported(supported: seq<string>, i: nat, ext: string)
    requires i < |supported| && Lower(supported[i]) == ['.'] + Lower(ext)
    requires ext != [] && ext[0] != '.'
    ensures IsSupportedOutputFormat(ext, supported)
    ensures IsSupportedOutputFormat(['.'] + ext, supported)
  {
    assert Lower(ext)[0] == LowerChar(ext[0]) != '.';
    SupportedFormatIgnoresCaseAndDot(ext, supported);
  }
}
