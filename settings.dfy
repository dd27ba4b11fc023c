/** The in-memory side of `Settings` (config/settings.py): a map of defaults,
    a current map that loading merges into and that `set` and
    `reset_to_defaults` change, the lower-casing accessors for the output
    options, and the supported-format test on file paths. */
module Config {
  import opened Wrappers
  import opened Text

  /** The JSON values a setting can hold. Lists are lists of strings. */
  datatype Value = Num(n: real) | Str(s: string) | Bool(b: bool) | Strs(items: seq<string>) | Null

  const SilenceThresholdKey := "silence_threshold"
  const MinSilenceDurationKey := "min_silence_duration"
  const FadeDurationKey := "fade_duration"
  const OutputFormatKey := "output_format"
  const OutputQualityKey := "output_quality"
  const OutputResolutionKey := "output_resolution"
  const AudioNormalizationKey := "enable_audio_normalization"
  const FadeTransitionsKey := "enable_fade_transitions"
  const LastOutputDirectoryKey := "last_output_directory"
  const SupportedFormatsKey := "supported_formats"

  const DefaultFormats: seq<string> := [".mp4", ".avi", ".mov", ".mkv", ".wmv", ".flv"]

  /** The defaults; `home` is the user's home directory. */
  function Defaults(home: string): map<string, Value>
  {
    map[SilenceThresholdKey := Num(-40.0),
        MinSilenceDurationKey := Num(2.0),
        FadeDurationKey := Num(0.1),
        OutputFormatKey := Str("mp4"),
        OutputQualityKey := Str("medium"),
        OutputResolutionKey := Str("original"),
        AudioNormalizationKey := Bool(true),
        FadeTransitionsKey := Bool(true),
        LastOutputDirectoryKey := Str(home + "/Desktop"),
        SupportedFormatsKey := Strs(DefaultFormats)]
  }

  /** The defaults hold every setting the application reads, with a
      threshold of -40 dB, a minimum silence of 2 s and a fade of 0.1 s. */
  lemma DefaultValues(home: string)
    ensures var d := Defaults(home);
      d.Keys == {SilenceThresholdKey, MinSilenceDurationKey, FadeDurationKey, OutputFormatKey,
                 OutputQualityKey, OutputResolutionKey, AudioNormalizationKey, FadeTransitionsKey,
                 LastOutputDirectoryKey, SupportedFormatsKey} &&
      d[SilenceThresholdKey] == Num(-40.0) && d[MinSilenceDurationKey] == Num(2.0) &&
      d[FadeDurationKey] == Num(0.1) && d[OutputFormatKey] == Str("mp4") &&
      d[SupportedFormatsKey] == Strs(DefaultFormats)
  {
  }

  /** What reading the configuration file produced: no file, the object it
      holds, or an error (unreadable file or malformed JSON). */
  datatype LoadOutcome = NoConfigFile | Loaded(entries: map<string, Value>) | Unreadable

  /** `load`: a loaded object overrides the current values key by key, an
      error falls back to the defaults, and no file changes nothing. */
  function AfterLoad(current: map<string, Value>, defaults: map<string, Value>, outcome: LoadOutcome): (r: map<string, Value>)
    ensures outcome.Loaded? ==> r.Keys == current.Keys + outcome.entries.Keys
    ensures outcome.Loaded? ==> forall k :: k in r ==>
      r[k] == if k in outcome.entries then outcome.entries[k] else current[k]
    ensures outcome.Unreadable? ==> r == defaults
    ensures outcome.NoConfigFile? ==> r == current
  {
    match outcome
    case NoConfigFile => current
    case Loaded(entries) => current + entries
    case Unreadable => defaults
  }

  /** Loading into a map that holds every default key leaves every default
      key present, whatever the file holds. */
  lemma LoadKeepsDefaultKeys(current: map<string, Value>, defaults: map<string, Value>, outcome: LoadOutcome)
    requires defaults.Keys <= current.Keys
    ensures defaults.Keys <= AfterLoad(current, defaults, outcome).Keys
  {
    if outcome.Loaded? {
      assert AfterLoad(current, defaults, outcome).Keys == current.Keys + outcome.entries.Keys;
    }
  }

  // ---------------------------------------------------------------------
  // Extensions: posixpath.splitext
  // ---------------------------------------------------------------------

  predicate HasNonDot(s: string)
  {
    exists k :: 0 <= k < |s| && s[k] != '.'
  }

  /** The extension `os.path.splitext` splits off: from the last dot of the
      last path component, provided something other than a dot precedes it
      in that component; otherwise empty. */
  function Extension(path: string): (e: string)
    ensures e == [] || (e[0] == '.' && '/' !in e && |e| <= |path| && e == path[|path| - |e|..])
  {
    var name := LastComponent(path);
    var i := LastIndexOf(name, '.');
    if 0 <= i && HasNonDot(name[..i]) then name[i..] else []
  }

  /** The extension of `dir/stem.ext` is `.ext` when `stem` is not all dots. */
  lemma ExtensionOf(dir: string, stem: string, ext: string)
    requires dir == [] || dir[|dir| - 1] == '/'
    requires '/' !in stem && '/' !in ext && '.' !in ext
    requires HasNonDot(stem)
    ensures Extension(dir + stem + ['.'] + ext) == ['.'] + ext
  {
    var tail := ['.'] + ext;
    var name := stem + tail;
    var path := dir + stem + ['.'] + ext;
    assert LastComponent(path) == name by {
      Regroup(dir, stem, ['.'], ext);
      assert '/' !in name;
      LastComponentOf(dir, name);
    }
    assert LastIndexOf(name, '.') == |stem| by {
      Regroup(dir, stem, ['.'], ext);
      LastDotBefore(stem, ext);
    }
    assert HasNonDot(name[..|stem|]) by {
      assert name[..|stem|] == stem;
    }
    DropFront(stem, tail);
  }

  /** A name whose dots all lead it (no dot, or a hidden file such as
      `.profile`) has no extension. */
  lemma NoExtension(dir: string, name: string)
    requires dir == [] || dir[|dir| - 1] == '/'
    requires '/' !in name
    requires forall k :: 0 <= k < |name| && name[k] == '.' ==> forall j :: 0 <= j < k ==> name[j] == '.'
    ensures Extension(dir + name) == []
  {
    LastComponentOf(dir, name);
    var i := LastIndexOf(name, '.');
    if 0 <= i {
      assert !HasNonDot(name[..i]);
    }
  }

  /** `ext in formats` as Python evaluates it on the stored value: list
      membership for a list, substring search for a string, and an error for
      anything else. */
  function FormatListed(formats: Value, ext: string): (r: Option<bool>)
    ensures r.None? <==> !(formats.Strs? || formats.Str?)
    ensures formats.Strs? ==> r == Some(ext in formats.items)
  {
    match formats
    case Strs(items) => Some(ext in items)
    case Str(s) => Some(IsSubstring(ext, s))
    case _ => None
  }

  /** Python's `a in b` on strings. */
  predicate IsSubstring(a: string, b: string)
    decreases |b|
  {
    a <= b || (b != [] && IsSubstring(a, b[1..]))
  }

  /** Under the default list, a file is supported exactly when its
      lower-cased extension is one of the six video extensions, whatever the
      case in which the name is written. */
  lemma DefaultFormatsDecide(dir: string, stem: string, ext: string)
    requires dir == [] || dir[|dir| - 1] == '/'
    requires '/' !in stem && '/' !in ext && '.' !in ext
    requires HasNonDot(stem)
    ensures FormatListed(Strs(DefaultFormats), Lower(Extension(dir + stem + ['.'] + ext))) ==
            Some(['.'] + Lower(ext) in DefaultFormats)
  {
    ExtensionOf(dir, stem, ext);
    LowerPrefixDot(ext);
  }

  // ---------------------------------------------------------------------
  // The settings object
  // ---------------------------------------------------------------------

  class Settings {
    const defaults: map<string, Value>
    var current: map<string, Value>

    /** `__init__`: the defaults, then a load. */
    constructor(home: string, outcome: LoadOutcome)
      ensures defaults == Defaults(home)
      ensures current == AfterLoad(Defaults(home), Defaults(home), outcome)
    {
      defaults := Defaults(home);
      current := AfterLoad(Defaults(home), Defaults(home), outcome);
    }

    method Load(outcome: LoadOutcome)
      modifies this
      ensures current == AfterLoad(old(current), defaults, outcome)
    {
      current := AfterLoad(current, defaults, outcome);
    }

    /** `get`: the stored value, or `default` when the key is absent. */
    function Get(key: string, default: Value): (v: Value)
      reads this
      ensures key in current ==> v == current[key]
      ensures key !in current ==> v == default
    {
      if key in current then current[key] else default
    }

    /** `set`: afterwards `get(key)` returns `value` and every other key
        reads as before. */
    method Set(key: string, value: Value)
      modifies this
      ensures current == old(current)[key := value]
      ensures forall d :: Get(key, d) == value
      ensures forall k, d :: k != key ==> Get(k, d) == old(Get(k, d))
    {
      current := current[key := value];
    }

    /** `reset_to_defaults`: extra keys are dropped and every default is
        restored. */
    method ResetToDefaults()
      modifies this
      ensures current == defaults
      ensures forall k, d :: Get(k, d) == if k in defaults then defaults[k] else d
    {
      current := defaults;
    }

    /** `get(key, default).lower()`: fails (an `AttributeError` in Python)
        when the stored value is not a string. */
    function GetLowered(key: string, default: string): (r: Option<string>)
      reads this
      ensures r.Some? ==> IsLower(r.value)
      ensures r.None? <==> key in current && !current[key].Str?
      ensures key !in current ==> r == Some(Lower(default))
      ensures key in current && current[key].Str? ==> r == Some(Lower(current[key].s))
    {
      match Get(key, Str(default))
      case Str(s) => LowerIsLower(s); Some(Lower(s))
      case _ => None
    }

    function GetOutputFormat(): (r: Option<string>)
      reads this
      ensures r.Some? ==> IsLower(r.value)
      ensures OutputFormatKey !in current ==> r == Some("mp4")
    {
      LowerFixesLower("mp4");
      GetLowered(OutputFormatKey, "mp4")
    }

    function GetOutputQuality(): (r: Option<string>)
      reads this
      ensures r.Some? ==> IsLower(r.value)
      ensures OutputQualityKey !in current ==> r == Some("medium")
    {
      LowerFixesLower("medium");
      GetLowered(OutputQualityKey, "medium")
    }

    function GetOutputResolution(): (r: Option<string>)
      reads this
      ensures r.Some? ==> IsLower(r.value)
      ensures OutputResolutionKey !in current ==> r == Some("original")
    {
      LowerFixesLower("original");
      GetLowered(OutputResolutionKey, "original")
    }

    /** Stores the lower-cased format; reading it back gives that string. */
    method SetOutputFormat(format: string)
      modifies this
      ensures current == old(current)[OutputFormatKey := Str(Lower(format))]
      ensures GetOutputFormat() == Some(Lower(format))
    {
      current := current[OutputFormatKey := Str(Lower(format))];
      LowerIsLower(format);
    }

    method SetOutputQuality(quality: string)
      modifies this
      ensures current == old(current)[OutputQualityKey := Str(Lower(quality))]
      ensures GetOutputQuality() == Some(Lower(quality))
    {
      current := current[OutputQualityKey := Str(Lower(quality))];
      LowerIsLower(quality);
    }

    method SetOutputResolution(resolution: string)
      modifies this
      ensures current == old(current)[OutputResolutionKey := Str(Lower(resolution))]
      ensures GetOutputResolution() == Some(Lower(resolution))
    {
      current := current[OutputResolutionKey := Str(Lower(resolution))];
      LowerIsLower(resolution);
    }

    /** `is_format_supported`: whether the lower-cased extension of `path`
        is in the stored list (the default list when none is stored). */
    function IsFormatSupported(path: string): (r: Option<bool>)
      reads this
      ensures SupportedFormatsKey !in current ==> r == Some(Lower(Extension(path)) in DefaultFormats)
      ensures SupportedFormatsKey in current && current[SupportedFormatsKey].Strs? ==>
        r == Some(Lower(Extension(path)) in current[SupportedFormatsKey].items)
    {
      FormatListed(Get(SupportedFormatsKey, Strs(DefaultFormats)), Lower(Extension(path)))
    }
  }

  /** A fresh store without a configuration file reads the documented
      defaults, and `set` followed by `get` returns what was set. */
  method SettingsScenario(home: string) returns (threshold: Value, updated: Value, fade: Value)
    ensures threshold == Num(-40.0) && updated == Num(-35.0) && fade == Num(0.1)
  {
    var settings := new Settings(home, NoConfigFile);
    DefaultValues(home);
    assert settings.Get(SilenceThresholdKey, Null) == Num(-40.0);
    assert settings.Get(MinSilenceDurationKey, Null) == Num(2.0);
    assert settings.Get(FadeDurationKey, Null) == Num(0.1);
    threshold := settings.Get(SilenceThresholdKey, Null);
    settings.Set(SilenceThresholdKey, Num(-35.0));
    updated := settings.Get(SilenceThresholdKey, Null);
    fade := settings.Get(FadeDurationKey, Null);
  }
}
