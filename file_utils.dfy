/** Human-readable file sizes and durations. */
module FileUtils {

  // ---------------------------------------------------------------------
  // format_file_size
  // ---------------------------------------------------------------------

  /** The unit names, smallest first. */
  const SizeNames: seq<string> := ["B", "KB", "MB", "GB", "TB"]

  /** The text of a size before its number is rendered: the literal "0 B"
      for zero bytes, otherwise a scaled value and its unit. */
  datatype FormattedSize = ZeroBytes | Scaled(value: real, unit: string)

  function Pow1024(k: nat): (p: nat)
    ensures p >= 1
  {
    if k == 0 then 1 else 1024 * Pow1024(k - 1)
  }

  /** Unit `k` is the one `format_file_size` picks for `size`: the largest of
      the five units that `size` reaches (bytes when it reaches none). */
  predicate IsUnitFor(size: int, k: nat)
  {
    k < |SizeNames| &&
    (k == 0 || size >= Pow1024(k)) &&
    (k == |SizeNames| - 1 || size < Pow1024(k + 1))
  }

  /** `format_file_size`: divides by 1024 while the value is at least 1024 and
      a larger unit remains. */
  method FormatFileSize(size: int) returns (r: FormattedSize)
    ensures size == 0 <==> r == ZeroBytes
    ensures r.Scaled? ==> exists k: nat :: IsUnitFor(size, k) && r.unit == SizeNames[k] &&
                                      r.value == size as real / Pow1024(k) as real
  {
    if size == 0 {
      return ZeroBytes;
    }
    var value := size as real;
    var i := 0;
    while value >= 1024.0 && i < |SizeNames| - 1
      invariant 0 <= i < |SizeNames|
      invariant value == size as real / Pow1024(i) as real
      invariant i == 0 || size >= Pow1024(i)
    {
      ScaleStep(size, Pow1024(i));
      value := value / 1024.0;
      i := i + 1;
    }
    ScaleStep(size, Pow1024(i));
    assert IsUnitFor(size, i);
    r := Scaled(value, SizeNames[i]);
  }

  /** Comparing `size / p` with 1024 is comparing `size` with `1024 * p`, and
      dividing it by 1024 gives `size / (1024 * p)`. */
  lemma ScaleStep(size: int, p: nat)
    requires p >= 1
    ensures size as real / p as real >= 1024.0 <==> size >= 1024 * p
    ensures (size as real / p as real) / 1024.0 == size as real / (1024 * p) as real
  {
    ScaleCompare(size as real, p as real);
    ScaleDivide(size as real, p as real);
  }

  lemma ScaleCompare(a: real, b: real)
    requires b >= 1.0
    ensures a / b >= 1024.0 <==> a >= 1024.0 * b
  {
    var v := a / b;
    assert v * b == a;
    if v >= 1024.0 {
      MulMonotone(1024.0, v, b);
    }
    if a >= 1024.0 * b {
      DivMonotone(1024.0 * b, a, b);
      assert (1024.0 * b) / b == 1024.0;
    }
  }

  lemma ScaleDivide(a: real, b: real)
    requires b >= 1.0
    ensures (a / b) / 1024.0 == a / (1024.0 * b)
  {
    var w := (a / b) / 1024.0;
    assert w * 1024.0 == a / b;
    assert (w * 1024.0) * b == a;
    assert w * (1024.0 * b) == a;
  }

  lemma DivMonotone(a: real, b: real, c: real)
    requires a <= b && 0.0 < c
    ensures a / c <= b / c
  {
    assert b / c - a / c == (b - a) / c;
  }

  lemma MulMonotone(a: real, b: real, c: real)
    requires a <= b && 0.0 <= c
    ensures a * c <= b * c
  {
    assert b * c - a * c == (b - a) * c;
  }

  /** Only one unit fits a size, so the unit `FormatFileSize` reports is
      determined. */
  lemma UnitIsUnique(size: int, j: nat, k: nat)
    requires IsUnitFor(size, j) && IsUnitFor(size, k)
    ensures j == k
  {
    if j < k {
      PowMonotone(j + 1, k);
    } else if k < j {
      PowMonotone(k + 1, j);
    }
  }

  lemma {:induction false} PowMonotone(j: nat, k: nat)
    requires j <= k
    ensures Pow1024(j) <= Pow1024(k)
  {
    if j < k {
      PowMonotone(j, k - 1);
    }
  }

  /** Below the largest unit, the scaled value of a positive size lies in
      [1, 1024). */
  lemma ScaledValueInRange(size: int, k: nat)
    requires size > 0 && IsUnitFor(size, k)
    ensures 1.0 <= size as real / Pow1024(k) as real
    ensures k < |SizeNames| - 1 ==> size as real / Pow1024(k) as real < 1024.0
  {
    ScaleStep(size, Pow1024(k));
    var p := Pow1024(k) as real;
    if k == 0 {
      assert p == 1.0;
      assert size as real / p == size as real;
    } else {
      DivMonotone(p, size as real, p);
      DivSelf(p);
    }
  }

  lemma DivSelf(p: real)
    requires p > 0.0
    ensures p / p == 1.0
  {
  }

  /** 1024 bytes are 1.0 KB and 1048576 bytes are 1.0 MB. */
  method FormatFileSizeExamples() returns (kb: FormattedSize, mb: FormattedSize)
    ensures kb == Scaled(1.0, "KB") && mb == Scaled(1.0, "MB")
  {
    kb := FormatFileSize(1024);
    assert IsUnitFor(1024, 1);
    var k: nat :| IsUnitFor(1024, k) && kb.unit == SizeNames[k] && kb.value == 1024 as real / Pow1024(k) as real;
    UnitIsUnique(1024, k, 1);
    assert kb == Scaled(1.0, "KB");
    mb := FormatFileSize(1048576);
    assert Pow1024(2) == 1048576;
    assert IsUnitFor(1048576, 2);
    var m: nat :| IsUnitFor(1048576, m) && mb.unit == SizeNames[m] && mb.value == 1048576 as real / Pow1024(m) as real;
    UnitIsUnique(1048576, m, 2);
    assert mb == Scaled(1.0, "MB");
  }

  // ---------------------------------------------------------------------
  // get_duration_string
  // ---------------------------------------------------------------------

  /** The fields of a duration string: `"<s>s"`, `"<m>m <s>s"` or
      `"<h>h <m>m <s>s"`. */
  datatype Duration =
    | Secs(s: int)
    | MinSecs(m: int, s: int)
    | HourMinSecs(h: int, m: int, s: int)

  /** Python's `int(x)`: truncation toward zero. */
  function Trunc(x: real): int
  {
    if x < 0.0 then -((-x).Floor) else x.Floor
  }

  /** Python's `x // d` on a float and a positive integer: the floor of the quotient. */
  function FloorDiv(x: real, d: nat): int
    requires d > 0
  {
    (x / d as real).Floor
  }

  /** Python's `x % d` on a float and a positive integer: never negative. */
  function PyMod(x: real, d: nat): real
    requires d > 0
  {
    x - d as real * FloorDiv(x, d) as real
  }

  /** `get_duration_string`. */
  function DurationString(seconds: real): Duration
  {
    if seconds < 60.0 then
      Secs(Trunc(seconds))
    else if seconds < 3600.0 then
      MinSecs(Trunc(FloorDiv(seconds, 60) as real), Trunc(PyMod(seconds, 60)))
    else
      HourMinSecs(Trunc(FloorDiv(seconds, 3600) as real),
                  Trunc(FloorDiv(PyMod(seconds, 3600), 60) as real),
                  Trunc(PyMod(seconds, 60)))
  }

  /** The number of whole seconds a duration string shows. */
  function Total(d: Duration): int
  {
    match d
    case Secs(s) => s
    case MinSecs(m, s) => 60 * m + s
    case HourMinSecs(h, m, s) => 3600 * h + 60 * m + s
  }

  /** For a non-negative duration, the string shows exactly its whole seconds,
      with minutes and seconds below 60, a field appearing only when the
      duration reaches it, and the leading field never zero. */
  lemma DurationDecomposes(seconds: real)
    requires seconds >= 0.0
    ensures var d := DurationString(seconds);
      Total(d) == seconds.Floor &&
      match d
      case Secs(s) => 0 <= s < 60 && seconds < 60.0
      case MinSecs(m, s) => 1 <= m < 60 && 0 <= s < 60 && 60.0 <= seconds < 3600.0
      case HourMinSecs(h, m, s) => 1 <= h && 0 <= m < 60 && 0 <= s < 60 && 3600.0 <= seconds
  {
    var n := seconds.Floor;
    FloorDivOfFloor(seconds, 60);
    if 60.0 <= seconds < 3600.0 {
      assert n / 60 >= 1;
    } else if 3600.0 <= seconds {
      FloorDivOfFloor(seconds, 3600);
      var rest := PyMod(seconds, 3600);
      assert rest.Floor == n % 3600;
      FloorDivOfFloor(rest, 60);
      ModOfMod(n);
    }
  }

  /** `x // d` is the integer quotient of `floor(x)` by `d`, and `x % d`
      rounds down to its integer remainder. */
  lemma FloorDivOfFloor(x: real, d: nat)
    requires x >= 0.0 && d > 0
    ensures FloorDiv(x, d) == x.Floor / d
    ensures PyMod(x, d).Floor == x.Floor % d
    ensures 0.0 <= PyMod(x, d)
  {
    var n := x.Floor;
    var q := n / d;
    assert q * d <= n < q * d + d;
    assert q as real * d as real <= x < (q + 1) as real * d as real;
    DivBetween(x, d as real, q);
    var m := PyMod(x, d);
    assert m == x - d as real * q as real;
    assert (n % d) as real <= m < (n % d + 1) as real;
  }

  lemma DivBetween(x: real, d: real, q: int)
    requires d > 0.0 && q as real * d <= x < (q + 1) as real * d
    ensures (x / d).Floor == q
  {
    DivMonotone(q as real * d, x, d);
    assert (q as real * d) / d == q as real;
    DivStrict(x, (q + 1) as real * d, d);
    assert ((q + 1) as real * d) / d == (q + 1) as real;
  }

  lemma DivStrict(a: real, b: real, c: real)
    requires a < b && 0.0 < c
    ensures a / c < b / c
  {
    assert b / c - a / c == (b - a) / c;
  }

  lemma ModOfMod(n: int)
    requires n >= 0
    ensures n == 3600 * (n / 3600) + 60 * ((n % 3600) / 60) + n % 60
    ensures 0 <= (n % 3600) / 60 < 60
  {
    var h, r := n / 3600, n % 3600;
    var m, s := r / 60, r % 60;
    assert n == 3600 * h + r;
    assert r == 60 * m + s && 0 <= s < 60;
    RemainderBy60(n, 60 * h + m, s);
    assert 60 * m <= r < 3600;
  }

  /** `n % 60` is the remainder of any split of `n` into sixties and a rest below 60. */
  lemma RemainderBy60(n: int, k: int, s: int)
    requires n == 60 * k + s && 0 <= s < 60
    ensures n % 60 == s
  {
  }

  /** 65 s reads "1m 5s" and 3661 s reads "1h 1m 1s". */
  lemma DurationExamples()
    ensures DurationString(65.0) == MinSecs(1, 5)
    ensures DurationString(3661.0) == HourMinSecs(1, 1, 1)
  {
    DurationDecomposes(65.0);
    DurationDecomposes(3661.0);
  }
}
