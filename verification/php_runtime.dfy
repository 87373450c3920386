/** PhpRuntimeCheck in both health files: parses the memory_limit setting and is
    healthy while memory usage stays below 90% of it. */
module PhpRuntime {
  import opened Base
  import opened Decimal
  import opened PhpLang
  import opened Rounding
  import opened Results
  import opened ByteFormat

  /** What the check reads from the runtime: ini_get('memory_limit'),
      memory_get_usage(true), memory_get_peak_usage(true), PHP_VERSION, PHP_SAPI and
      zend_version(). */
  datatype RuntimeProbe = RuntimeProbe(
    memoryLimit: string,
    usage: nat,
    peak: nat,
    version: string,
    sapi: string,
    zendVersion: string)

  /** The message of the TypeError raised when parseMemory's product overflows into
      a float and is returned from a function declared `: int` under strict_types. */
  const PARSE_MEMORY_TYPE_ERROR: string :=
    "HealthCheck\\PhpRuntimeCheck::parseMemory(): Return value must be of type int, float returned"

  const GIB: nat := 1073741824
  const MIB: nat := 1048576
  const KIB: nat := 1024

  /** The multiplier selected by the (lower-cased) last character: g, m or k, and 1
      for anything else, including the empty string. */
  function UnitFactor(t: string): (f: nat)
    ensures f == 1 || f == KIB || f == MIB || f == GIB
  {
    if |t| == 0 then 1
    else
      var u := LowerChar(t[|t| - 1]);
      if u == 'g' then GIB else if u == 'm' then MIB else if u == 'k' then KIB else 1
  }

  /** parseMemory(): trims, then scales the leading integer by the unit suffix. Only
      php/health.php maps "-1" to PHP_INT_MAX. A product beyond 64 bits becomes a
      float in PHP, which the `: int` return type rejects. */
  function ParseMemory(v: Variant, raw: string): (r: Outcome<int>)
    ensures r.Returned? ==> InInt64(r.value)
    ensures r.Threw? ==> r.message == PARSE_MEMORY_TYPE_ERROR
  {
    var t := Trim(raw);
    if v.Hardened? && t == "-1" then Returned(PHP_INT_MAX)
    else
      var n := IntCast(t) * UnitFactor(t);
      if InInt64(n) then Returned(n) else Threw(PARSE_MEMORY_TYPE_ERROR)
  }

  /** A count followed by g, m or k in either case is scaled by 1024^3, 1024^2 or
      1024 (so "256M" is 268435456); the result is the same in both files. */
  lemma ParseMemorySuffixed(v: Variant, n: nat, u: char)
    requires u in "gGmMkK"
    requires n * UnitFactor([u]) <= PHP_INT_MAX
    ensures ParseMemory(v, NatToString(n) + [u]) == Returned(n * UnitFactor([u]))
    ensures u in "gG" ==> UnitFactor([u]) == GIB
    ensures u in "mM" ==> UnitFactor([u]) == MIB
    ensures u in "kK" ==> UnitFactor([u]) == KIB
  {
    var s := NatToString(n) + [u];
    TrimUnpadded(s);
    IntCastOfRendered(n, [u]);
    assert IntToString(n) + [u] == s;
    assert s[|s| - 1] == u;
  }

  /** A plain count without a suffix is taken as bytes. */
  lemma ParseMemoryPlain(v: Variant, n: nat)
    requires n <= PHP_INT_MAX
    ensures ParseMemory(v, NatToString(n)) == Returned(n)
  {
    var s := NatToString(n);
    TrimUnpadded(s);
    assert s != "-1" by {
      assert IsDigit(s[0]);
    }
    assert UnitFactor(s) == 1 by {
      assert IsDigit(s[|s| - 1]);
    }
    IntCastOfRendered(n, []);
    assert IntToString(n) + [] == s;
  }

  lemma ParseMemory256M(v: Variant)
    ensures ParseMemory(v, "256M") == Returned(268435456)
  {
    ParseMemorySuffixed(v, 256, 'M');
    Render256M();
  }

  /** parseMemory() trims its input: whitespace around the ini value changes nothing. */
  lemma ParseMemoryPadded(v: Variant, pre: string, s: string, post: string)
    requires AllTrimSpace(pre) && AllTrimSpace(post)
    ensures ParseMemory(v, pre + s + post) == ParseMemory(v, s)
  {
    TrimPadded(pre, s, post);
  }

  /** " 256M\n" is read as 256 MiB, like "256M". */
  lemma ParseMemoryPadded256M(v: Variant)
    ensures ParseMemory(v, " 256M\n") == Returned(268435456)
  {
    assert " 256M\n" == " " + "256M" + "\n";
    ParseMemoryPadded(v, " ", "256M", "\n");
    ParseMemory256M(v);
  }

  lemma Render256M()
    ensures NatToString(256) + ['M'] == "256M"
  {
    assert NatToString(25) == "25" by {
      assert NatToString(2) == "2";
    }
  }

  lemma MinusOneTrimmed()
    ensures Trim("-1") == "-1"
  {
    TrimUnpadded("-1");
  }

  lemma MinusOneHasNoUnit()
    ensures UnitFactor("-1") == 1
  {
  }

  lemma MinusOneCast()
    ensures IntCast("-1") == -1
  {
    assert DigitRun("1") == "1" by {
      assert "1"[1..] == [];
    }
    IntCastNegativeRun("1", "1");
    assert "-" + "1" == "-1";
  }

  /** "-1" (no limit) is PHP_INT_MAX in php/health.php, but health.php has no such
      branch: the final '1' is no unit, so it yields -1. */
  lemma ParseMemoryMinusOne()
    ensures ParseMemory(Hardened, "-1") == Returned(PHP_INT_MAX)
    ensures ParseMemory(Legacy, "-1") == Returned(-1)
  {
    MinusOneTrimmed();
    MinusOneHasNoUnit();
    MinusOneCast();
  }

  /** A limit whose scaled value exceeds 64 bits makes parseMemory throw. */
  lemma ParseMemoryOverflow(v: Variant, n: nat, u: char)
    requires u in "gGmMkK"
    requires n <= PHP_INT_MAX
    requires n * UnitFactor([u]) > PHP_INT_MAX
    ensures ParseMemory(v, NatToString(n) + [u]) == Threw(PARSE_MEMORY_TYPE_ERROR)
  {
    var s := NatToString(n) + [u];
    TrimUnpadded(s);
    IntCastOfRendered(n, [u]);
    assert IntToString(n) + [u] == s;
    assert s[|s| - 1] == u;
  }

  /** Usage as a percentage of the limit in hundredths; 0 when the limit is not positive. */
  function UsagePercent(limit: int, usage: nat): (p: int)
    ensures limit <= 0 ==> p == 0
    ensures limit > 0 ==> IsRounded(usage * 10000, limit, p)
  {
    if limit > 0 then Percent(usage, limit) else 0
  }

  /** usage_percent as reported: a rounded float, or the integer 0 when the limit is
      not positive. */
  function PercentJson(limit: int, p: int): Json {
    if limit > 0 then JFixed(p) else JInt(0)
  }

  /** performCheck() of PhpRuntimeCheck. */
  function RuntimeCheck(v: Variant, probe: RuntimeProbe): (r: Outcome<Performed>)
    ensures r.Threw? <==> ParseMemory(v, probe.memoryLimit).Threw?
    ensures r.Returned? ==> var limit := ParseMemory(v, probe.memoryLimit).value;
      (r.value.healthy <==> limit <= 0 || 20000 * probe.usage < 17999 * limit)
    ensures r.Returned? ==> r.value.status == (if r.value.healthy then "healthy" else "warning")
    ensures r.Returned? ==> r.value.error.None? && r.value.details.Some?
  {
    match ParseMemory(v, probe.memoryLimit)
    case Threw(m) => Threw(m)
    case Returned(limit) =>
      var pct := UsagePercent(limit, probe.usage);
      var healthy := pct < 9000;
      assert limit > 0 ==> (healthy <==> 20000 * probe.usage < 17999 * limit) by {
        if limit > 0 {
          PercentBelow(probe.usage, limit, 9000);
        }
      }
      var memory := [
        ("limit", JStr(FormatBytes(limit))),
        ("usage", JStr(FormatBytes(probe.usage))),
        ("peak", JStr(FormatBytes(probe.peak))),
        ("usage_percent", PercentJson(limit, pct))
      ];
      Returned(Performed(
        healthy,
        if healthy then "healthy" else "warning",
        Some([
          ("version", JStr(probe.version)),
          ("sapi", JStr(probe.sapi)),
          ("memory", JObj(memory)),
          ("zend_version", JStr(probe.zendVersion))
        ]),
        None))
  }

  /** health.php reads "-1" as -1, so the usage percentage is 0 and the check is
      healthy whatever the usage. */
  lemma LegacyUnlimitedIsHealthy(probe: RuntimeProbe)
    requires probe.memoryLimit == "-1"
    ensures RuntimeCheck(Legacy, probe).Returned?
    ensures RuntimeCheck(Legacy, probe).value.healthy
  {
    ParseMemoryMinusOne();
  }

  /** Usage up to half the 64-bit range stays below 90% of PHP_INT_MAX. */
  lemma HalfRangeBelowThreshold(usage: nat)
    requires usage <= PHP_INT_MAX / 2
    ensures 20000 * usage < 17999 * PHP_INT_MAX
  {
    MulMonotone(usage, PHP_INT_MAX / 2, 20000);
  }

  /** php/health.php reads "-1" as PHP_INT_MAX: the percentage rounds to 0 for any
      realistic usage and the check is healthy up to half the 64-bit range. */
  lemma HardenedUnlimitedIsHealthy(probe: RuntimeProbe)
    requires probe.memoryLimit == "-1"
    requires probe.usage <= PHP_INT_MAX / 2
    ensures RuntimeCheck(Hardened, probe).Returned?
    ensures RuntimeCheck(Hardened, probe).value.healthy
    ensures 20000 * probe.usage < PHP_INT_MAX ==> UsagePercent(PHP_INT_MAX, probe.usage) == 0
  {
    ParseMemoryMinusOne();
    assert ParseMemory(Hardened, probe.memoryLimit) == Returned(PHP_INT_MAX);
    HalfRangeBelowThreshold(probe.usage);
    var q := UsagePercent(PHP_INT_MAX, probe.usage);
    if 20000 * probe.usage < PHP_INT_MAX && q != 0 {
      MulMonotone(1, q, PHP_INT_MAX);
    }
  }
}
