/** SystemResourcesCheck of both health files: disk usage of '/', the load average
    and the memory figures read from /proc/meminfo. */
module SystemResources {
  import opened Base
  import opened Decimal
  import opened PhpLang
  import opened Rounding
  import opened Results
  import opened ByteFormat
  import OrderedMap

  /** What the check reads from the host. `diskFree` and `diskTotal` are the byte
      counts disk_free_space('/') and disk_total_space('/') return as floats (None
      for false); `load` is sys_getloadavg() ([] for false); `meminfo` is the lines of
      /proc/meminfo (None when the read fails); `meminfoReadable` is is_readable()
      on it; `phpRealUsage`/`phpRealPeak` are memory_get_usage(true) and
      memory_get_peak_usage(true). */
  datatype SystemProbe = SystemProbe(
    diskFree: Option<nat>,
    diskTotal: Option<nat>,
    load: seq<real>,
    meminfoReadable: bool,
    meminfo: Option<seq<string>>,
    phpRealUsage: nat,
    phpRealPeak: nat)

  /** 90% disk usage, in hundredths of a percent. */
  const MAX_DISK_USAGE: int := 9000
  const MAX_LOAD_AVERAGE: real := 10.0

  /** `\w` of the meminfo pattern. */
  predicate IsWordChar(c: char) {
    IsDigit(c) || 'a' <= c <= 'z' || 'A' <= c <= 'Z' || c == '_'
  }

  /** The longest prefix of `s` made of word characters. */
  function WordRun(s: string): (w: string)
    ensures |w| <= |s| && w == s[..|w|]
    ensures forall i :: 0 <= i < |w| ==> IsWordChar(w[i])
    ensures |w| < |s| ==> !IsWordChar(s[|w|])
  {
    if |s| > 0 && IsWordChar(s[0]) then [s[0]] + WordRun(s[1..]) else []
  }

  /** One line against `^(\w+):\s+(\d+)\s+kB`: the field name and the value in bytes
      (the kB figure times 1024). */
  function MatchLine(line: string): (r: Option<(string, nat)>)
    ensures r.Some? ==> 0 < |r.value.0| <= |line| && r.value.0 == line[..|r.value.0|]
    ensures r.Some? ==> r.value.1 % 1024 == 0
  {
    var name := WordRun(line);
    var r1 := line[|name|..];
    if |name| == 0 || |r1| == 0 || r1[0] != ':' then None
    else
      var r2 := SkipNumericSpace(r1[1..]);
      if |r2| == |r1| - 1 then None
      else
        var d := DigitRun(r2);
        var r3 := SkipNumericSpace(r2[|d|..]);
        if |d| == 0 || |r3| == |r2| - |d| || |r3| < 2 || r3[..2] != "kB" then None
        else Some((name, DigitsValue(d) * 1024))
  }

  /** A meminfo line as the kernel writes it. */
  function RenderLine(name: string, kb: nat): string {
    name + ":" + "       " + NatToString(kb) + " kB"
  }

  lemma {:induction false} WordRunOfWord(w: string, rest: string)
    requires forall i :: 0 <= i < |w| ==> IsWordChar(w[i])
    requires |rest| == 0 || !IsWordChar(rest[0])
    ensures WordRun(w + rest) == w
  {
    if |w| > 0 {
      assert (w + rest)[1..] == w[1..] + rest;
      WordRunOfWord(w[1..], rest);
    }
  }

  lemma {:induction false} SkipSpaces(sp: string, rest: string)
    requires forall i :: 0 <= i < |sp| ==> sp[i] == ' '
    requires |rest| == 0 || !IsNumericSpace(rest[0])
    ensures SkipNumericSpace(sp + rest) == rest
  {
    if |sp| > 0 {
      assert (sp + rest)[1..] == sp[1..] + rest;
      SkipSpaces(sp[1..], rest);
    }
  }

  /** Every line the kernel writes is read back: its name and its kB figure in bytes. */
  lemma MatchRenderedLine(name: string, kb: nat)
    requires 0 < |name| && forall i :: 0 <= i < |name| ==> IsWordChar(name[i])
    ensures MatchLine(RenderLine(name, kb)) == Some((name, kb * 1024))
  {
    var digits := NatToString(kb);
    var tail := "       " + digits + " kB";
    var line := RenderLine(name, kb);
    assert line == name + (":" + tail);
    WordRunOfWord(name, ":" + tail);
    assert line[|name|..] == ":" + tail;
    assert (":" + tail)[1..] == tail;
    RenderedFigure(digits);
    NatToStringRoundTrip(kb);
  }

  /** What follows the colon of a kernel-written line: the spaces, then a digit run
      that ends at a space, then the unit. */
  lemma RenderedFigure(digits: string)
    requires 0 < |digits| && AllDigits(digits)
    ensures SkipNumericSpace("       " + digits + " kB") == digits + " kB"
    ensures DigitRun(digits + " kB") == digits
    ensures SkipNumericSpace((digits + " kB")[|digits|..]) == "kB"
  {
    LeadingSpaces(digits + " kB");
    assert "       " + digits + " kB" == "       " + (digits + " kB");
    DigitRunOfDigits(digits, " kB");
    assert (digits + " kB")[|digits|..] == " kB";
    UnitAfterSpace();
  }

  lemma LeadingSpaces(rest: string)
    requires 0 < |rest| && IsDigit(rest[0])
    ensures SkipNumericSpace("       " + rest) == rest
  {
    SkipSpaces("       ", rest);
  }

  lemma UnitAfterSpace()
    ensures SkipNumericSpace(" kB") == "kB"
  {
    assert " kB" == " " + "kB";
    SkipSpaces(" ", "kB");
  }

  /** True when `line` is a meminfo entry for `key`. */
  predicate Names(line: string, key: string) {
    MatchLine(line).Some? && MatchLine(line).value.0 == key
  }

  /** The `$meminfo` array: each matching line assigned in file order, so a name
      that occurs twice keeps its first position and its last value. */
  function ParseMeminfo(lines: seq<string>): (m: seq<(string, nat)>)
    ensures OrderedMap.Valid(m)
    decreases |lines|
  {
    if |lines| == 0 then []
    else
      var m := ParseMeminfo(lines[..|lines| - 1]);
      match MatchLine(lines[|lines| - 1])
      case None => m
      case Some(entry) =>
        OrderedMap.PutValid(m, entry.0, entry.1);
        OrderedMap.Put(m, entry.0, entry.1)
  }

  /** The effect of one more line on `$meminfo[$key]`. */
  lemma PutStep(init: seq<string>, last: string, key: string)
    ensures OrderedMap.Get(ParseMeminfo(init + [last]), key) ==
      if Names(last, key) then Some(MatchLine(last).value.1) else OrderedMap.Get(ParseMeminfo(init), key)
  {
    var lines := init + [last];
    assert lines[..|lines| - 1] == init;
    if MatchLine(last).Some? {
      OrderedMap.PutGet(ParseMeminfo(init), MatchLine(last).value.0, MatchLine(last).value.1, key);
    }
  }

  /** `$meminfo[$key]` is absent exactly when no line names `key`. */
  lemma {:induction false} ParseMeminfoAbsent(lines: seq<string>, key: string)
    ensures OrderedMap.Get(ParseMeminfo(lines), key).None? <==>
      forall i :: 0 <= i < |lines| ==> !Names(lines[i], key)
    decreases |lines|
  {
    if |lines| > 0 {
      var init := lines[..|lines| - 1];
      var last := lines[|lines| - 1];
      ParseMeminfoAbsent(init, key);
      assert lines == init + [last];
      PutStep(init, last, key);
      NoLineNamesSnoc(init, last, key);
    }
  }

  lemma NoLineNamesSnoc(init: seq<string>, last: string, key: string)
    ensures (forall i :: 0 <= i < |init + [last]| ==> !Names((init + [last])[i], key)) <==>
      (forall i :: 0 <= i < |init| ==> !Names(init[i], key)) && !Names(last, key)
  {
    var lines := init + [last];
    assert lines[|init|] == last;
    assert forall i :: 0 <= i < |init| ==> lines[i] == init[i];
  }

  /** `$meminfo[$key]` is the value of the last line naming `key`. */
  lemma {:induction false} ParseMeminfoLastWins(lines: seq<string>, key: string, i: int)
    requires 0 <= i < |lines| && Names(lines[i], key)
    requires forall j :: i < j < |lines| ==> !Names(lines[j], key)
    ensures OrderedMap.Get(ParseMeminfo(lines), key) == Some(MatchLine(lines[i]).value.1)
    decreases |lines|
  {
    if i < |lines| - 1 {
      var init := lines[..|lines| - 1];
      assert init[i] == lines[i];
      assert forall j :: i < j < |init| ==> init[j] == lines[j];
      ParseMeminfoLastWins(init, key, i);
      assert !Names(lines[|lines| - 1], key);
      PutStep(init, lines[|lines| - 1], key);
      assert lines == init + [lines[|lines| - 1]];
    } else {
      PutStep(lines[..|lines| - 1], lines[|lines| - 1], key);
      assert lines == lines[..|lines| - 1] + [lines[|lines| - 1]];
    }
  }

  /** `$meminfo['MemAvailable'] ?? $meminfo['MemFree'] ?? 0` */
  function Available(m: seq<(string, nat)>): nat {
    match OrderedMap.Get(m, "MemAvailable")
    case Some(a) => a
    case None => OrderedMap.Get(m, "MemFree").GetOr(0)
  }

  /** The four memory figures computed from the parsed file. */
  function MeminfoFields(m: seq<(string, nat)>): Fields {
    var total := OrderedMap.Get(m, "MemTotal").GetOr(0);
    var available := Available(m);
    var used := total - available;
    [
      ("total", JStr(FormatBytes(total))),
      ("available", JStr(FormatBytes(available))),
      ("used", JStr(FormatBytes(used))),
      ("usage_percent", if total > 0 then JFixed(Percent(used, total)) else JInt(0))
    ]
  }

  /** getMemoryInfoSafely() (Hardened) and getMemoryInfo() (Legacy). */
  function MemoryDetails(v: Variant, p: SystemProbe): (f: Fields)
    ensures v == Hardened ==> 0 < |f| && f[0] == ("source", JStr(if p.meminfo.Some? then "proc_meminfo" else "php_fallback"))
    ensures v == Hardened && p.meminfo.None? ==>
      OrderedMap.Keys(f) == ["source", "note", "php_memory_usage", "php_memory_peak"]
    ensures v == Legacy && (!p.meminfoReadable || p.meminfo.None?) ==> f == [("available", JBool(false))]
    ensures p.meminfo.Some? && (v == Hardened || p.meminfoReadable) ==>
      4 <= |f| && f[|f| - 4..] == MeminfoFields(ParseMeminfo(p.meminfo.value))
  {
    match v
    case Hardened =>
      if p.meminfo.None? then
        [
          ("source", JStr("php_fallback")),
          ("note", JStr("System memory unavailable (open_basedir restriction)")),
          ("php_memory_usage", JStr(FormatBytes(p.phpRealUsage))),
          ("php_memory_peak", JStr(FormatBytes(p.phpRealPeak)))
        ]
      else
        [("source", JStr("proc_meminfo"))] + MeminfoFields(ParseMeminfo(p.meminfo.value))
    case Legacy =>
      if !p.meminfoReadable || p.meminfo.None? then [("available", JBool(false))]
      else MeminfoFields(ParseMeminfo(p.meminfo.value))
  }

  /** The memory used by the host: the available figure comes from MemAvailable when
      the file has it, else MemFree, else 0. */
  lemma AvailablePrefersMemAvailable(lines: seq<string>, i: int)
    requires 0 <= i < |lines| && Names(lines[i], "MemAvailable")
    requires forall j :: i < j < |lines| ==> !Names(lines[j], "MemAvailable")
    ensures Available(ParseMeminfo(lines)) == MatchLine(lines[i]).value.1
  {
    ParseMeminfoLastWins(lines, "MemAvailable", i);
  }

  /** Without a MemAvailable line the last MemFree line is used. */
  lemma AvailableFallsBackToMemFree(lines: seq<string>, i: int)
    requires forall j :: 0 <= j < |lines| ==> !Names(lines[j], "MemAvailable")
    requires 0 <= i < |lines| && Names(lines[i], "MemFree")
    requires forall j :: i < j < |lines| ==> !Names(lines[j], "MemFree")
    ensures Available(ParseMeminfo(lines)) == MatchLine(lines[i]).value.1
  {
    ParseMeminfoAbsent(lines, "MemAvailable");
    ParseMeminfoLastWins(lines, "MemFree", i);
  }

  /** `$loadAvg[$i] ?? 0` */
  function LoadAt(load: seq<real>, i: nat): real {
    if i < |load| then load[i] else 0.0
  }

  /** The disk usage percent in hundredths, when the total is positive. */
  function DiskPercent(p: SystemProbe): (pct: Option<int>)
    ensures pct.Some? <==> p.diskTotal.Some? && p.diskTotal.value > 0
  {
    if p.diskTotal.Some? && p.diskTotal.value > 0 then
      Some(Percent(p.diskTotal.value - p.diskFree.GetOr(0), p.diskTotal.value))
    else None
  }

  /** The TypeError raised when a float byte count reaches the int-typed formatter. */
  function FormatterTypeError(v: Variant): string {
    match v
    case Hardened => "HealthCheck\\ByteFormatter::format(): Argument #1 ($bytes) must be of type int, float given"
    case Legacy => "HealthCheck\\SystemResourcesCheck::formatBytes(): Argument #1 ($bytes) must be of type int, float given"
  }

  /** `format($disk ?: 0)` as written: false and 0.0 become the int 0, but any other
      float is passed on and rejected under strict_types. */
  function FormatDiskAsWritten(v: Variant, x: Option<nat>): (r: Outcome<string>)
    ensures r.Returned? <==> x.None? || x.value == 0
  {
    if x.None? || x.value == 0 then Returned(FormatBytes(0)) else Threw(FormatterTypeError(v))
  }

  /** `format((int) ($disk ?: 0))`: the byte count formatted. */
  function FormatDisk(x: Option<nat>): (r: Outcome<string>)
    ensures r.Returned? && r.value == FormatBytes(x.GetOr(0))
  {
    Returned(FormatBytes(x.GetOr(0)))
  }

  /** The "disk" entry: both figures as formatted and the usage percentage. */
  function DiskFields(p: SystemProbe, total: string, free: string): Fields {
    [("total", JStr(total)),
     ("free", JStr(free)),
     ("usage_percent", if DiskPercent(p).Some? then JFixed(DiskPercent(p).value) else JInt(0))]
  }

  /** The "load_average" entry: the three load figures rounded to two places. */
  function LoadFields(p: SystemProbe): Fields {
    [("1min", JFixed(RoundReal(LoadAt(p.load, 0)))),
     ("5min", JFixed(RoundReal(LoadAt(p.load, 1)))),
     ("15min", JFixed(RoundReal(LoadAt(p.load, 2))))]
  }

  /** The details array of a completed system check. */
  function Details(v: Variant, p: SystemProbe, total: string, free: string): (d: Fields)
    ensures OrderedMap.Keys(d) == ["disk", "load_average", "memory"]
    ensures d[0].1 == JObj(DiskFields(p, total, free))
  {
    [("disk", JObj(DiskFields(p, total, free))),
     ("load_average", JObj(LoadFields(p))),
     ("memory", JObj(MemoryDetails(v, p)))]
  }

  /** performCheck() given how the two disk figures get formatted; `total` is
      evaluated before `free`, as in the returned array. */
  function Body(v: Variant, p: SystemProbe, total: Outcome<string>, free: Outcome<string>): (r: Outcome<Performed>)
    ensures total.Threw? ==> r == Threw(total.message)
    ensures total.Returned? && free.Threw? ==> r == Threw(free.message)
    ensures total.Returned? && free.Returned? ==> r.Returned? && r.value.details == Some(Details(v, p, total.value, free.value))
  {
    var pct := DiskPercent(p);
    var load1 := LoadAt(p.load, 0);
    var healthy := (pct.None? || pct.value < MAX_DISK_USAGE) && load1 < MAX_LOAD_AVERAGE;
    match total
    case Threw(m) => Threw(m)
    case Returned(t) =>
      match free
      case Threw(m) => Threw(m)
      case Returned(f) =>
        Returned(Performed(healthy, if healthy then "healthy" else "warning", Some(Details(v, p, t, f)), None))
  }

  /** performCheck() as written: it throws exactly when disk space could be read as
      a non-zero amount, and otherwise agrees with the corrected check. */
  function CheckAsWritten(v: Variant, p: SystemProbe): (r: Outcome<Performed>)
    ensures r.Threw? <==> (p.diskTotal.Some? && p.diskTotal.value != 0) || (p.diskFree.Some? && p.diskFree.value != 0)
    ensures r.Threw? ==> r.message == FormatterTypeError(v)
  {
    Body(v, p, FormatDiskAsWritten(v, p.diskTotal), FormatDiskAsWritten(v, p.diskFree))
  }

  /** Where the check as written does not raise, it agrees with the corrected check. */
  lemma CheckAsWrittenAgrees(v: Variant, p: SystemProbe)
    ensures CheckAsWritten(v, p).Returned? ==> CheckAsWritten(v, p) == Check(v, p)
  {
  }

  /** performCheck() with the disk figures cast to int: it never throws; it is healthy
      exactly when the disk is less than 90% used (rounded to two places; an
      unknown or zero total counts as 0%) and the one-minute load is below 10; the
      disk figures are formatted. */
  function Check(v: Variant, p: SystemProbe): (r: Outcome<Performed>)
    ensures r.Returned?
    ensures r.value.healthy <==>
      (p.diskTotal.None? || p.diskTotal.value == 0
        || 20000 * (p.diskTotal.value - p.diskFree.GetOr(0)) < 17999 * p.diskTotal.value)
      && LoadAt(p.load, 0) < 10.0
    ensures r.value.status == (if r.value.healthy then "healthy" else "warning")
    ensures r.value.error.None?
    ensures r.value.details.Some? && OrderedMap.Keys(r.value.details.value) == ["disk", "load_average", "memory"]
    ensures r.value.details.value[0].1 == JObj(DiskFields(p, FormatBytes(p.diskTotal.GetOr(0)), FormatBytes(p.diskFree.GetOr(0))))
  {
    assert DiskPercent(p).Some? ==> (DiskPercent(p).value < MAX_DISK_USAGE <==>
      20000 * (p.diskTotal.value - p.diskFree.GetOr(0)) < 17999 * p.diskTotal.value) by {
      if p.diskTotal.Some? && p.diskTotal.value > 0 {
        PercentBelow(p.diskTotal.value - p.diskFree.GetOr(0), p.diskTotal.value, MAX_DISK_USAGE);
      }
    }
    Body(v, p, FormatDisk(p.diskTotal), FormatDisk(p.diskFree))
  }

  /** As written, a host whose disk size can be read always reports the system check
      as an "error" once check() has caught the TypeError. */
  lemma ReadableDiskReportsError(v: Variant, p: SystemProbe, elapsedUs: nat)
    requires p.diskTotal.Some? && p.diskTotal.value > 0
    ensures var r := Guard(CheckAsWritten(v, p), elapsedUs);
      r.status == "error" && !r.healthy && r.error == Some(FormatterTypeError(v))
  {
  }

  /** Without a meminfo file, the hardened check still reports memory, from PHP's own
      counters, while the legacy one reports it unavailable. */
  lemma MeminfoFallbacks(p: SystemProbe)
    requires p.meminfo.None?
    ensures MemoryDetails(Hardened, p)[2] == ("php_memory_usage", JStr(FormatBytes(p.phpRealUsage)))
    ensures MemoryDetails(Legacy, p) == [("available", JBool(false))]
  {
  }
}
