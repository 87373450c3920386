/** CheckResult and the fault-containing wrapper every health checker runs its body
    through (AbstractHealthCheck::check in both health files), plus the JSON-like
    values the checkers report. */
module Results {
  import opened Base
  import opened Rounding
  import OrderedMap

  /** A JSON-serialisable PHP value as the checkers build it. */
  datatype Json =
    | JBool(b: bool)
    | JInt(n: int)
      /** A float produced by round(x, 2), as a count of hundredths. */
    | JFixed(hundredths: int)
      /** A float read from server text by a (float) cast; its value is not modelled. */
    | JFloatText(text: string)
    | JStr(s: string)
    | JList(items: seq<Json>)
    | JObj(fields: seq<(string, Json)>)

  /** A string-keyed PHP array, in insertion order. */
  type Fields = seq<(string, Json)>

  /** The two health endpoints: php/health.php (hardened for open_basedir) and the
      earlier health.php at the repository root. */
  datatype Variant = Hardened | Legacy

  /** The array a checker's performCheck() returns; `details` and `error` are the
      keys it may leave out or set to null. */
  datatype Performed = Performed(healthy: bool, status: string, details: Option<Fields>, error: Option<string>)

  /** One checker's outcome. Durations are abstract microsecond counts. */
  datatype CheckResult = CheckResult(
    healthy: bool,
    status: string,
    details: Fields,
    error: Option<string>,
    durationUs: Option<nat>)

  /** check(): runs the body and never lets a fault escape. A thrown fault becomes an
      unhealthy "error" result carrying the message and no details; otherwise the
      body's fields are copied, missing details defaulting to [] and a missing error
      to null. The duration is recorded on both paths. */
  function Guard(body: Outcome<Performed>, elapsedUs: nat): (r: CheckResult)
    ensures r.durationUs == Some(elapsedUs)
    ensures r.healthy <==> body.Returned? && body.value.healthy
    ensures body.Threw? ==> r.status == "error" && r.details == [] && r.error == Some(body.message)
    ensures body.Returned? ==> r.status == body.value.status && r.error == body.value.error
    ensures body.Returned? && body.value.details.Some? ==> r.details == body.value.details.value
    ensures body.Returned? && body.value.details.None? ==> r.details == []
  {
    match body
    case Returned(p) => CheckResult(p.healthy, p.status, p.details.GetOr([]), p.error, Some(elapsedUs))
    case Threw(msg) => CheckResult(false, "error", [], Some(msg), Some(elapsedUs))
  }

  /** round($duration * 1000, 2): microseconds to hundredths of a millisecond. */
  function DurationMs(us: nat): (h: int)
    ensures IsRounded(us, 10, h)
  {
    RoundDiv(us, 10)
  }

  /** toArray(): healthy and status always; details only when non-empty; error only
      when not null; duration_ms only when a duration was recorded. Which keys appear
      is stated by ToArrayKeys. */
  function ToArray(r: CheckResult): (a: Fields)
    ensures |a| >= 2 && a[0] == ("healthy", JBool(r.healthy)) && a[1] == ("status", JStr(r.status))
  {
    var base := [("healthy", JBool(r.healthy)), ("status", JStr(r.status))];
    var d := if |r.details| > 0 then [("details", JObj(r.details))] else [];
    var e := if r.error.Some? then [("error", JStr(r.error.value))] else [];
    var f := if r.durationUs.Some? then [("duration_ms", JFixed(DurationMs(r.durationUs.value)))] else [];
    base + d + e + f
  }

  function OptionalKey(present: bool, key: string): seq<string> {
    if present then [key] else []
  }

  /** The keys toArray() emits, in order. */
  lemma ToArrayKeyList(r: CheckResult)
    ensures OrderedMap.Keys(ToArray(r)) == ["healthy", "status"] + OptionalKey(|r.details| > 0, "details")
      + OptionalKey(r.error.Some?, "error") + OptionalKey(r.durationUs.Some?, "duration_ms")
  {
    var base := [("healthy", JBool(r.healthy)), ("status", JStr(r.status))];
    var d := if |r.details| > 0 then [("details", JObj(r.details))] else [];
    var e := if r.error.Some? then [("error", JStr(r.error.value))] else [];
    var f := if r.durationUs.Some? then [("duration_ms", JFixed(DurationMs(r.durationUs.value)))] else [];
    OrderedMap.KeysConcat(base, d);
    OrderedMap.KeysConcat(base + d, e);
    OrderedMap.KeysConcat(base + d + e, f);
    assert OrderedMap.Keys(base) == ["healthy", "status"];
    assert OrderedMap.Keys(d) == OptionalKey(|r.details| > 0, "details");
    assert OrderedMap.Keys(e) == OptionalKey(r.error.Some?, "error");
    assert OrderedMap.Keys(f) == OptionalKey(r.durationUs.Some?, "duration_ms");
    assert ToArray(r) == base + d + e + f;
  }

  /** The optional keys of toArray() appear exactly when their fields are set. */
  lemma ToArrayKeys(r: CheckResult)
    ensures "details" in OrderedMap.Keys(ToArray(r)) <==> |r.details| > 0
    ensures "error" in OrderedMap.Keys(ToArray(r)) <==> r.error.Some?
    ensures "duration_ms" in OrderedMap.Keys(ToArray(r)) <==> r.durationUs.Some?
  {
    ToArrayKeyList(r);
    var kd := OptionalKey(|r.details| > 0, "details");
    var ke := OptionalKey(r.error.Some?, "error");
    var kf := OptionalKey(r.durationUs.Some?, "duration_ms");
    var ks := ["healthy", "status"] + kd + ke + kf;
    assert "details" in ks <==> "details" in kd;
    assert "error" in ks <==> "error" in ke;
    assert "duration_ms" in ks <==> "duration_ms" in kf;
  }

  /** Reads an array of toArray()'s shape back into a result. */
  function FromArray(a: Fields): Option<CheckResult>
  {
    if |a| < 2 || a[0].0 != "healthy" || !a[0].1.JBool? || a[1].0 != "status" || !a[1].1.JStr? then None
    else
      var r0 := a[2..];
      var details := if |r0| > 0 && r0[0].0 == "details" && r0[0].1.JObj? then r0[0].1.fields else [];
      var r1 := if |r0| > 0 && r0[0].0 == "details" && r0[0].1.JObj? then r0[1..] else r0;
      var error := if |r1| > 0 && r1[0].0 == "error" && r1[0].1.JStr? then Some(r1[0].1.s) else None;
      var r2 := if |r1| > 0 && r1[0].0 == "error" && r1[0].1.JStr? then r1[1..] else r1;
      var duration: Option<nat> :=
        if |r2| > 0 && r2[0].0 == "duration_ms" && r2[0].1.JFixed? && r2[0].1.hundredths >= 0
        then Some(r2[0].1.hundredths * 10) else None;
      var r3 := if duration.Some? then r2[1..] else r2;
      if |r3| == 0 then Some(CheckResult(a[0].1.b, a[1].1.s, details, error, duration)) else None
  }

  /** Serialising a result and reading it back loses nothing except sub-10µs duration
      precision (duration_ms has two decimals). */
  lemma ToArrayRoundTrip(r: CheckResult)
    requires r.durationUs.None? || r.durationUs.value % 10 == 0
    ensures FromArray(ToArray(r)) == Some(r)
  {
    if r.durationUs.Some? {
      var us := r.durationUs.value;
      RoundedIsUnique(us, 10, DurationMs(us), us / 10);
    }
  }
}
