/** OpcacheCheck of both health files: healthy while the hit rate is at least 90%
    and memory usage below 90%, both rounded to two places before comparing. */
module Opcache {
  import opened Base
  import opened Rounding
  import opened Results
  import opened ByteFormat

  /** The fields of opcache_get_status(false) the check reads; each may be absent. */
  datatype OpcacheStatus = OpcacheStatus(
    usedMemory: Option<nat>,
    freeMemory: Option<nat>,
    wastedPercent: Option<real>,
    hits: Option<nat>,
    misses: Option<nat>,
    cachedScripts: Option<int>,
    maxCachedKeys: Option<int>,
    jitEnabled: Option<bool>,
    jitOn: Option<bool>,
    jitBufferSize: Option<int>,
    oomRestarts: Option<int>,
    hashRestarts: Option<int>,
    manualRestarts: Option<int>)

  /** Whether opcache_get_status exists, and if so whether it returned false or a status. */
  datatype OpcacheProbe = NoStatusFunction | Disabled | Enabled(status: OpcacheStatus)

  /** A rounded percentage of part in whole, the integer 0 when whole is 0. */
  function PercentOf(part: nat, whole: nat): (h: int)
    ensures whole == 0 ==> h == 0
    ensures whole > 0 ==> IsRounded(part * 10000, whole, h)
  {
    if whole > 0 then Percent(part, whole) else 0
  }

  function PercentJson(whole: nat, h: int): Json {
    if whole > 0 then JFixed(h) else JInt(0)
  }

  /** The decision on a status, stated on exact counts: some requests were served,
      the hit rate rounds to at least 90.00, and memory usage rounds below 90.00. */
  predicate HealthyStatus(used: nat, free: nat, hits: nat, misses: nat) {
    && hits + misses > 0
    && 20000 * hits >= 17999 * (hits + misses)
    && (used + free == 0 || 20000 * used < 17999 * (used + free))
  }

  /** performCheck() of OpcacheCheck. */
  function OpcacheCheck(p: OpcacheProbe): (r: Performed)
    ensures p.NoStatusFunction? ==>
      r == Performed(false, "unavailable", Some([]), Some("OPcache extension not available"))
    ensures p.Disabled? ==> r == Performed(false, "disabled", Some([]), Some("OPcache is disabled"))
    ensures r.healthy <==> p.Enabled? && HealthyStatus(
      p.status.usedMemory.GetOr(0), p.status.freeMemory.GetOr(0), p.status.hits.GetOr(0), p.status.misses.GetOr(0))
    ensures p.Enabled? ==> r.error.None? && r.status == (if r.healthy then "healthy" else "warning")
  {
    match p
    case NoStatusFunction => Performed(false, "unavailable", Some([]), Some("OPcache extension not available"))
    case Disabled => Performed(false, "disabled", Some([]), Some("OPcache is disabled"))
    case Enabled(s) =>
      var used := s.usedMemory.GetOr(0);
      var free := s.freeMemory.GetOr(0);
      var memoryPercent := PercentOf(used, used + free);
      var hits := s.hits.GetOr(0);
      var misses := s.misses.GetOr(0);
      var hitRate := PercentOf(hits, hits + misses);
      var healthy := hitRate >= 9000 && memoryPercent < 9000;
      assert healthy <==> HealthyStatus(used, free, hits, misses) by {
        if hits + misses > 0 {
          PercentBelow(hits, hits + misses, 9000);
        }
        if used + free > 0 {
          PercentBelow(used, used + free, 9000);
        }
      }
      Performed(
        healthy,
        if healthy then "healthy" else "warning",
        Some([
          ("enabled", JBool(true)),
          ("memory", JObj([
            ("used", JStr(FormatBytes(used))),
            ("free", JStr(FormatBytes(free))),
            ("usage_percent", PercentJson(used + free, memoryPercent)),
            ("wasted_percent", JFixed(RoundReal(s.wastedPercent.GetOr(0.0))))])),
          ("statistics", JObj([
            ("hits", JInt(hits)),
            ("misses", JInt(misses)),
            ("hit_rate", PercentJson(hits + misses, hitRate)),
            ("cached_scripts", JInt(s.cachedScripts.GetOr(0))),
            ("max_cached_keys", JInt(s.maxCachedKeys.GetOr(0)))])),
          ("jit", JObj([
            ("enabled", JBool(s.jitEnabled.GetOr(false))),
            ("on", JBool(s.jitOn.GetOr(false))),
            ("buffer_size", JStr(FormatBytes(s.jitBufferSize.GetOr(0))))])),
          ("restarts", JObj([
            ("oom", JInt(s.oomRestarts.GetOr(0))),
            ("hash", JInt(s.hashRestarts.GetOr(0))),
            ("manual", JInt(s.manualRestarts.GetOr(0)))]))
        ]),
        None)
  }

  function StatusWith(used: nat, free: nat, hits: nat, misses: nat): OpcacheStatus {
    OpcacheStatus(Some(used), Some(free), None, Some(hits), Some(misses), None, None, None, None, None, None, None, None)
  }

  /** 90 hits and 10 misses is a hit rate of exactly 90.00, which passes (the limit
      is inclusive); with memory half used the check is healthy. */
  lemma NinetyPercentHitRateIsHealthy()
    ensures PercentOf(90, 100) == 9000
    ensures OpcacheCheck(Enabled(StatusWith(50, 50, 90, 10))).healthy
  {
  }

  /** Rounding happens before comparing: 17999 hits in 20000 requests is 89.995%,
      which rounds to 90.00 and passes. */
  lemma HitRateRoundsBeforeComparing()
    ensures PercentOf(17999, 20000) == 9000
    ensures OpcacheCheck(Enabled(StatusWith(0, 0, 17999, 2001))).healthy
  {
  }

  /** Before any request is served the hit rate is 0 and the check only warns. */
  lemma NoRequestsYetWarns(used: nat, free: nat)
    ensures OpcacheCheck(Enabled(StatusWith(used, free, 0, 0))).status == "warning"
  {
  }
}
