/** The demo landing page, php/index.php: a production gate, three component checks
    (PHP, OPcache, Redis) behind a fault-containing wrapper, and a dashboard that runs
    every added check and is healthy only when all of them are. Unlike the health
    endpoints it has no thresholds and no notion of a critical check. */
module Dashboard {
  import opened Base
  import opened Decimal
  import opened PhpLang
  import opened Rounding
  import opened Results
  import opened ByteFormat
  import OrderedMap
  import Opcache
  import Redis

  /** The value object every component check returns. */
  datatype StatusResult = StatusResult(healthy: bool, message: string, details: Fields)

  /** What the page answers: the 404 of the production gate, or the dashboard. */
  datatype Page =
    | Blocked(code: nat, body: string)
    | Rendered(overallHealthy: bool, checks: seq<(string, StatusResult)>)

  const NOT_FOUND_CODE: nat := 404
  const NOT_FOUND_BODY: string := "Not Found Walmir"

  /** The page is refused exactly when APP_ENV is the string "production" and
      DEMO_MODE is unset, "" or "0". */
  predicate Gated(appEnv: Option<string>, demoMode: Option<string>) {
    appEnv == Some("production") && Falsy(demoMode)
  }

  /** AbstractComponentCheck::check(): a fault escaping the body becomes an unhealthy
      result whose message is "Error: " followed by the fault's message, with no
      details; a returned result passes through unchanged. */
  function Check(body: Outcome<StatusResult>): (r: StatusResult)
    ensures r.healthy <==> body.Returned? && body.value.healthy
    ensures body.Returned? ==> r == body.value
    ensures body.Threw? ==> (r.details == [] && |r.message| == 7 + |body.message|
      && r.message[..7] == "Error: " && r.message[7..] == body.message)
  {
    match body
    case Returned(s) => s
    case Threw(m) => StatusResult(false, "Error: " + m, [])
  }

  /** What PhpCheck reads from the runtime. `memoryLimit` and `maxExecutionTime` are
      ini_get() results, None standing for its `false`. */
  datatype PhpInfo = PhpInfo(
    version: string,
    sapi: string,
    extensionCount: nat,
    memoryLimit: Option<string>,
    maxExecutionTime: Option<string>)

  /** PhpCheck::performCheck(): reports the runtime and is healthy whatever it finds. */
  function PhpCheck(info: PhpInfo): (r: StatusResult)
    ensures r.healthy
    ensures |r.message| >= 4 + |info.version| && r.message[..4 + |info.version|] == "PHP " + info.version
    ensures OrderedMap.Keys(r.details) == ["version", "sapi", "extensions_count", "memory_limit", "max_execution_time"]
    ensures OrderedMap.Get(r.details, "extensions_count") == Some(JInt(info.extensionCount))
  {
    var text := "PHP " + info.version;
    var r := StatusResult(true, text + " with " + NatToString(info.extensionCount) + " extensions", [
      ("version", JStr(info.version)),
      ("sapi", JStr(info.sapi)),
      ("extensions_count", JInt(info.extensionCount)),
      ("memory_limit", if info.memoryLimit.Some? then JStr(info.memoryLimit.value) else JBool(false)),
      ("max_execution_time", JStr(info.maxExecutionTime.GetOr("") + "s"))
    ]);
    assert r.message[..|text|] == text;
    r
  }

  /** round(used / (used + free) * 100, 1) in tenths of a percent; the integer 0 when
      OPcache reports no memory at all. */
  function UsageTenths(used: nat, free: nat): (t: nat)
    ensures used + free == 0 ==> t == 0
    ensures used + free > 0 ==> IsRounded(used * 1000, used + free, t) && t <= 1000
  {
    if used + free > 0 then
      var t := RoundDiv(used * 1000, used + free);
      assert t <= 1000 by {
        if t > 1000 {
          MulMonotone(1001, t, used + free);
        }
      }
      t
    else 0
  }

  /** The usage figure as PHP prints it inside the message. */
  function UsageText(used: nat, free: nat): string {
    HundredthsToString(10 * UsageTenths(used, free))
  }

  /** OpcacheCheck::performCheck() of the dashboard: unhealthy only when OPcache is
      missing or disabled; an enabled cache is healthy however full it is. */
  function OpcacheCheck(p: Opcache.OpcacheProbe): (r: StatusResult)
    ensures r.healthy <==> p.Enabled?
    ensures p.NoStatusFunction? ==> r == StatusResult(false, "OPcache extension not available", [])
    ensures p.Disabled? ==> r == StatusResult(false, "OPcache is disabled", [])
    ensures p.Enabled? ==> OrderedMap.Keys(r.details) == ["memory_used", "cached_scripts", "jit_enabled"]
  {
    match p
    case NoStatusFunction => StatusResult(false, "OPcache extension not available", [])
    case Disabled => StatusResult(false, "OPcache is disabled", [])
    case Enabled(s) =>
      var used := s.usedMemory.GetOr(0);
      var free := s.freeMemory.GetOr(0);
      StatusResult(true, "OPcache enabled (" + UsageText(used, free) + "% memory used)", [
        ("memory_used", JStr(FormatBytes(used))),
        ("cached_scripts", JInt(s.cachedScripts.GetOr(0))),
        ("jit_enabled", JStr(if s.jitEnabled.GetOr(false) then "Yes" else "No"))
      ])
  }

  /** The usage printed in the message reads back as the rounded percentage of used
      memory, to one decimal place. */
  lemma OpcacheMessageReadsBack(s: Opcache.OpcacheStatus)
    ensures var used := s.usedMemory.GetOr(0);
      var free := s.freeMemory.GetOr(0);
      exists text: string, t: nat ::
        OpcacheCheck(Opcache.Enabled(s)).message == "OPcache enabled (" + text + "% memory used)"
        && ParseHundredths(text) == Some(10 * t)
        && (used + free > 0 ==> IsRounded(used * 1000, used + free, t))
        && (used + free == 0 ==> t == 0)
  {
    var used := s.usedMemory.GetOr(0);
    var free := s.freeMemory.GetOr(0);
    var t := UsageTenths(used, free);
    HundredthsRoundTrip(10 * t);
    assert ParseHundredths(UsageText(used, free)) == Some(10 * t);
  }

  /** The dashboard applies none of the health endpoint's thresholds: a cache the
      health check reports as a warning (full, and no request served yet) shows as
      healthy here. */
  lemma OpcacheThresholdsIgnored()
    ensures var s := Opcache.StatusWith(99, 1, 0, 0);
      OpcacheCheck(Opcache.Enabled(s)).healthy && !Opcache.OpcacheCheck(Opcache.Enabled(s)).healthy
  {
  }

  /** getRedisHost(): REDIS_HOST, or 127.0.0.1 when it is unset, "" or "0". The
      docker-compose name "redis" falls back to 127.0.0.1 when resolving it gives the
      name back unchanged, which is how gethostbyname() reports failure; `lookup` is
      what gethostbyname("redis") returns. */
  function RedisHost(env: Option<string>, lookup: string): (h: string)
    ensures Falsy(env) ==> h == Redis.LOCALHOST
    ensures !Falsy(env) && env.value == "redis" && lookup == "redis" ==> h == Redis.LOCALHOST
    ensures !Falsy(env) && !(env.value == "redis" && lookup == "redis") ==> h == env.value
  {
    var host := if Falsy(env) then Redis.LOCALHOST else env.value;
    if host == "redis" && lookup == host then Redis.LOCALHOST else host
  }

  /** A resolvable or non-default host is used as configured. */
  lemma ResolvedHostIsKept(env: Option<string>, lookup: string)
    requires !Falsy(env)
    ensures RedisHost(env, lookup) == Redis.LOCALHOST <==>
      env.value == Redis.LOCALHOST || (env.value == "redis" && lookup == "redis")
  {
  }

  const SECONDS_PER_MINUTE: nat := 60
  const SECONDS_PER_HOUR: nat := 3600
  const SECONDS_PER_DAY: nat := 86400

  /** The unit formatUptime() picks for a duration, and its length in seconds. */
  function UptimeUnit(seconds: int): (u: (char, nat))
    ensures u.1 > 0
  {
    if seconds < SECONDS_PER_MINUTE then ('s', 1)
    else if seconds < SECONDS_PER_HOUR then ('m', SECONDS_PER_MINUTE)
    else if seconds < SECONDS_PER_DAY then ('h', SECONDS_PER_HOUR)
    else ('d', SECONDS_PER_DAY)
  }

  /** formatUptime(): the duration in whole units of the largest of seconds, minutes,
      hours and days not exceeding it, followed by the unit letter. */
  function FormatUptime(seconds: int): (t: string)
    ensures 2 <= |t| && t[|t| - 1] in "smhd"
    ensures seconds < 0 ==> t == IntToString(seconds) + "s"
  {
    var (unit, size) := UptimeUnit(seconds);
    if seconds < SECONDS_PER_MINUTE then IntToString(seconds) + [unit]
    else NatToString(seconds / size) + [unit]
  }

  /** Reads "<digits><unit>" back into the count and the unit letter. */
  function ParseUptime(t: string): Option<(nat, char)> {
    if |t| >= 2 && AllDigits(t[..|t| - 1]) then Some((DigitsValue(t[..|t| - 1]), t[|t| - 1])) else None
  }

  function UnitSeconds(u: char): nat {
    match u
    case 'm' => SECONDS_PER_MINUTE
    case 'h' => SECONDS_PER_HOUR
    case 'd' => SECONDS_PER_DAY
    case _ => 1
  }

  /** A non-negative uptime prints as n whole units u, where u is the largest unit
      not exceeding it (seconds below a minute) and n units fit in the duration with
      less than one unit to spare. */
  lemma FormatUptimeReadsBack(seconds: nat)
    ensures ParseUptime(FormatUptime(seconds)).Some?
    ensures var (n, u) := ParseUptime(FormatUptime(seconds)).value;
      && n * UnitSeconds(u) <= seconds < (n + 1) * UnitSeconds(u)
      && (u == 's' <==> seconds < SECONDS_PER_MINUTE)
      && (u == 'm' <==> SECONDS_PER_MINUTE <= seconds < SECONDS_PER_HOUR)
      && (u == 'h' <==> SECONDS_PER_HOUR <= seconds < SECONDS_PER_DAY)
      && (u == 'd' <==> SECONDS_PER_DAY <= seconds)
  {
    var (unit, size) := UptimeUnit(seconds);
    var n: nat := seconds / size;
    var t := FormatUptime(seconds);
    assert t == NatToString(n) + [unit];
    assert t[..|t| - 1] == NatToString(n);
    NatToStringRoundTrip(n);
    assert UnitSeconds(unit) == size;
    WholeUnits(seconds, size);
  }

  /** n = a / d is the number of whole d's in a. */
  lemma WholeUnits(a: nat, d: nat)
    requires d > 0
    ensures (a / d) * d <= a < (a / d + 1) * d
  {
  }

  /** The Redis port the dashboard always uses. */
  const DASHBOARD_PORT: Redis.Port := Redis.PortNumber(Redis.DEFAULT_PORT)

  /** The result performCheck() returns (or its catch returns) for each way the
      client conversation can end. Every fault raised inside the try block becomes
      "Redis error: " and its message. */
  function RedisReport(stop: Redis.Stop, host: string): (r: StatusResult)
    ensures r.healthy <==> stop.Answered?
    ensures stop.Refused? ==> r == StatusResult(false, "Cannot connect to Redis server", [])
    ensures stop.Rejected? ==> !r.healthy && r.details == [("host", JStr(host))]
    ensures stop.BadPong? ==> r == StatusResult(false, "Redis ping failed", [])
    ensures Redis.Raised(stop) ==> r == StatusResult(false, "Redis error: " + stop.message, [])
  {
    match stop
    case ConnectRaised(m) => StatusResult(false, "Redis error: " + m, [])
    case AuthRaised(m) => StatusResult(false, "Redis error: " + m, [])
    case PingRaised(m) => StatusResult(false, "Redis error: " + m, [])
    case InfoRaised(m) => StatusResult(false, "Redis error: " + m, [])
    case Refused => StatusResult(false, "Cannot connect to Redis server", [])
    case Rejected =>
      StatusResult(false, "Redis authentication failed (NOAUTH). Check REDIS_PASSWORD.", [("host", JStr(host))])
    case BadPong => StatusResult(false, "Redis ping failed", [])
    case Answered(info) =>
      var version := Redis.Lookup(info, "redis_version", "unknown");
      StatusResult(true, "Redis " + version + " connected", [
        ("version", JStr(version)),
        ("uptime", JStr(FormatUptime(IntCast(Redis.Lookup(info, "uptime_in_seconds", "0"))))),
        ("memory", JStr(Redis.Lookup(info, "used_memory_human", "unknown")))
      ])
  }

  const REDIS_NOT_INSTALLED: StatusResult := StatusResult(false, "Redis extension not installed", [])

  /** RedisCheck::performCheck() of the dashboard: connects to the resolved host on
      port 6379, authenticates only with a configured password, pings and reads the
      server info, and closes the client on every path. Latency is not judged. */
  function RedisCheck(loaded: bool, cfg: Redis.Settings, lookup: string, s: Redis.Server): (run: Redis.Run<StatusResult>)
    ensures !loaded ==> run == Redis.Run(Returned(REDIS_NOT_INSTALLED), [])
    ensures loaded ==> (0 < |run.calls| && run.calls[|run.calls| - 1] == Redis.Close
      && Redis.Close !in run.calls[..|run.calls| - 1])
    ensures loaded ==> run.calls[0] == Redis.Connect(RedisHost(cfg.host, lookup), DASHBOARD_PORT)
    ensures loaded && s.close.Ok? ==> (run.outcome.Returned? && (run.outcome.value.healthy <==>
      s.connect == Redis.Ok(true)
      && (Falsy(cfg.password) || s.auth == Redis.Ok(true))
      && (s.ping == Redis.Ok(Redis.PongTrue) || s.ping == Redis.Ok(Redis.PongText("+PONG")))
      && s.info.Ok?))
  {
    if !loaded then Redis.Run(Returned(REDIS_NOT_INSTALLED), [])
    else
      var host := RedisHost(cfg.host, lookup);
      var (stop, calls) := Redis.Session(host, DASHBOARD_PORT, Redis.AuthPassword(cfg.password), s);
      var run := Redis.Finish(Returned(RedisReport(stop, host)), calls, s);
      assert run.calls[..|run.calls| - 1] == calls;
      run
  }

  /** A slow server fails the health endpoint's check but not the dashboard's. */
  lemma SlowPingIsHealthyHere(cfg: Redis.Settings, lookup: string, s: Redis.Server)
    requires Falsy(cfg.password) && Falsy(cfg.port)
    requires s.connect == Redis.Ok(true) && s.ping == Redis.Ok(Redis.PongTrue) && s.info.Ok? && s.close.Ok?
    requires s.pingUs >= Redis.MAX_PING_US
    ensures Check(RedisCheck(true, cfg, lookup, s).outcome).healthy
    ensures !Guard(Redis.HardenedProbe(true, cfg, s).outcome, 0).healthy
  {
  }

  /** An unexpected pong is reported as "Redis ping failed" rather than raised, and
      the client is still closed. */
  lemma BadPongIsReported(cfg: Redis.Settings, lookup: string, s: Redis.Server)
    requires Falsy(cfg.password)
    requires s.connect == Redis.Ok(true) && s.ping == Redis.Ok(Redis.PongFalse) && s.close.Ok?
    ensures var run := RedisCheck(true, cfg, lookup, s);
      run.outcome == Returned(StatusResult(false, "Redis ping failed", []))
      && run.calls == [Redis.Connect(RedisHost(cfg.host, lookup), DASHBOARD_PORT), Redis.Ping, Redis.Close]
  {
  }

  /** A fault raised by close() in the finally block escapes performCheck() and is
      reported by check() with the "Error: " prefix. */
  lemma CloseFaultReachesWrapper(cfg: Redis.Settings, lookup: string, s: Redis.Server)
    requires s.close.Raises?
    ensures Check(RedisCheck(true, cfg, lookup, s).outcome) == StatusResult(false, "Error: " + s.close.message, [])
  {
  }

  /** A registered component: its name and what its performCheck() ends with. */
  datatype Component = Component(name: string, body: Outcome<StatusResult>)

  /** addCheck(): appends, so a component added twice runs twice. */
  function AddCheck(checks: seq<Component>, c: Component): (r: seq<Component>)
    ensures |r| == |checks| + 1 && r[|checks|] == c
    ensures forall i :: 0 <= i < |checks| ==> r[i] == checks[i]
  {
    checks + [c]
  }

  /** The `$results` array after running `checks` in order: each result is stored
      under its component's name, a later name overwriting an earlier one. */
  function ResultsOf(checks: seq<Component>): (m: seq<(string, StatusResult)>)
    ensures OrderedMap.Valid(m)
    decreases |checks|
  {
    if |checks| == 0 then []
    else
      var m := ResultsOf(checks[..|checks| - 1]);
      var c := checks[|checks| - 1];
      OrderedMap.PutValid(m, c.name, Check(c.body));
      OrderedMap.Put(m, c.name, Check(c.body))
  }

  /** `overall_healthy`: every check that ran was healthy, including ones whose
      result a later check of the same name replaced. */
  predicate AllHealthy(checks: seq<Component>) {
    forall i :: 0 <= i < |checks| ==> Check(checks[i].body).healthy
  }

  /** StatusDashboard::runAll(). */
  method RunAll(checks: seq<Component>) returns (overall: bool, results: seq<(string, StatusResult)>)
    ensures overall <==> AllHealthy(checks)
    ensures results == ResultsOf(checks)
  {
    results := [];
    overall := true;
    var i := 0;
    while i < |checks|
      invariant 0 <= i <= |checks|
      invariant results == ResultsOf(checks[..i])
      invariant overall <==> forall j :: 0 <= j < i ==> Check(checks[j].body).healthy
    {
      var c := checks[i];
      var result := Check(c.body);
      assert checks[..i + 1][..i] == checks[..i];
      results := OrderedMap.Put(results, c.name, result);
      if !result.healthy {
        overall := false;
      }
      i := i + 1;
    }
    assert checks[..i] == checks;
  }

  /** The effect of one more check on `$results[$name]`. */
  lemma ResultsStep(init: seq<Component>, last: Component, name: string)
    ensures OrderedMap.Get(ResultsOf(init + [last]), name) ==
      if last.name == name then Some(Check(last.body)) else OrderedMap.Get(ResultsOf(init), name)
  {
    var checks := init + [last];
    assert checks[..|checks| - 1] == init;
    OrderedMap.PutGet(ResultsOf(init), last.name, Check(last.body), name);
  }

  /** A name has a result exactly when some added check carries it, so every added
      check is shown. */
  lemma {:induction false} ResultsPresent(checks: seq<Component>, name: string)
    ensures OrderedMap.Get(ResultsOf(checks), name).Some? <==> exists i :: 0 <= i < |checks| && checks[i].name == name
    decreases |checks|
  {
    if |checks| > 0 {
      var init := checks[..|checks| - 1];
      var last := checks[|checks| - 1];
      ResultsPresent(init, name);
      ResultsStep(init, last, name);
      assert checks == init + [last];
      if exists i :: 0 <= i < |init| && init[i].name == name {
        var i :| 0 <= i < |init| && init[i].name == name;
        assert checks[i].name == name;
      }
      if exists i :: 0 <= i < |checks| && checks[i].name == name {
        var i :| 0 <= i < |checks| && checks[i].name == name;
        if i < |init| {
          assert init[i].name == name;
        }
      }
    }
  }

  /** The result shown under a name is that of the last check carrying it. */
  lemma {:induction false} ResultsLastWins(checks: seq<Component>, name: string, i: int)
    requires 0 <= i < |checks| && checks[i].name == name
    requires forall j :: i < j < |checks| ==> checks[j].name != name
    ensures OrderedMap.Get(ResultsOf(checks), name) == Some(Check(checks[i].body))
    decreases |checks|
  {
    var init := checks[..|checks| - 1];
    var last := checks[|checks| - 1];
    assert checks == init + [last];
    ResultsStep(init, last, name);
    if i < |checks| - 1 {
      assert init[i] == checks[i];
      assert forall j :: i < j < |init| ==> init[j] == checks[j];
      ResultsLastWins(init, name, i);
    }
  }

  /** With distinct names the results list every check once, in the order added. */
  lemma {:induction false} ResultsOfDistinctNames(checks: seq<Component>)
    requires forall i, j :: 0 <= i < j < |checks| ==> checks[i].name != checks[j].name
    ensures |ResultsOf(checks)| == |checks|
    ensures forall i :: 0 <= i < |checks| ==> ResultsOf(checks)[i] == (checks[i].name, Check(checks[i].body))
    decreases |checks|
  {
    if |checks| > 0 {
      var init := checks[..|checks| - 1];
      var last := checks[|checks| - 1];
      assert forall i, j :: 0 <= i < j < |init| ==> init[i].name != init[j].name by {
        forall i, j | 0 <= i < j < |init| ensures init[i].name != init[j].name {
          assert init[i] == checks[i] && init[j] == checks[j];
        }
      }
      ResultsOfDistinctNames(init);
      var m := ResultsOf(init);
      forall j | 0 <= j < |m| ensures m[j].0 != last.name {
        assert m[j].0 == init[j].name == checks[j].name;
      }
      OrderedMap.PutAppends(m, last.name, Check(last.body));
      assert checks[..|checks| - 1] == init;
    }
  }

  /** The overall verdict can disagree with the cards: when a failing check is
      followed by a passing one of the same name, only the passing result is listed
      but the page still reports issues. */
  lemma OverwrittenFailureStillCounts(name: string, bad: StatusResult, good: StatusResult)
    requires !bad.healthy && good.healthy
    ensures var checks := [Component(name, Returned(bad)), Component(name, Returned(good))];
      ResultsOf(checks) == [(name, good)] && !AllHealthy(checks)
  {
    var first := [Component(name, Returned(bad))];
    var checks := first + [Component(name, Returned(good))];
    assert first[..0] == [];
    assert ResultsOf(first) == [(name, bad)];
    assert checks[..1] == first;
    assert ResultsOf(checks) == OrderedMap.Put([(name, bad)], name, good);
  }

  /** Everything the page reads from its environment. */
  datatype PageEnv = PageEnv(
    appEnv: Option<string>,
    demoMode: Option<string>,
    php: PhpInfo,
    opcache: Opcache.OpcacheProbe,
    redisLoaded: bool,
    redis: Redis.Settings,
    redisLookup: string,
    server: Redis.Server)

  /** The dashboard as the page builds it: PHP, then OPcache, then Redis. */
  function StandardChecks(env: PageEnv): (checks: seq<Component>)
    ensures |checks| == 3
  {
    AddCheck(AddCheck(AddCheck([],
      Component("PHP", Returned(PhpCheck(env.php)))),
      Component("OPcache", Returned(OpcacheCheck(env.opcache)))),
      Component("Redis", RedisCheck(env.redisLoaded, env.redis, env.redisLookup, env.server).outcome))
  }

  /** The page: the production gate, then the dashboard's verdict and results. */
  method Serve(env: PageEnv) returns (page: Page)
    ensures page.Blocked? <==> Gated(env.appEnv, env.demoMode)
    ensures page.Blocked? ==> page.code == NOT_FOUND_CODE && page.body == NOT_FOUND_BODY
    ensures page.Rendered? ==> (page.overallHealthy <==> AllHealthy(StandardChecks(env)))
    ensures page.Rendered? ==> page.checks == ResultsOf(StandardChecks(env))
  {
    if Gated(env.appEnv, env.demoMode) {
      return Blocked(NOT_FOUND_CODE, NOT_FOUND_BODY);
    }
    var overall, results := RunAll(StandardChecks(env));
    page := Rendered(overall, results);
  }

  /** DEMO_MODE set to anything but "" or "0" opens the page in production, and any
      APP_ENV other than exactly "production" (including "Production") never
      closes it. */
  lemma GateOpenings(appEnv: Option<string>, demoMode: Option<string>)
    ensures !Falsy(demoMode) ==> !Gated(appEnv, demoMode)
    ensures !Gated(Some("Production"), demoMode) && !Gated(None, demoMode)
    ensures Gated(Some("production"), Some("0"))
  {
  }

  /** Three checks with distinct names: each is listed once, in order, and the page is
      healthy exactly when all three are. */
  lemma ThreeChecks(a: Component, b: Component, c: Component)
    requires a.name != b.name && a.name != c.name && b.name != c.name
    ensures OrderedMap.Keys(ResultsOf([a, b, c])) == [a.name, b.name, c.name]
    ensures AllHealthy([a, b, c]) <==> Check(a.body).healthy && Check(b.body).healthy && Check(c.body).healthy
  {
    var checks := [a, b, c];
    ResultsOfDistinctNames(checks);
    var m := ResultsOf(checks);
    assert OrderedMap.Keys(m) == [m[0].0, m[1].0, m[2].0];
  }

  /** The three checks of the page, one by one. */
  lemma StandardChecksAre(env: PageEnv)
    ensures StandardChecks(env) == [
      Component("PHP", Returned(PhpCheck(env.php))),
      Component("OPcache", Returned(OpcacheCheck(env.opcache))),
      Component("Redis", RedisCheck(env.redisLoaded, env.redis, env.redisLookup, env.server).outcome)]
  {
  }

  /** The Redis card is healthy exactly when the conversation succeeds. */
  lemma RedisCardVerdict(env: PageEnv)
    requires env.server.close.Ok?
    ensures Check(RedisCheck(env.redisLoaded, env.redis, env.redisLookup, env.server).outcome).healthy <==>
      env.redisLoaded
      && env.server.connect == Redis.Ok(true)
      && (Falsy(env.redis.password) || env.server.auth == Redis.Ok(true))
      && (env.server.ping == Redis.Ok(Redis.PongTrue) || env.server.ping == Redis.Ok(Redis.PongText("+PONG")))
      && env.server.info.Ok?
  {
  }

  /** The standard page lists PHP, OPcache and Redis, and is healthy exactly when
      OPcache is enabled and the Redis conversation succeeds: PHP never fails. */
  lemma StandardVerdict(env: PageEnv)
    requires env.server.close.Ok?
    ensures OrderedMap.Keys(ResultsOf(StandardChecks(env))) == ["PHP", "OPcache", "Redis"]
    ensures AllHealthy(StandardChecks(env)) <==>
      env.opcache.Enabled?
      && env.redisLoaded
      && env.server.connect == Redis.Ok(true)
      && (Falsy(env.redis.password) || env.server.auth == Redis.Ok(true))
      && (env.server.ping == Redis.Ok(Redis.PongTrue) || env.server.ping == Redis.Ok(Redis.PongText("+PONG")))
      && env.server.info.Ok?
  {
    StandardChecksAre(env);
    var checks := StandardChecks(env);
    ThreeChecks(checks[0], checks[1], checks[2]);
    assert checks == [checks[0], checks[1], checks[2]];
    RedisCardVerdict(env);
  }
}
