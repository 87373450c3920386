/** HealthCheckManager of both health files and the script around it: checkers are
    registered by name, run in registration order through check(), and only
    critical checkers decide the overall status and the HTTP code. */
module Manager {
  import opened Base
  import opened Results
  import opened PhpLang
  import OrderedMap
  import PhpRuntime
  import Extensions
  import Opcache
  import Redis
  import SystemResources
  import Application

  /** The six checkers the script registers. */
  datatype Kind = Runtime | ExtensionSet | OpcacheState | RedisServer | SystemLoad | AppDirectories

  /** getName() */
  function Name(k: Kind): (n: string)
    ensures n != ""
  {
    match k
    case Runtime => "php"
    case ExtensionSet => "php_extensions"
    case OpcacheState => "opcache"
    case RedisServer => "redis"
    case SystemLoad => "system"
    case AppDirectories => "application"
  }

  /** isCritical(): the base class makes checkers critical and every checker but the
      PHP runtime one opts out. */
  predicate IsCritical(k: Kind) {
    k == Runtime
  }

  /** Everything the checkers read from the host, and how long each check() call
      takes in microseconds. */
  datatype Host = Host(
    runtime: PhpRuntime.RuntimeProbe,
    extensions: seq<string>,
    opcache: Opcache.OpcacheProbe,
    redisLoaded: bool,
    redisSettings: Redis.Settings,
    redisServer: Redis.Server,
    system: SystemResources.SystemProbe,
    app: Application.AppEnv,
    elapsedUs: Kind -> nat)

  /** performCheck() of one checker, as the files are written: the hardened Redis
      check passes REDIS_PORT to connect() as a string and the system check passes
      the disk figures to the formatter as floats. */
  function Perform(v: Variant, k: Kind, h: Host): (r: Outcome<Performed>)
    ensures k == SystemLoad ==> r == SystemResources.CheckAsWritten(v, h.system)
  {
    match k
    case Runtime => PhpRuntime.RuntimeCheck(v, h.runtime)
    case ExtensionSet => Returned(Extensions.ExtensionsCheck(h.extensions))
    case OpcacheState => Returned(Opcache.OpcacheCheck(h.opcache))
    case RedisServer =>
      if v == Hardened then Redis.HardenedProbeAsWritten(h.redisLoaded, h.redisSettings, h.redisServer).outcome
      else Redis.LegacyProbe(h.redisLoaded, h.redisServer).outcome
    case SystemLoad => SystemResources.CheckAsWritten(v, h.system)
    case AppDirectories => Returned(Application.AppCheck(v, h.app))
  }

  /** performCheck() with the port cast to int and the disk figures cast to int. */
  function PerformCorrected(v: Variant, k: Kind, h: Host): Outcome<Performed> {
    match k
    case RedisServer =>
      if v == Hardened then Redis.HardenedProbe(h.redisLoaded, h.redisSettings, h.redisServer).outcome
      else Perform(v, k, h)
    case SystemLoad => SystemResources.Check(v, h.system)
    case _ => Perform(v, k, h)
  }

  /** The two defects are the only difference between the files and the corrected
      checks: the system check differs only where it raises, which is exactly when a
      disk figure is a non-zero amount, and the Redis check only when REDIS_PORT is
      set in the hardened file. */
  lemma PerformDiffersOnlyAtDefects(v: Variant, k: Kind, h: Host)
    ensures k != SystemLoad && !(v == Hardened && k == RedisServer) ==> Perform(v, k, h) == PerformCorrected(v, k, h)
    ensures k == SystemLoad ==> (Perform(v, k, h).Threw? <==>
      (h.system.diskTotal.Some? && h.system.diskTotal.value != 0) || (h.system.diskFree.Some? && h.system.diskFree.value != 0))
    ensures k == SystemLoad && Perform(v, k, h).Returned? ==> Perform(v, k, h) == PerformCorrected(v, k, h)
    ensures k == RedisServer && Falsy(h.redisSettings.port) ==> Perform(v, k, h) == PerformCorrected(v, k, h)
  {
    if k == SystemLoad {
      assert Perform(v, k, h) == SystemResources.CheckAsWritten(v, h.system);
      SystemDispatchCorrected(v, h);
      SystemResources.CheckAsWrittenAgrees(v, h.system);
    } else if k == RedisServer && v == Hardened {
      RedisDispatch(h);
    }
  }

  /** With the defects corrected, the system checker's body is the corrected check. */
  lemma SystemDispatchCorrected(v: Variant, h: Host)
    ensures PerformCorrected(v, SystemLoad, h) == SystemResources.Check(v, h.system)
  {
  }

  /** The hardened Redis checker's body, as written and corrected. */
  lemma RedisDispatch(h: Host)
    ensures Perform(Hardened, RedisServer, h) ==
      Redis.HardenedProbeAsWritten(h.redisLoaded, h.redisSettings, h.redisServer).outcome
    ensures PerformCorrected(Hardened, RedisServer, h) ==
      Redis.HardenedProbe(h.redisLoaded, h.redisSettings, h.redisServer).outcome
  {
  }

  /** As written, a host whose disk size can be read reports the system checker as an
      "error"; the checker is not critical, so the HTTP code does not change. */
  lemma ReadableDiskFailsSystemEntry(v: Variant, h: Host)
    requires h.system.diskTotal.Some? && h.system.diskTotal.value > 0
    ensures RunChecker(v, SystemLoad, h).status == "error" && !RunChecker(v, SystemLoad, h).healthy
    ensures RunChecker(v, SystemLoad, h).error == Some(SystemResources.FormatterTypeError(v))
    ensures !IsCritical(SystemLoad)
  {
    assert Perform(v, SystemLoad, h) == SystemResources.CheckAsWritten(v, h.system);
    SystemResources.ReadableDiskReportsError(v, h.system, h.elapsedUs(SystemLoad));
  }

  /** As written, a set REDIS_PORT makes the hardened Redis checker an "error" with
      the TypeError, whatever the server would answer, provided close() succeeds. */
  lemma SetPortFailsRedisEntry(h: Host)
    requires h.redisLoaded && !Falsy(h.redisSettings.port) && h.redisServer.close.Ok?
    ensures RunChecker(Hardened, RedisServer, h).status == "error" && !RunChecker(Hardened, RedisServer, h).healthy
    ensures RunChecker(Hardened, RedisServer, h).error == Some(Redis.PORT_TYPE_ERROR)
  {
  }

  /** check() of one checker: the body's outcome passed through the fault wrapper. */
  function RunChecker(v: Variant, k: Kind, h: Host): (r: CheckResult)
    ensures r.durationUs == Some(h.elapsedUs(k))
    ensures r.healthy ==> Perform(v, k, h).Returned?
  {
    Guard(Perform(v, k, h), h.elapsedUs(k))
  }

  /** The registry: checkers keyed by name, in registration order. */
  type Registry = seq<(string, Kind)>

  /** addChecker(): `$this->checkers[$checker->getName()] = $checker`. */
  function AddChecker(reg: Registry, k: Kind): Registry {
    OrderedMap.Put(reg, Name(k), k)
  }

  /** A checker whose name is already registered replaces the earlier one in its
      place; a new name is appended; every other name keeps its checker. */
  lemma AddCheckerByName(reg: Registry, k: Kind)
    ensures OrderedMap.Get(AddChecker(reg, k), Name(k)) == Some(k)
    ensures forall n :: n != Name(k) ==> OrderedMap.Get(AddChecker(reg, k), n) == OrderedMap.Get(reg, n)
    ensures OrderedMap.Keys(AddChecker(reg, k)) ==
      if Name(k) in OrderedMap.Keys(reg) then OrderedMap.Keys(reg) else OrderedMap.Keys(reg) + [Name(k)]
    ensures OrderedMap.Valid(reg) ==> OrderedMap.Valid(AddChecker(reg, k))
  {
    forall n {
      OrderedMap.PutGet(reg, Name(k), k, n);
    }
    OrderedMap.PutKeys(reg, Name(k), k);
    if OrderedMap.Valid(reg) {
      OrderedMap.PutValid(reg, Name(k), k);
    }
  }

  /** The registry entry for each name is the checker registered under it. */
  predicate Named(reg: Registry) {
    forall i :: 0 <= i < |reg| ==> reg[i].0 == Name(reg[i].1)
  }

  /** What check() returns for each checker on one request. */
  type Outcomes = Kind -> CheckResult

  function OutcomesOf(v: Variant, h: Host): Outcomes {
    (k: Kind) => RunChecker(v, k, h)
  }

  /** The reference verdict: healthy unless some critical registered checker is
      unhealthy. */
  predicate OverallHealthy(reg: Registry, run: Outcomes) {
    forall i :: 0 <= i < |reg| && IsCritical(reg[i].1) ==> run(reg[i].1).healthy
  }

  /** The report runAll() returns, without its timestamp. */
  datatype Report = Report(status: string, durationMs: int, checks: seq<(string, Fields)>)

  /** runAll(): runs each registered checker once, in order, storing its toArray()
      under its name; the status is "unhealthy" exactly when a critical checker is
      unhealthy. */
  method RunAll(reg: Registry, run: Outcomes, totalUs: nat) returns (rep: Report)
    requires OrderedMap.Valid(reg)
    ensures rep.status == (if OverallHealthy(reg, run) then "healthy" else "unhealthy")
    ensures rep.durationMs == DurationMs(totalUs)
    ensures |rep.checks| == |reg|
    ensures forall i :: 0 <= i < |reg| ==> rep.checks[i] == (reg[i].0, ToArray(run(reg[i].1)))
  {
    var results: seq<(string, Fields)> := [];
    var overall := true;
    var i := 0;
    while i < |reg|
      invariant 0 <= i <= |reg|
      invariant |results| == i
      invariant forall j :: 0 <= j < i ==> results[j] == (reg[j].0, ToArray(run(reg[j].1)))
      invariant overall <==> forall j :: 0 <= j < i && IsCritical(reg[j].1) ==> run(reg[j].1).healthy
    {
      var (name, k) := reg[i];
      var result := run(k);
      forall j | 0 <= j < i ensures results[j].0 != name {
        assert OrderedMap.Keys(reg)[j] != OrderedMap.Keys(reg)[i];
      }
      OrderedMap.PutAppends(results, name, ToArray(result));
      results := OrderedMap.Put(results, name, ToArray(result));
      if !result.healthy && IsCritical(k) {
        overall := false;
      }
      i := i + 1;
    }
    rep := Report(if overall then "healthy" else "unhealthy", DurationMs(totalUs), results);
  }

  /** The HTTP status code the script sends. */
  function HttpStatus(rep: Report): (code: int)
    ensures code == 200 <==> rep.status == "healthy"
    ensures code == 200 || code == 503
  {
    if rep.status == "healthy" then 200 else 503
  }

  /** No registered checker has `k`'s name. */
  predicate Fresh(reg: Registry, k: Kind) {
    forall j :: 0 <= j < |reg| ==> reg[j].0 != Name(k)
  }

  /** Registering a checker whose name is new appends it. */
  lemma AddNew(reg: Registry, k: Kind)
    requires Fresh(reg, k)
    ensures AddChecker(reg, k) == reg + [(Name(k), k)]
  {
    OrderedMap.PutAppends(reg, Name(k), k);
  }

  /** The registry the script builds with its chain of addChecker() calls. */
  function StandardRegistry(): Registry {
    AddChecker(AddChecker(AddChecker(AddChecker(AddChecker(AddChecker(
      [], Runtime), ExtensionSet), OpcacheState), RedisServer), SystemLoad), AppDirectories)
  }

  /** The first three registrations append the PHP, extension and OPcache checkers. */
  lemma RegisterFirstThree()
    ensures AddChecker(AddChecker(AddChecker([], Runtime), ExtensionSet), OpcacheState)
      == [("php", Runtime), ("php_extensions", ExtensionSet), ("opcache", OpcacheState)]
  {
    var r1: Registry := [("php", Runtime)];
    AddNew([], Runtime);
    var r2 := r1 + [("php_extensions", ExtensionSet)];
    AddNew(r1, ExtensionSet);
    AddNew(r2, OpcacheState);
  }

  /** The last three registrations append the Redis, system and application checkers. */
  lemma RegisterLastThree(r3: Registry)
    requires r3 == [("php", Runtime), ("php_extensions", ExtensionSet), ("opcache", OpcacheState)]
    ensures AddChecker(AddChecker(AddChecker(r3, RedisServer), SystemLoad), AppDirectories)
      == r3 + [("redis", RedisServer), ("system", SystemLoad), ("application", AppDirectories)]
  {
    AddNew(r3, RedisServer);
    var r4 := r3 + [("redis", RedisServer)];
    AddNew(r4, SystemLoad);
    var r5 := r4 + [("system", SystemLoad)];
    AddNew(r5, AppDirectories);
  }

  /** The script registers six distinct names, in this order. */
  lemma StandardRegistryShape()
    ensures StandardRegistry() == [("php", Runtime), ("php_extensions", ExtensionSet), ("opcache", OpcacheState),
      ("redis", RedisServer), ("system", SystemLoad), ("application", AppDirectories)]
  {
    RegisterFirstThree();
    var r3: Registry := [("php", Runtime), ("php_extensions", ExtensionSet), ("opcache", OpcacheState)];
    RegisterLastThree(r3);
  }

  /** A chain of addChecker() calls starting from an empty manager never holds a
      name twice. */
  lemma StandardRegistryValid()
    ensures OrderedMap.Valid(StandardRegistry())
  {
    var r0: Registry := [];
    AddCheckerByName(r0, Runtime);
    var r1 := AddChecker(r0, Runtime);
    AddCheckerByName(r1, ExtensionSet);
    var r2 := AddChecker(r1, ExtensionSet);
    AddCheckerByName(r2, OpcacheState);
    var r3 := AddChecker(r2, OpcacheState);
    AddCheckerByName(r3, RedisServer);
    var r4 := AddChecker(r3, RedisServer);
    AddCheckerByName(r4, SystemLoad);
    var r5 := AddChecker(r4, SystemLoad);
    AddCheckerByName(r5, AppDirectories);
  }

  /** Of the six registered checkers only "php" is critical, so the overall verdict
      is the PHP runtime check's health. */
  lemma ListedRegistryVerdict(reg: Registry, run: Outcomes)
    requires reg == [("php", Runtime), ("php_extensions", ExtensionSet), ("opcache", OpcacheState),
      ("redis", RedisServer), ("system", SystemLoad), ("application", AppDirectories)]
    ensures OverallHealthy(reg, run) <==> run(Runtime).healthy
  {
    assert reg[0].1 == Runtime && IsCritical(reg[0].1);
    assert forall i :: 1 <= i < |reg| ==> !IsCritical(reg[i].1);
  }

  /** Only "php" is critical, so the overall verdict for the standard registry is
      exactly the PHP runtime check's health. */
  lemma StandardRegistryVerdict(run: Outcomes)
    ensures OrderedMap.Valid(StandardRegistry())
    ensures OverallHealthy(StandardRegistry(), run) <==> run(Runtime).healthy
  {
    StandardRegistryValid();
    StandardRegistryShape();
    ListedRegistryVerdict(StandardRegistry(), run);
  }

  /** Non-critical checkers never change the HTTP code: the script answers 200
      exactly when PHP's memory_limit parses and less than 90% of it is in use. */
  lemma RuntimeDecidesHttpStatus(v: Variant, h: Host, rep: Report)
    requires rep.status == (if OverallHealthy(StandardRegistry(), OutcomesOf(v, h)) then "healthy" else "unhealthy")
    ensures HttpStatus(rep) == 200 <==>
      PhpRuntime.ParseMemory(v, h.runtime.memoryLimit).Returned?
      && (PhpRuntime.ParseMemory(v, h.runtime.memoryLimit).value <= 0
        || 20000 * h.runtime.usage < 17999 * PhpRuntime.ParseMemory(v, h.runtime.memoryLimit).value)
  {
    StandardRegistryVerdict(OutcomesOf(v, h));
    assert OutcomesOf(v, h)(Runtime) == RunChecker(v, Runtime, h);
  }

  /** Registering a checker name a second time keeps the position of the first. */
  lemma ReRegistrationKeepsOrder(reg: Registry, k: Kind, i: int)
    requires OrderedMap.Valid(reg) && 0 <= i < |reg| && reg[i].0 == Name(k)
    ensures |AddChecker(reg, k)| == |reg| && AddChecker(reg, k)[i] == (Name(k), k)
    ensures forall j :: 0 <= j < |reg| && j != i ==> AddChecker(reg, k)[j] == reg[j]
  {
    OrderedMap.PutExistingInPlace(reg, Name(k), k, i);
  }
}
