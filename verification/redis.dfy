/** RedisCheck of both health files. The client is a scripted oracle: each call
    returns a value or raises, and the probe is a small state machine that walks
    connect, optional auth, ping and info, then always closes the client. */
module Redis {
  import opened Base
  import opened PhpLang
  import opened Results
  import OrderedMap

  /** A value the client's ping() can return. */
  datatype Pong = PongTrue | PongFalse | PongText(text: string)

  /** What one client call does: return a value, or raise a RedisException. */
  datatype Reply<+T> = Ok(value: T) | Raises(message: string)

  /** The scripted behaviour of the client and server for one probe, with the
      measured connect and ping latencies in microseconds. */
  datatype Server = Server(
    connect: Reply<bool>,
    connectUs: nat,
    auth: Reply<bool>,
    ping: Reply<Pong>,
    pingUs: nat,
    info: Reply<seq<(string, string)>>,
    close: Reply<bool>)

  /** The port argument handed to connect(): an int, or the raw REDIS_PORT string. */
  datatype Port = PortNumber(n: int) | PortText(text: string)

  /** A call made on the client object. */
  datatype Call = Connect(host: string, port: Port) | Auth(password: string) | Ping | Info | Close

  /** REDIS_HOST, REDIS_PASSWORD and REDIS_PORT as getenv() returns them. */
  datatype Settings = Settings(host: Option<string>, password: Option<string>, port: Option<string>)

  /** Where the conversation inside the try block ended. */
  datatype Stop =
    | ConnectRaised(message: string)
    | Refused
    | AuthRaised(message: string)
    | Rejected
    | PingRaised(message: string)
    | BadPong
    | InfoRaised(message: string)
    | Answered(info: seq<(string, string)>)

  /** The stops where a client call raised instead of answering. */
  predicate Raised(stop: Stop) {
    stop.ConnectRaised? || stop.AuthRaised? || stop.PingRaised? || stop.InfoRaised?
  }

  /** A probe: what performCheck ends with, and the client calls it made in order. */
  datatype Run<+T> = Run(outcome: Outcome<T>, calls: seq<Call>)

  const LOCALHOST: string := "127.0.0.1"
  const DEFAULT_PORT: int := 6379
  /** Ping latency limit: 100 ms. */
  const MAX_PING_US: nat := 100000

  /** The TypeError a strict_types caller gets when passing a string as connect()'s
      int port. connect() is an internal function, so the message carries no
      "called in" location and this is all of it. */
  const PORT_TYPE_ERROR: string := "Redis::connect(): Argument #2 ($port) must be of type int, string given"

  /** connect() as the client sees it: a string port is rejected before the server
      is contacted. */
  function ConnectReply(port: Port, s: Server): (r: Reply<bool>)
    ensures port.PortText? ==> r == Raises(PORT_TYPE_ERROR)
    ensures port.PortNumber? ==> r == s.connect
  {
    if port.PortText? then Raises(PORT_TYPE_ERROR) else s.connect
  }

  /** `getenv('REDIS_PASSWORD') ?: null`, then used only when neither null nor "". */
  function AuthPassword(password: Option<string>): (p: Option<string>)
    ensures p.Some? <==> !Falsy(password)
    ensures p.Some? ==> p == password && p.value != ""
  {
    if Falsy(password) then None else password
  }

  /** The full sequence of calls when every step succeeds. */
  function Protocol(host: string, port: Port, password: Option<string>): seq<Call> {
    [Connect(host, port)] + (if password.Some? then [Auth(password.value)] else []) + [Ping, Info]
  }

  predicate IsPrefix(a: seq<Call>, b: seq<Call>) {
    |a| <= |b| && a == b[..|a|]
  }

  /** The try block: connect, authenticate when a password is given, ping, fetch
      info; each step runs only when the previous one succeeded. */
  function Session(host: string, port: Port, password: Option<string>, s: Server): (res: (Stop, seq<Call>))
    ensures 0 < |res.1| && IsPrefix(res.1, Protocol(host, port, password))
    ensures res.1 == Protocol(host, port, password) <==> res.0.Answered? || res.0.InfoRaised?
    ensures res.0.Answered? <==>
      ConnectReply(port, s) == Ok(true)
      && (password.None? || s.auth == Ok(true))
      && (s.ping == Ok(PongTrue) || s.ping == Ok(PongText("+PONG")))
      && s.info.Ok?
    ensures (exists i :: 0 <= i < |res.1| && res.1[i].Auth?) <==> password.Some? && ConnectReply(port, s) == Ok(true)
    ensures res.0.Refused? <==> ConnectReply(port, s) == Ok(false)
    ensures res.0.Rejected? <==> password.Some? && ConnectReply(port, s) == Ok(true) && s.auth == Ok(false)
  {
    var c := [Connect(host, port)];
    var full := Protocol(host, port, password);
    match ConnectReply(port, s)
    case Raises(m) => (ConnectRaised(m), c)
    case Ok(connected) =>
      if !connected then (Refused, c)
      else if password.Some? && s.auth != Ok(true) then
        var a := c + [Auth(password.value)];
        assert a[1].Auth?;
        match s.auth
        case Raises(m) => (AuthRaised(m), a)
        case Ok(_) => (Rejected, a)
      else
        var a := c + (if password.Some? then [Auth(password.value)] else []);
        var p := a + [Ping];
        assert full == p + [Info];
        assert p == full[..|p|];
        assert password.Some? ==> p[1].Auth?;
        assert password.None? ==> forall k :: 0 <= k < |p| ==> !p[k].Auth?;
        match s.ping
        case Raises(m) => (PingRaised(m), p)
        case Ok(pong) =>
          if pong != PongTrue && pong != PongText("+PONG") then (BadPong, p)
          else
            var i := p + [Info];
            match s.info
            case Raises(m) => (InfoRaised(m), i)
            case Ok(info) => (Answered(info), i)
  }

  /** The finally block: close() runs after whatever the try block ended with; if
      close() itself raises, that exception replaces the outcome. */
  function Finish<T>(outcome: Outcome<T>, calls: seq<Call>, s: Server): (run: Run<T>)
    ensures run.calls == calls + [Close]
    ensures s.close.Raises? ==> run.outcome == Threw(s.close.message)
    ensures s.close.Ok? ==> run.outcome == outcome
  {
    Run(if s.close.Raises? then Threw(s.close.message) else outcome, calls + [Close])
  }

  /** $info[$key] ?? $default */
  function Lookup(info: seq<(string, string)>, key: string, default: string): string {
    OrderedMap.Get(info, key).GetOr(default)
  }

  /** The details reported after a successful ping and info. */
  function ServerDetails(info: seq<(string, string)>, s: Server): Fields {
    [
      ("connected", JBool(true)),
      ("version", JStr(Lookup(info, "redis_version", "unknown"))),
      ("uptime_seconds", JInt(IntCast(Lookup(info, "uptime_in_seconds", "0")))),
      ("memory", JObj([
        ("used", JStr(Lookup(info, "used_memory_human", "unknown"))),
        ("peak", JStr(Lookup(info, "used_memory_peak_human", "unknown"))),
        ("fragmentation_ratio", JFloatText(Lookup(info, "mem_fragmentation_ratio", "0")))])),
      ("stats", JObj([
        ("connected_clients", JInt(IntCast(Lookup(info, "connected_clients", "0")))),
        ("total_commands_processed", JInt(IntCast(Lookup(info, "total_commands_processed", "0")))),
        ("keyspace_hits", JInt(IntCast(Lookup(info, "keyspace_hits", "0")))),
        ("keyspace_misses", JInt(IntCast(Lookup(info, "keyspace_misses", "0"))))])),
      ("latency", JObj([
        ("connect_ms", JFixed(DurationMs(s.connectUs))),
        ("ping_ms", JFixed(DurationMs(s.pingUs)))]))
    ]
  }

  /** The array the try block returns (or its catch returns) for each way the
      session can end. `host` is only echoed when authentication is rejected. */
  function Report(stop: Stop, host: string, s: Server): (r: Performed)
    ensures r.healthy <==> stop.Answered? && s.pingUs < MAX_PING_US
    ensures stop.Refused? ==> r.status == "unavailable" && r.details == Some([("connect_latency_ms", JFixed(DurationMs(s.connectUs)))])
    ensures stop.Rejected? ==> r.status == "unauthenticated" && r.details == Some([("host", JStr(host))])
    ensures stop.BadPong? ==> r.status == "error" && r.error == Some("Redis ping failed")
    ensures Raised(stop) ==> r == Performed(false, "error", Some([]), Some(stop.message))
    ensures stop.Answered? ==> r.status == (if r.healthy then "healthy" else "warning") && r.error.None?
  {
    match stop
    case Refused =>
      Performed(false, "unavailable", Some([("connect_latency_ms", JFixed(DurationMs(s.connectUs)))]),
        Some("Cannot connect to Redis"))
    case Rejected =>
      Performed(false, "unauthenticated", Some([("host", JStr(host))]),
        Some("Redis authentication failed (NOAUTH). Check REDIS_PASSWORD."))
    case BadPong => Performed(false, "error", Some([]), Some("Redis ping failed"))
    case Answered(info) => AnsweredReport(info, s)
    case _ => Performed(false, "error", Some([]), Some(stop.message))
  }

  /** A completed session is healthy when the ping was fast enough, and a warning
      otherwise. */
  function AnsweredReport(info: seq<(string, string)>, s: Server): (r: Performed)
    ensures r.healthy <==> s.pingUs < MAX_PING_US
    ensures r.status == (if r.healthy then "healthy" else "warning") && r.error.None?
    ensures r.details == Some(ServerDetails(info, s))
  {
    var healthy := s.pingUs < MAX_PING_US;
    Performed(healthy, if healthy then "healthy" else "warning", Some(ServerDetails(info, s)), None)
  }

  const NOT_INSTALLED: Performed :=
    Performed(false, "unavailable", Some([]), Some("Redis extension not installed"))

  /** The port as php/health.php passes it: `getenv('REDIS_PORT') ?: 6379`, so a set
      variable arrives as a string. */
  function PortAsWritten(cfg: Settings): Port {
    if Falsy(cfg.port) then PortNumber(DEFAULT_PORT) else PortText(cfg.port.value)
  }

  /** The port as evidently intended: the configured value cast to int. */
  function PortCorrected(cfg: Settings): (p: Port)
    ensures p.PortNumber?
    ensures Falsy(cfg.port) ==> p.n == DEFAULT_PORT
  {
    if Falsy(cfg.port) then PortNumber(DEFAULT_PORT) else PortNumber(IntCast(cfg.port.value))
  }

  /** close() is the last call and the only one, after a prefix of the protocol. */
  lemma ClosedAfter<T>(outcome: Outcome<T>, calls: seq<Call>, s: Server, host: string, port: Port, password: Option<string>)
    requires 0 < |calls| && IsPrefix(calls, Protocol(host, port, password))
    ensures var c := Finish(outcome, calls, s).calls;
      0 < |c| && c[|c| - 1] == Close && Close !in c[..|c| - 1]
      && c[0] == Connect(host, port) && IsPrefix(c[..|c| - 1], Protocol(host, port, password))
  {
    var c := Finish(outcome, calls, s).calls;
    assert c[..|c| - 1] == calls;
    var full := Protocol(host, port, password);
    assert Close !in full;
    forall i | 0 <= i < |calls| ensures calls[i] != Close {
      assert calls[i] == full[i];
    }
  }

  /** php/health.php's performCheck() for a given port argument. It always connects
      to 127.0.0.1; REDIS_HOST is only echoed in the authentication failure. */
  function HardenedProbeWith(loaded: bool, cfg: Settings, s: Server, port: Port): (run: Run<Performed>)
    ensures !loaded ==> run == Run(Returned(NOT_INSTALLED), [])
    ensures loaded ==> 0 < |run.calls| && run.calls[|run.calls| - 1] == Close && Close !in run.calls[..|run.calls| - 1]
    ensures loaded ==> run.calls[0] == Connect(LOCALHOST, port)
    ensures loaded ==> IsPrefix(run.calls[..|run.calls| - 1], Protocol(LOCALHOST, port, AuthPassword(cfg.password)))
  {
    if !loaded then Run(Returned(NOT_INSTALLED), [])
    else
      var host := if Falsy(cfg.host) then LOCALHOST else cfg.host.value;
      var (stop, calls) := Session(LOCALHOST, port, AuthPassword(cfg.password), s);
      var outcome := Returned(Report(stop, host, s));
      ClosedAfter(outcome, calls, s, LOCALHOST, port, AuthPassword(cfg.password));
      Finish(outcome, calls, s)
  }

  /** php/health.php's RedisCheck as written: with REDIS_PORT set, connect() raises
      the TypeError before reaching the server, the catch reports it as an "error",
      and close() still runs; with it unset or falsy, the default int port is used
      and the probe is the corrected one. */
  function HardenedProbeAsWritten(loaded: bool, cfg: Settings, s: Server): (run: Run<Performed>)
    ensures !loaded ==> run == Run(Returned(NOT_INSTALLED), [])
    ensures loaded && !Falsy(cfg.port) ==> run.calls == [Connect(LOCALHOST, PortText(cfg.port.value)), Close]
    ensures loaded && !Falsy(cfg.port) && s.close.Ok? ==>
      run.outcome == Returned(Performed(false, "error", Some([]), Some(PORT_TYPE_ERROR)))
    ensures Falsy(cfg.port) ==> run == HardenedProbe(loaded, cfg, s)
  {
    HardenedProbeWith(loaded, cfg, s, PortAsWritten(cfg))
  }

  /** php/health.php's RedisCheck with the port cast to int: the configured port
      reaches the server and only the server's replies decide the outcome. */
  function HardenedProbe(loaded: bool, cfg: Settings, s: Server): (run: Run<Performed>)
    ensures loaded ==> 0 < |run.calls| && run.calls[0] == Connect(LOCALHOST, PortCorrected(cfg))
    ensures loaded && s.close.Ok? ==> (run.outcome.Returned? && (run.outcome.value.healthy <==>
      s.connect == Ok(true)
      && (Falsy(cfg.password) || s.auth == Ok(true))
      && (s.ping == Ok(PongTrue) || s.ping == Ok(PongText("+PONG")))
      && s.info.Ok?
      && s.pingUs < MAX_PING_US))
  {
    HardenedProbeWith(loaded, cfg, s, PortCorrected(cfg))
  }

  /** health.php's performCheck(): fixed 127.0.0.1:6379 and never authenticates. */
  function LegacyProbe(loaded: bool, s: Server): (run: Run<Performed>)
    ensures !loaded ==> run == Run(Returned(NOT_INSTALLED), [])
    ensures loaded ==> 0 < |run.calls| && run.calls[|run.calls| - 1] == Close && Close !in run.calls[..|run.calls| - 1]
    ensures forall i :: 0 <= i < |run.calls| ==> !run.calls[i].Auth?
    ensures loaded && s.close.Ok? ==> (run.outcome.Returned? && (run.outcome.value.healthy <==>
      s.connect == Ok(true)
      && (s.ping == Ok(PongTrue) || s.ping == Ok(PongText("+PONG")))
      && s.info.Ok?
      && s.pingUs < MAX_PING_US))
  {
    if !loaded then Run(Returned(NOT_INSTALLED), [])
    else
      var (stop, calls) := Session(LOCALHOST, PortNumber(DEFAULT_PORT), None, s);
      var run := Finish(Returned(Report(stop, LOCALHOST, s)), calls, s);
      assert run.calls[..|run.calls| - 1] == calls;
      run
  }

  /** A refused connection reports "unavailable" with only the connect latency in its
      details (no version) and makes no call but connect and close. */
  lemma RefusedIsUnavailable(cfg: Settings, s: Server)
    requires s.connect == Ok(false) && s.close.Ok?
    ensures var run := HardenedProbe(true, cfg, s);
      run.outcome.Returned? && run.outcome.value.status == "unavailable" && !run.outcome.value.healthy
      && run.outcome.value.details == Some([("connect_latency_ms", JFixed(DurationMs(s.connectUs)))])
      && run.calls == [Connect(LOCALHOST, PortCorrected(cfg)), Close]
  {
  }

  /** A rejected password reports "unauthenticated", distinct from "unavailable",
      with the configured host in the details. */
  lemma RejectedIsUnauthenticated(cfg: Settings, s: Server)
    requires !Falsy(cfg.password)
    requires s.connect == Ok(true) && s.auth == Ok(false) && s.close.Ok?
    ensures var run := HardenedProbe(true, cfg, s);
      run.outcome.Returned? && run.outcome.value.status == "unauthenticated"
      && run.outcome.value.details == Some([("host", JStr(if Falsy(cfg.host) then LOCALHOST else cfg.host.value))])
      && run.calls == [Connect(LOCALHOST, PortCorrected(cfg)), Auth(cfg.password.value), Close]
  {
    var port := PortCorrected(cfg);
    assert ConnectReply(port, s) == Ok(true);
    assert AuthPassword(cfg.password) == Some(cfg.password.value);
    var res := Session(LOCALHOST, port, AuthPassword(cfg.password), s);
    assert res.0 == Rejected;
    assert res.1 == [Connect(LOCALHOST, port)] + [Auth(cfg.password.value)];
    var host := if Falsy(cfg.host) then LOCALHOST else cfg.host.value;
    assert Report(Rejected, host, s).details == Some([("host", JStr(host))]);
  }

  /** Authentication is attempted exactly when a password other than "" or "0" is
      configured and the connection succeeded. */
  lemma AuthOnlyWithPassword(cfg: Settings, s: Server)
    ensures var run := HardenedProbe(true, cfg, s);
      (exists i :: 0 <= i < |run.calls| && run.calls[i].Auth?) <==> !Falsy(cfg.password) && s.connect == Ok(true)
  {
    var (stop, calls) := Session(LOCALHOST, PortCorrected(cfg), AuthPassword(cfg.password), s);
    var run := HardenedProbe(true, cfg, s);
    assert run.calls == calls + [Close];
    if exists i :: 0 <= i < |run.calls| && run.calls[i].Auth? {
      var i :| 0 <= i < |run.calls| && run.calls[i].Auth?;
      assert i < |calls|;
      assert calls[i].Auth?;
    }
    if !Falsy(cfg.password) && s.connect == Ok(true) {
      var i :| 0 <= i < |calls| && calls[i].Auth?;
      assert run.calls[i].Auth?;
    }
  }

  /** As written, a set REDIS_PORT reaches connect() as a string: under strict_types
      the call throws a TypeError, which the catch turns into an "error" result,
      whatever the server would have answered. */
  lemma PortStringRaises(s: Server)
    requires s.close.Ok?
    ensures var run := HardenedProbeAsWritten(true, Settings(None, None, Some("6379")), s);
      run.outcome == Returned(Performed(false, "error", Some([]), Some(PORT_TYPE_ERROR)))
      && run.calls == [Connect(LOCALHOST, PortText("6379")), Close]
  {
  }

  /** With the port cast, REDIS_PORT = "6379" reaches the server as port 6379. */
  lemma PortCorrectedReachesServer(s: Server)
    ensures PortCorrected(Settings(None, None, Some("6379"))) == PortNumber(6379)
  {
    IntCastOfRendered(6379, []);
    assert Decimal.IntToString(6379) + [] == "6379" by {
      assert Decimal.NatToString(6379) == "6379" by {
        assert Decimal.NatToString(637) == "637" by {
          assert Decimal.NatToString(63) == "63" by {
            assert Decimal.NatToString(6) == "6";
          }
        }
      }
    }
  }
}
