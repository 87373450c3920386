# PHP API Stack health checks — a Dafny model

This project models the health-check core of the PHP API Stack image in Dafny. The
core is three PHP scripts, modelled side by side:

- `php/health.php`, the JSON health endpoint hardened for `open_basedir` (the
  `Hardened` variant in the model);
- `health.php`, the earlier version of the same endpoint at the repository root (the
  `Legacy` variant);
- `php/index.php`, the demo landing page and its status dashboard (module `Dashboard`).

Each health endpoint registers six checkers: `php`, `php_extensions`, `opcache`,
`redis`, `system` and `application`. Every checker runs its body through a wrapper
that turns an escaping fault into an `"error"` result and records a duration. The
manager keys checkers by name, runs them in registration order, and reports
`unhealthy` (HTTP 503) exactly when a critical checker is unhealthy. Only `php` is
critical. The dashboard instead runs `PHP`, `OPcache` and `Redis` checks. It applies
no thresholds and is healthy only when every check is.

The model is functional. Probes such as `ini_get`, `extension_loaded`,
`opcache_get_status`, `disk_*_space`, `sys_getloadavg`, `/proc/meminfo`, `is_dir`,
`getenv`, `gethostbyname` and the clock become input records and natural numbers.
The Redis client is a scripted oracle (`Redis.Server`): each call returns a value or
raises. The probe is a state machine that records every call it makes, so
"`close()` runs on every path" is a statement about the call trace. Percentages are
exact rationals rounded half away from zero, counted in hundredths (`Rounding`).
PHP's `(int)` cast, `trim`, `strtolower`, `basename` and `implode` are modelled in
`PhpLang`. PHP arrays with string keys are insertion-ordered maps (`OrderedMap`).

Modules, in dependency order: `Base`, `Decimal`, `PhpLang`, `Rounding`, `OrderedMap`,
`Results`, `ByteFormat`, `PhpRuntime`, `Extensions`, `Opcache`, `Redis`,
`SystemResources`, `Application`, `Manager`, `Dashboard`.

Two defects appear under `strict_types=1` (see "## Findings"). Each is modelled as
written, next to a corrected definition. The manager runs the checkers as
written (`Manager.Perform`). `Manager.PerformCorrected` swaps in the two corrected
definitions, and `Manager.PerformDiffersOnlyAtDefects` shows that the two differ
only at the defects. The dashboard has neither defect.

## Model

| member | source | states |
|---|---|---|
| Results.Guard | php/health.php:98-124 | check(): healthy iff the body returned a healthy array; a thrown fault gives status "error", no details and its message as the error; otherwise status, error and details are copied (details default to [], error to null); the duration is recorded on both paths |
| Results.DurationMs | php/health.php:64 | duration_ms is the duration in milliseconds rounded to two places, half away from zero |
| Results.ToArray | php/health.php:48-68 | toArray() always begins with healthy then status |
| Results.ToArrayKeyList | php/health.php:48-68 | the keys are healthy, status, then details, error and duration_ms in that order, each only when present |
| Results.ToArrayKeys | php/health.php:48-68 | details appears iff they are non-empty, error iff it is non-null, and duration_ms iff a duration was recorded |
| Results.ToArrayRoundTrip | php/health.php:48-68 | a result read back from its toArray() form is the same result, up to the 10 µs resolution of duration_ms |
| ByteFormat.UnitIndex | php/health.php:81-83 | the unit index is the largest k <= 3 with 1024^k <= bytes (0 for fewer than 1024 bytes) |
| ByteFormat.UnitIndexUnique | php/health.php:81-83 | that characterisation fixes the unit: any k meeting the bounds is the chosen index |
| ByteFormat.Scaled | php/health.php:84-86 | the printed number is bytes / 1024^k rounded to two places |
| ByteFormat.FormatBytes | php/health.php:79-87 | the text always ends in a space followed by B, KB, MB or GB, the unit picked for max(bytes, 0) |
| ByteFormat.FormatBytesRoundTrip | php/health.php:79-87 | the formatted text reads back as exactly the rounded scaled value and the unit index, so it loses nothing beyond the two-place rounding |
| ByteFormat.FormatBytesZero | php/health.php:81 | 0 and negative byte counts both print as "0 B" |
| ByteFormat.FormatBytesKilo | php/health.php:79-87 | 1536 bytes print as "1.5 KB" (trailing zero dropped) |
| ByteFormat.FormatBytesMega | php/health.php:79-87 | 268435456 bytes print as "256 MB" |
| PhpLang.Clamp64 | php/health.php:181 | the result lies in the 64-bit range, equals the input inside it, and saturates at PHP_INT_MAX / PHP_INT_MIN outside it, as PHP does for a finite double |
| PhpLang.CapToInt64 | php/health.php:181 | a digit-run value below 2^1024 - 2^970 in magnitude (a finite double) saturates to the 64-bit range; one at or beyond it (an infinite double) becomes 0 |
| PhpLang.Lower | php/health.php:180 | strtolower(): same length, each ASCII capital shifted to lower case and every other character kept |
| PhpLang.Trim | php/health.php:175 | trim(): the result is a slice of the input with only whitespace outside it, and it neither starts nor ends with whitespace |
| PhpLang.TrimPadded | php/health.php:175 | whitespace added on either side of a string does not change its trim |
| PhpLang.IntCast | php/health.php:181 | the (int) cast of a string always lands in the 64-bit range |
| PhpLang.IntCastBeyondDouble | php/health.php:181 | a digit run too long for a finite double casts to 0 with either sign; a run between PHP_INT_MAX and that bound saturates to PHP_INT_MAX, or PHP_INT_MIN when negated |
| PhpLang.IntCastOfRendered | php/health.php:398 | casting the decimal rendering of any 64-bit integer, followed by text that does not start with a digit, gives that integer back |
| PhpLang.Basename | php/health.php:562 | basename() never contains a slash |
| PhpLang.BasenameOfJoined | php/health.php:562 | the basename of dir + "/" + name is name, for a non-empty slash-free name |
| PhpLang.JoinSplitRoundTrip | php/health.php:238 | a list joined with ", " by implode() splits back into the same list when no item holds a comma |
| Decimal.HundredthsToString | php/index.php:132 | the printed form of a round()ed float starts with a digit and has no spaces |
| Decimal.HundredthsRoundTrip | php/index.php:132 | a value printed with up to two decimals (trailing zeros dropped) parses back to the same value |
| Rounding.RoundDiv | php/health.php:151 | round(): the result is the correctly rounded quotient, halves away from zero, with the sign of the input |
| Rounding.RoundedIsUnique | php/health.php:151 | the correctly rounded quotient is unique, so the rounding is fully specified |
| Rounding.PercentBelow | php/health.php:154 | comparing a rounded percentage with a limit equals an exact comparison against the limit minus half a hundredth; for 90 this is 20000·part < 17999·whole |
| PhpRuntime.UnitFactor | php/health.php:180-188 | the suffix multiplier is 1, 1024, 1024² or 1024³ |
| PhpRuntime.ParseMemory | php/health.php:173-189 | parseMemory() returns a 64-bit integer or raises the return-type TypeError of an overflowing product |
| PhpRuntime.ParseMemoryPadded | php/health.php:173-175 | parseMemory() trims first, so whitespace around the ini value does not change the result |
| PhpRuntime.ParseMemoryPadded256M | php/health.php:173-189 | " 256M" followed by a newline is read as 268435456, like "256M" |
| PhpRuntime.ParseMemorySuffixed | php/health.php:180-188 | "N" followed by g/G, m/M or k/K parses as N·1024³, N·1024² or N·1024 when that fits in 64 bits |
| PhpRuntime.ParseMemoryPlain | php/health.php:181-187 | a bare number of bytes parses as itself |
| PhpRuntime.ParseMemory256M | php/health.php:173-189 | "256M" is 268435456 bytes in both files |
| PhpRuntime.ParseMemoryMinusOne | php/health.php:176-178 | "-1" (unlimited) is PHP_INT_MAX in the hardened file and -1 in the legacy file, which has no such branch |
| PhpRuntime.ParseMemoryOverflow | php/health.php:184-186 | a suffixed limit whose byte count exceeds 64 bits makes parseMemory() raise |
| PhpRuntime.UsagePercent | php/health.php:150-152 | usage percent is 0 when the limit is not positive, else the usage/limit ratio rounded to hundredths of a percent |
| PhpRuntime.RuntimeCheck | php/health.php:145-171 | the check raises iff parseMemory() raises; otherwise it is healthy iff the limit is not positive or the rounded usage is below 90%, with status healthy/warning and no error |
| PhpRuntime.LegacyUnlimitedIsHealthy | health.php:164-175 | in the legacy file an unlimited memory_limit is healthy, because -1 gives usage percent 0 |
| PhpRuntime.HardenedUnlimitedIsHealthy | php/health.php:176-178 | in the hardened file an unlimited memory_limit is healthy too, through PHP_INT_MAX |
| Extensions.Select | php/health.php:211-223 | the selected names are exactly those listed names whose loaded state matches, kept in list order |
| Extensions.SelectPartitions | php/health.php:211-217 | every required extension lands in exactly one of loaded and missing |
| Extensions.ExtensionsCheck | php/health.php:204-240 | healthy iff all of pdo, mbstring, json and curl are loaded; status healthy/critical; an error is present iff unhealthy, and its list after the prefix reads back as the missing extensions; the details are total_loaded, required.loaded and required.missing (the required names split by whether they are loaded, in list order), then the loaded optional names in list order |
| Extensions.MissingEmptyIff | php/health.php:225 | the missing list is empty iff every required extension is loaded |
| Extensions.MissingListReadsBack | php/health.php:238 | the comma-joined missing list splits back into the missing extensions |
| Extensions.RequiredHaveNoComma | php/health.php:196 | no required extension name contains a comma, so the joined list is unambiguous |
| Extensions.LoadedIgnoresCase | php/health.php:212 | extension_loaded() ignores case: "PDO" counts as pdo |
| Opcache.PercentOf | php/health.php:280-287 | a percentage is the integer 0 when the whole is 0, else the rounded ratio in hundredths |
| Opcache.OpcacheCheck | php/health.php:255-321 | a missing status function is "unavailable" and a false status is "disabled"; otherwise healthy iff some requests were served, the rounded hit rate is at least 90% and the rounded memory use is below 90% |
| Opcache.NinetyPercentHitRateIsHealthy | php/health.php:289 | a hit rate of exactly 90.00% passes: the limit is inclusive |
| Opcache.HitRateRoundsBeforeComparing | php/health.php:287-289 | 89.995% rounds to 90.00% and passes |
| Opcache.NoRequestsYetWarns | php/health.php:284-289 | with no hits and no misses the hit rate is 0 and the check warns |
| Redis.ConnectReply | php/health.php:356 | a string port is rejected by connect() before the server is contacted; an int port gets the server's answer |
| Redis.AuthPassword | php/health.php:350 | a password is used iff REDIS_PASSWORD is set to something other than "" or "0" |
| Redis.Session | php/health.php:354-389 | the calls are a prefix of connect, optional auth, ping, info; all are made iff the session answered or info raised; it answers iff connect is true, auth succeeds when a password is used, the pong is true or "+PONG", and info returns; auth is called iff a password is used and connect succeeded |
| Redis.Finish | php/health.php:423-425 | close() is appended after the try block; a close() that raises replaces the outcome with its fault |
| Redis.Report | php/health.php:359-422 | healthy iff the session answered and ping took under 100 ms; refused is "unavailable" with the connect latency; rejected is "unauthenticated" with the host; a bad pong is an "error" with "Redis ping failed"; a call that raises gives an unhealthy "error" with no details and the exception's message |
| Redis.PortCorrected | php/health.php:351 | the corrected port is always an int, 6379 when REDIS_PORT is unset, "" or "0" |
| Redis.HardenedProbeWith | php/health.php:336-426 | without the extension no call is made; otherwise the first call connects to 127.0.0.1, close() is the last call and happens exactly once, and the calls before it follow the protocol |
| Redis.HardenedProbeAsWritten | php/health.php:336-426 | as written: without the extension no call is made; with REDIS_PORT set, the calls are only connect (with the port as a string) and close, and with a normal close() the result is the TypeError "error" with no details; with REDIS_PORT unset or falsy, it is the corrected probe |
| Redis.HardenedProbe | php/health.php:336-426 | with the port cast, the check is healthy iff connect is true, auth succeeds (or no password), the pong is good, info returns and ping is under 100 ms |
| Redis.LegacyProbe | health.php:374-452 | the legacy probe never authenticates, always closes exactly once, and is healthy iff connect is true, the pong is good, info returns and ping is under 100 ms |
| Redis.RefusedIsUnavailable | php/health.php:359-368 | a refused connection reports "unavailable" with only the connect latency, after calling only connect and close |
| Redis.RejectedIsUnauthenticated | php/health.php:370-378 | a rejected password reports "unauthenticated" with the configured host, after calling connect, auth and close |
| Redis.AuthOnlyWithPassword | php/health.php:350-379 | auth is attempted exactly when a password other than "" or "0" is configured and the connection succeeded |
| Redis.PortStringRaises | php/health.php:351-356 | as written, REDIS_PORT="6379" reaches connect() as a string, and the check reports the TypeError as an "error" whatever the server would answer |
| Redis.PortCorrectedReachesServer | php/health.php:351-356 | with the cast, REDIS_PORT="6379" reaches the server as port 6379 |
| SystemResources.WordRun | php/health.php:504 | the `\w+` group is the longest prefix of word characters |
| SystemResources.MatchLine | php/health.php:504-508 | a matched line yields a non-empty name taken from the line's start and a byte count that is a multiple of 1024 |
| SystemResources.MatchRenderedLine | php/health.php:504-508 | a line "Name:   N kB" matches as (Name, N·1024) |
| SystemResources.ParseMeminfo | php/health.php:503-509 | the parsed meminfo array never holds a name twice |
| SystemResources.PutStep | php/health.php:506-509 | one more line changes `$meminfo[$key]` only when it names that key |
| SystemResources.ParseMeminfoAbsent | php/health.php:506-509 | a name is absent from the parsed array iff no line names it |
| SystemResources.ParseMeminfoLastWins | php/health.php:506-509 | a name maps to the value of the last line naming it |
| SystemResources.MemoryDetails | php/health.php:488-523 | hardened: a "proc_meminfo" or "php_fallback" source first, with PHP's own counters when the file cannot be read; legacy: `[available => false]` when the file is unreadable; otherwise the total/available/used/percent figures of the parsed file |
| SystemResources.AvailablePrefersMemAvailable | php/health.php:512 | available memory is the last MemAvailable value when one exists |
| SystemResources.AvailableFallsBackToMemFree | php/health.php:512 | without MemAvailable, available memory is the last MemFree value |
| SystemResources.MeminfoFallbacks | php/health.php:494-500 | without a meminfo file, the hardened check reports PHP's memory usage while the legacy one reports memory unavailable |
| SystemResources.DiskPercent | php/health.php:452-454 | a disk percentage exists iff the total is known and positive |
| SystemResources.FormatDiskAsWritten | php/health.php:468-469 | as written, formatting a disk figure succeeds iff it is missing or zero (a non-zero float is a TypeError) |
| SystemResources.FormatDisk | php/health.php:468-469 | with the cast to int, a disk figure always formats, as FormatBytes of the value or of 0 |
| SystemResources.Details | php/health.php:466-479 | the details are disk, load_average, memory in that order, and disk holds total, free and usage_percent |
| SystemResources.Body | php/health.php:448-480 | a fault while formatting the total, then the free space, is the outcome; otherwise the body returns those details |
| SystemResources.CheckAsWritten | php/health.php:448-480 | as written, the check raises iff either disk figure is known and non-zero, with the formatter's TypeError |
| SystemResources.CheckAsWrittenAgrees | php/health.php:448-480 | where the check as written does not raise, it equals the corrected check |
| SystemResources.Check | php/health.php:448-480 | corrected: healthy iff the disk total is unknown or zero or the rounded usage is below 90%, and the 1-minute load is below 10.0; details are disk, load_average, memory in that order |
| SystemResources.ReadableDiskReportsError | health.php:494-495 | as written, whenever the disk size can be read the system check is an "error" result carrying the TypeError |
| Application.DirEntry | php/health.php:592-608 | a directory entry has four fields; exists is is_dir(), and readable holds only for an existing readable directory |
| Application.Basenames | php/health.php:560-562 | each directory's key is its basename |
| Application.Directories | php/health.php:556-567 | the directory status array never holds a key twice |
| Application.DirectoriesByBasename | php/health.php:560-562 | with distinct basenames the keys are the basenames in list order and each holds its directory's entry |
| Application.AllOk | php/health.php:564-566 | all directories are fine iff each exists and is readable |
| Application.SecurityNote | php/health.php:575-578 | security_note and open_basedir are added only in the hardened file and only when open_basedir is non-empty |
| Application.Details | php/health.php:569-578 | details are directories then document_root (default "unknown"), then the security note if any |
| Application.AppCheck | php/health.php:554-585 | healthy iff every listed directory exists and is readable; status healthy/warning; document_root defaults to "unknown" |
| Application.HardenedBasenames | php/health.php:543-547 | the hardened directories are keyed html, public, tmp |
| Application.LegacyBasenames | health.php:560-565 | the legacy directories are keyed html, public, php, nginx |
| Application.DirectoryKeys | php/health.php:562 | the directory array of each variant is keyed by exactly those basenames |
| Application.WritabilityIrrelevant | php/health.php:564-566 | changing whether a directory is writable never changes the verdict |
| Application.MissingLogDirectory | health.php:560-591 | a host without /var/log/nginx passes the hardened check but fails the legacy one |
| Manager.RunChecker | php/health.php:98-124 | a checker's duration is recorded, and it is healthy only if its body returned |
| Manager.PerformDiffersOnlyAtDefects | php/health.php:336-480 | the checker bodies as written equal the corrected ones except the system check, which raises exactly when a disk figure is a non-zero amount and otherwise agrees, and the hardened Redis check, which agrees whenever REDIS_PORT is unset or falsy |
| Manager.ReadableDiskFailsSystemEntry | php/health.php:448-480 | as written, a readable disk size makes the system entry an unhealthy "error" carrying the formatter's TypeError; the system checker is not critical |
| Manager.SetPortFailsRedisEntry | php/health.php:336-356 | as written, a set REDIS_PORT makes the hardened redis entry an unhealthy "error" carrying the TypeError when close() succeeds |
| Manager.AddCheckerByName | php/health.php:620-624 | addChecker() stores the checker under its name, leaves other names alone, keeps the position of a name already present and appends a new one |
| Manager.AddNew | php/health.php:620-624 | adding a checker whose name is new appends it |
| Manager.ReRegistrationKeepsOrder | php/health.php:622 | re-adding a name replaces the checker in place, every other entry unchanged |
| Manager.RunAll | php/health.php:626-649 | the status is "healthy" iff no critical checker is unhealthy; every registered checker's toArray() is reported under its name in registration order; duration_ms is the total duration |
| Manager.HttpStatus | php/health.php:674-675 | the response is 200 iff the status is "healthy", and 503 otherwise |
| Manager.StandardRegistryValid | php/health.php:664-670 | the registry the script builds has no name twice |
| Manager.StandardRegistryShape | php/health.php:664-670 | the six checkers are registered as php, php_extensions, opcache, redis, system, application in that order |
| Manager.ListedRegistryVerdict | php/health.php:632-639 | with those six checkers, the overall status is healthy iff the php checker is |
| Manager.StandardRegistryVerdict | php/health.php:664-672 | the same holds for the registry the script builds |
| Manager.RuntimeDecidesHttpStatus | php/health.php:672-675 | the endpoint answers 200 iff memory_limit parses and is unlimited or less than 90% used; no other checker affects the code |
| Dashboard.Check | php/index.php:52-63 | check(): healthy iff the body returned a healthy result; a returned result passes unchanged; a fault becomes "Error: " plus its message, with no details |
| Dashboard.PhpCheck | php/index.php:76-92 | the PHP check is always healthy; its message starts with "PHP " and the version; its details are version, sapi, extensions_count (the extension count), memory_limit and max_execution_time |
| Dashboard.UsageTenths | php/index.php:125-128 | OPcache usage is the used share of used+free in tenths of a percent, correctly rounded and at most 100%, or 0 when OPcache reports no memory |
| Dashboard.OpcacheCheck | php/index.php:105-139 | healthy iff OPcache is available and enabled; the two failures have their own messages and no details; an enabled cache reports memory_used, cached_scripts and jit_enabled |
| Dashboard.OpcacheMessageReadsBack | php/index.php:128-132 | the percentage printed in the message parses back to the correctly rounded usage, to one decimal |
| Dashboard.OpcacheThresholdsIgnored | php/index.php:130-131 | a cache that the health endpoint reports as a warning shows as healthy on the dashboard |
| Dashboard.RedisHost | php/index.php:168-184 | the host is REDIS_HOST, 127.0.0.1 when it is unset, "" or "0", and also 127.0.0.1 when it is "redis" and resolving gives the name back |
| Dashboard.ResolvedHostIsKept | php/index.php:170-183 | a configured host becomes 127.0.0.1 only when it already is 127.0.0.1 or is an unresolvable "redis" |
| Dashboard.FormatUptime | php/index.php:258-264 | the text ends in s, m, h or d; negative durations print as signed seconds |
| Dashboard.FormatUptimeReadsBack | php/index.php:258-264 | a non-negative uptime prints as n whole units u: u is seconds below a minute, minutes below an hour, hours below a day and days after that, and n·u <= uptime < (n+1)·u (exact division, which matches PHP's double division below 2^53 seconds) |
| Dashboard.RedisReport | php/index.php:206-252 | healthy iff the session answered; a refused connection and a bad pong have fixed messages and no details; rejected auth reports the host; a call that raises gives "Redis error: " and its message, with no details |
| Dashboard.RedisCheck | php/index.php:187-256 | it connects to the resolved host on port 6379 and closes exactly once, last; with a normal close() it is healthy iff connect is true, auth succeeds (or no password), the pong is good and info returns, whatever the latency |
| Dashboard.RedisCardVerdict | php/index.php:187-256 | with a normal close(), the Redis card is healthy iff the extension is loaded, connect is true, auth succeeds or no password is set, the pong is good and info returns |
| Dashboard.SlowPingIsHealthyHere | php/index.php:226-246 | a ping of 100 ms or more passes the dashboard but fails the hardened health endpoint |
| Dashboard.BadPongIsReported | php/index.php:226-234 | a bad pong returns "Redis ping failed" rather than raising, after connect, ping and close |
| Dashboard.CloseFaultReachesWrapper | php/index.php:253-255 | a fault raised by close() in the finally block reaches check() and is shown with the "Error: " prefix |
| Dashboard.AddCheck | php/index.php:275-279 | addCheck() appends and keeps every earlier check |
| Dashboard.ResultsOf | php/index.php:283-293 | the results array never holds a name twice |
| Dashboard.RunAll | php/index.php:281-299 | overall_healthy holds iff every check that ran was healthy; the results are each check's result stored under its name in order |
| Dashboard.ResultsStep | php/index.php:286-288 | one more check changes `$results[$name]` only for its own name |
| Dashboard.ResultsPresent | php/index.php:286-288 | a name has a result iff some added check carries it, so every added check shows |
| Dashboard.ResultsLastWins | php/index.php:288 | the result shown under a name is that of the last check carrying it |
| Dashboard.ResultsOfDistinctNames | php/index.php:286-293 | with distinct names every check is listed once, in the order added |
| Dashboard.OverwrittenFailureStillCounts | php/index.php:286-297 | a failing check overwritten by a passing one of the same name is not listed but still makes the page unhealthy |
| Dashboard.ThreeChecks | php/index.php:286-297 | for three distinct names the results are keyed in order and the page is healthy iff all three are |
| Dashboard.StandardChecks | php/index.php:303-307 | the page builds exactly three checks |
| Dashboard.Serve | php/index.php:19-22 | the page is a 404 "Not Found Walmir" iff APP_ENV is exactly "production" and DEMO_MODE is unset, "" or "0"; otherwise it shows the dashboard's verdict and results |
| Dashboard.GateOpenings | php/index.php:19-22 | a truthy DEMO_MODE always opens the page; "Production" or an unset APP_ENV never closes it; DEMO_MODE "0" does not open it |
| Dashboard.StandardVerdict | php/index.php:303-309 | the page lists PHP, OPcache, Redis in that order and is healthy iff OPcache is enabled and the Redis conversation succeeds; the PHP check never fails |

## Left out

- Real probes (`ini_get`, `memory_get_usage`, `get_loaded_extensions`, `opcache_get_status`, `disk_*_space`, `sys_getloadavg`, `file_get_contents`, `is_dir`/`is_readable`/`is_writable`, `getenv`, `$_SERVER`, `gethostbyname`) are parameters of the model, not calls.
- The Redis network client, its 1.0 s timeout and its wire protocol are replaced by a scripted `Redis.Server` oracle. `info()` is assumed to return an array; its `false` return is not modelled.
- `microtime()` is replaced by abstract microsecond counts. `date('c')` timestamps are left out.
- Float mechanics are not modelled: the `log`-based unit computation, the exact float-to-string rendering beyond two (or one) decimals, and float load averages. Loads are Dafny reals compared exactly. `fragmentation_ratio` (a `(float)` cast of server text) keeps its text.
- Dashboard.FormatUptime: exact integer division and integer printing stand in for PHP's double division, `floor()` and 14-significant-digit float rendering. From 2^53 seconds up the double quotient can round up, so PHP may print one unit more than the model (576460752303484799 s gives "6671999447957d" in PHP and "6671999447956d" here). From 10^14 units PHP prints exponent form ("1.067519911673E+14d" for PHP_INT_MAX seconds). Dashboard.FormatUptimeReadsBack is stated for the exact quotient.
- ByteFormat.FormatBytes: `$bytes /= 1024^k` is a double division in PHP and is exact here, so above 2^53 bytes the rounded figure can differ in the last place (18014398643699711 bytes gives "16777216.13 GB" in PHP and "16777216.12 GB" here).
- PhpLang.IntCast: models decimal integer prefixes only: saturation to 64 bits, and 0 for a run that rounds to an infinite double. Exponent and float forms such as "1e3" or "1.5" are not modelled.
- SystemResources.MatchLine: matches `\s+` within one line. The source's `\s` can also cross a newline; that case is not modelled.
- SystemResources.MemoryDetails: meminfo values are unbounded naturals. The overflow of `(int) $match[2] * 1024` beyond 64 bits is not modelled.
- `json_encode` pretty-printing, the response headers and the 500 error envelope of the outer `try`/`catch` (its `file`/`line` fields) are left out.
- The HTML template of `php/index.php` and its `htmlspecialchars` rendering are left out. So are `$stackInfo`, the static page metadata.
- app/public/index.php is not part of this model. It is request-routing glue with no health logic.
- SystemResources.CheckAsWritten: the formatter's TypeError message leaves out the "called in … on line …" suffix PHP appends for a user-defined function, because file paths and line numbers are outside the model.
- PhpRuntime.ParseMemory: an empty `memory_limit` reads as a number with no unit, as PHP does. The warning PHP emits for the out-of-range `$value[-1]` is not modelled.

## Findings

| source | as written | input that shows it | evidently intended | confidence | as-written member | corrected member |
|---|---|---|---|---|---|---|
| php/health.php:468-469 (also health.php:494-495) | `disk_total_space()`/`disk_free_space()` return floats. Under `strict_types=1`, passing any float to the formatter's `int $bytes` parameter throws a TypeError, so the system check reports "error" | any host where `disk_total_space('/')` returns a positive number | format the disk figures as integers (cast to int) and judge disk usage and load | high for the TypeError, not executed | SystemResources.CheckAsWritten (with SystemResources.ReadableDiskReportsError and Manager.ReadableDiskFailsSystemEntry) | SystemResources.Check |
| php/health.php:351-356 | `getenv('REDIS_PORT') ?: 6379` yields a string whenever REDIS_PORT is set, and `Redis::connect()` declares an int port, so under `strict_types=1` the connect call throws a TypeError | REDIS_PORT="6379" | cast the configured port to int before connecting | medium, not executed | Redis.HardenedProbeAsWritten (with Redis.PortStringRaises and Manager.SetPortFailsRedisEntry) | Redis.HardenedProbe (with Redis.PortCorrectedReachesServer) |
