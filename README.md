# Database metrics snapshots and the MongoDB insert benchmark

This project models in Dafny the computational core of three scripts from a
small benchmarking repository for MySQL and MongoDB:

- `mysql/php/metrics.php` takes two `SHOW GLOBAL STATUS` snapshots some
  interval apart and reports a snapshot of MySQL activity: queries and
  transactions per second, network throughput in MiB/s, the InnoDB buffer
  pool hit ratio, the thread counts, database totals and, optionally, one
  table's figures, with `ANALYZE TABLE` first when asked.
- `mongo-db/js/src/metrics.js` takes two `serverStatus` documents and reports
  the same kind of snapshot for MongoDB: operation rates, network throughput,
  WiredTiger cache fill and evictions, and the maximum replication lag.
- `mongo-db/js/src/server.js` generates 100000 synthetic log documents and
  hands them to `insertMany` in batches of 1000.

The modules are laid out as follows:

- `Wrappers` holds `Option`.
- `Text` holds decimal digit strings, used for the interpolated document
  numbers and for the PHP interval argument.
- `Throughput` holds the per-second and MiB-per-second divisions shared by
  both metrics scripts.
- `MysqlMetrics`, `MongoMetrics` and `InsertBenchmark` follow the three
  scripts.

Each argument parser is a `foreach`/`for` loop in the source. In the model it
is a method with a loop. The method is proved equal to a left fold (`Parsed`),
and the lemmas state what the fold yields: the last matching argument wins,
unmatched arguments change nothing, and the defaults hold without matches.
The dotted-path walk and the two server.js loops are likewise methods proved
against specification functions. The `SHOW GLOBAL STATUS` row loop is a method
whose postconditions state its key set and the value each key keeps.

Snapshots are values handed in as parameters. `SHOW GLOBAL STATUS` is a map
from variable names to integers. A `serverStatus` document is a tree of
integer leaves and objects, and `replSetGetStatus` is either a failure or a
member list.

The model follows the code in these details, where a reader might expect otherwise:

- Hit ratio: it is absent when the request delta is zero or negative, not only
  when it is zero. When present it is clamped to [0, 1].
- Replication lag: only `SECONDARY` members enter the maximum. It is absent
  when the status command fails, when no member is `PRIMARY`, or when there is
  no secondary.
- Settings precedence differs per script. For PHP, only the command line
  counts. For JS, a non-empty environment variable wins, then a non-empty
  argument, then the default.
- Interval units differ per script. The PHP interval is in seconds, raised to
  at least 0.5. The JS interval is in milliseconds and is divided by 1000.

## Model

| member | source | states |
|---|---|---|
| Text.Show | mongo-db/js/src/server.js:23-24 | the decimal text of a number is a non-empty digit string with no leading zero |
| Text.ValueOfShow | mongo-db/js/src/server.js:23-24 | reading back the decimal text of `n` gives `n` |
| Text.ShowOfValue | mongo-db/js/src/server.js:23-24 | every canonical digit string is the decimal text of its value |
| Text.ShowInjective | mongo-db/js/src/server.js:23-24 | distinct numbers have distinct decimal texts |
| Throughput.PerSecond | mysql/php/metrics.php:56-57 | the rate times the interval gives back the counter delta |
| Throughput.MebibytesPerSecond | mysql/php/metrics.php:58-59 | the MiB/s figure times 1024·1024 times the interval gives back the byte delta |
| MysqlMetrics.LineBody | mysql/php/metrics.php:10-11 | PCRE `$` without the D modifier: the subject is the body, or the body plus one final newline |
| MysqlMetrics.TableCapture | mysql/php/metrics.php:10 | a match captures a non-empty, newline-free table name and the argument is `--table=` plus it, optionally plus one newline |
| MysqlMetrics.TableCaptureAccepts | mysql/php/metrics.php:10 | every non-empty newline-free name is captured, with or without a trailing newline |
| MysqlMetrics.DecimalText | mysql/php/metrics.php:11 | `\d+(?:\.\d+)?` read as a float is non-negative |
| MysqlMetrics.DecimalValue | mysql/php/metrics.php:11 | digits, a dot and more digits read as a number lie between the whole part and the whole part plus one |
| MysqlMetrics.DecimalTextShape | mysql/php/metrics.php:11 | an accepted interval text starts and ends with a digit, holds only digits and dots, and has at most one dot |
| MysqlMetrics.DecimalTextAcceptsWhole | mysql/php/metrics.php:11 | every non-empty digit string is accepted with its integer value |
| MysqlMetrics.DecimalTextAcceptsFraction | mysql/php/metrics.php:11 | digits, a dot and digits are accepted with their decimal value |
| MysqlMetrics.IntervalCapture | mysql/php/metrics.php:11 | an accepted interval argument starts with `--interval=` and yields a non-negative value |
| MysqlMetrics.IntervalCaptureAccepts | mysql/php/metrics.php:11 | every accepted interval text is captured after `--interval=`, with or without one final newline, with its value |
| MysqlMetrics.PrefixesDisjoint | mysql/php/metrics.php:10-11 | no argument starts with both the table and the interval prefix |
| MysqlMetrics.ParseArgs | mysql/php/metrics.php:6-15 | the argument loop computes the fold of the per-argument update over the arguments |
| MysqlMetrics.ApplyArg | mysql/php/metrics.php:10-12 | one loop round: characterised by ApplyArgTable, ApplyArgInterval and ApplyArgAnalyze, branch by branch |
| MysqlMetrics.ApplyArgTable | mysql/php/metrics.php:10 | one argument sets the table exactly when the table pattern matches it, to the captured name |
| MysqlMetrics.ApplyArgInterval | mysql/php/metrics.php:10-11 | one argument sets the interval exactly when the interval pattern matches it; a table argument never does |
| MysqlMetrics.ApplyArgAnalyze | mysql/php/metrics.php:10-12 | one argument sets the analyze flag exactly when it is `--analyze`, which neither pattern matches |
| MysqlMetrics.ParsedTableDefault | mysql/php/metrics.php:8-10 | without a table argument the table is `tracelog` |
| MysqlMetrics.ParsedTableLast | mysql/php/metrics.php:9-10 | the last table argument decides the table |
| MysqlMetrics.ParsedIntervalDefault | mysql/php/metrics.php:8-11 | without an interval argument the interval is 1.0 |
| MysqlMetrics.ParsedIntervalLast | mysql/php/metrics.php:9-11 | the last accepted interval argument decides the interval |
| MysqlMetrics.ParsedAnalyze | mysql/php/metrics.php:12 | analyze is set if and only if some argument is exactly `--analyze` |
| MysqlMetrics.UnrecognisedIgnored | mysql/php/metrics.php:9-13 | appending an argument no branch recognises changes nothing |
| MysqlMetrics.ParsedNoneRecognised | mysql/php/metrics.php:8-13 | with no recognised argument the result is the defaults |
| MysqlMetrics.EffectiveInterval | mysql/php/metrics.php:45 | the effective interval is the larger of 0.5 and the parsed interval |
| MysqlMetrics.RunsAnalyze | mysql/php/metrics.php:47 | `ANALYZE TABLE` runs only when the table line is also printed |
| MysqlMetrics.ReportsTable | mysql/php/metrics.php:70 | the table line is printed for a table name PHP treats as true; AnalyzeDecision and TableZeroSwitchesOff state what the arguments make of it |
| MysqlMetrics.AnalyzeDecision | mysql/php/metrics.php:47-70 | with the default table, the table line is reported, and `ANALYZE` runs iff `--analyze` is among the arguments |
| MysqlMetrics.TableZeroSwitchesOff | mysql/php/metrics.php:47-70 | a last `--table=0` names a table PHP treats as false, so neither `ANALYZE` nor the table line happens |
| MysqlMetrics.CollectStatus | mysql/php/metrics.php:16-20 | the status map holds exactly the row names, each with the value of its last row |
| MysqlMetrics.Delta | mysql/php/metrics.php:42 | a counter missing from both snapshots has delta 0 |
| MysqlMetrics.DeltaCases | mysql/php/metrics.php:42 | a missing counter reads as 0 on either side |
| MysqlMetrics.ComputeRates | mysql/php/metrics.php:56-59 | QPS, TPS (inserts + updates + deletes) and the two MiB/s figures, each times the interval, give back their counter deltas |
| MysqlMetrics.HitRatio | mysql/php/metrics.php:60-62 | absent iff the request delta is at most 0; otherwise it lies in [0, 1], is 1 − reads/requests when reads lie in [0, requests], is 0 above and 1 below |
| MysqlMetrics.DbTotals | mysql/php/metrics.php:33-41 | data and index sizes in MiB and the row sum; a missing column reads as 0 |
| MysqlMetrics.TableLine | mysql/php/metrics.php:71-75 | a missing table status gives all zeros; the average row size in KiB is 0 unless the row count is positive, and then times 1024 gives `Avg_row_length` |
| MysqlMetrics.Derive | mysql/php/metrics.php:44-65 | the report uses the effective interval (at least 0.5 s), the rates of the two snapshots over it, the hit ratio of the two deltas (absent iff requests did not grow, otherwise in [0, 1]), and the thread counts of the second snapshot |
| MysqlMetrics.DeriveExample | mysql/php/metrics.php:44-65 | a requested 0.2 s interval runs as 0.5 s, and concrete snapshots give 200 QPS, 60 TPS, a 0.99 hit ratio, and 0 running threads when that counter is absent |
| MongoMetrics.MatchArg | mongo-db/js/src/metrics.js:7 | a match splits `--key=value` with a non-empty key free of `=` and a non-empty value free of line terminators |
| MongoMetrics.MatchArgAccepts | mongo-db/js/src/metrics.js:7 | every such key and value is matched back |
| MongoMetrics.ParseArgs | mongo-db/js/src/metrics.js:4-11 | the argument loop computes the fold of the per-argument record step |
| MongoMetrics.Record | mongo-db/js/src/metrics.js:7-8 | one loop round: RecordKeys states which keys it adds, ParsedLast and ParsedNoProto what the loop then holds |
| MongoMetrics.RecordKeys | mongo-db/js/src/metrics.js:8 | after one step a key is present iff it was before or the argument matched it, `__proto__` excepted |
| MongoMetrics.ParsedKeyAbsent | mongo-db/js/src/metrics.js:4-11 | a key no argument matches is absent |
| MongoMetrics.ParsedNoProto | mongo-db/js/src/metrics.js:8 | `__proto__` never becomes a key |
| MongoMetrics.ParsedLast | mongo-db/js/src/metrics.js:5-9 | the last argument for a key decides its value |
| MongoMetrics.ParsedValuesNonEmpty | mongo-db/js/src/metrics.js:7-8 | every recorded value is non-empty |
| MongoMetrics.Setting | mongo-db/js/src/metrics.js:15-18 | precedence: a non-empty environment variable, then a non-empty argument, then the default |
| MongoMetrics.LoadConfig | mongo-db/js/src/metrics.js:14-18 | no setting is ever empty; ConfigDefaults, ConfigEnvironmentWins and SettingFromArgument state the precedence |
| MongoMetrics.ConfigDefaults | mongo-db/js/src/metrics.js:14-18 | with no variables and no matching arguments every setting is its default |
| MongoMetrics.ConfigEnvironmentWins | mongo-db/js/src/metrics.js:15-18 | a set, non-empty environment variable decides its setting whatever the arguments |
| MongoMetrics.SettingFromArgument | mongo-db/js/src/metrics.js:14-18 | without the variable, the last argument for the key decides |
| MongoMetrics.WalkMissing | mongo-db/js/src/metrics.js:32 | optional chaining from a missing value stays missing |
| MongoMetrics.Split | mongo-db/js/src/metrics.js:30 | splitting gives at least one part and no part holds the separator |
| MongoMetrics.JoinSplit | mongo-db/js/src/metrics.js:30 | joining the parts of a split gives back the path |
| MongoMetrics.SplitJoin | mongo-db/js/src/metrics.js:30 | splitting a join of separator-free parts gives back the parts |
| MongoMetrics.PathDelta | mongo-db/js/src/metrics.js:29-34 | the growth of the counter at a dotted path; Diff is proved to compute it, and PathDeltaMissing and PathDeltaTwoLevels state its value |
| MongoMetrics.Diff | mongo-db/js/src/metrics.js:29-34 | the walking loop computes the path delta of the two documents |
| MongoMetrics.PathDeltaMissing | mongo-db/js/src/metrics.js:29-34 | a path whose first component neither document has has delta 0 |
| MongoMetrics.PathDeltaTwoLevels | mongo-db/js/src/metrics.js:29-34 | `group.name` reads the `name` leaf of the `group` object in each document |
| MongoMetrics.CounterDeltas | mongo-db/js/src/metrics.js:36-41 | each of the six deltas is the growth of its leaf counter under `opcounters` or `network` |
| MongoMetrics.ComputeRates | mongo-db/js/src/metrics.js:35-41 | each rate times the interval in seconds gives back its delta; the byte rates are also scaled by 1024·1024 |
| MongoMetrics.InsertRateExample | mongo-db/js/src/metrics.js:35-36 | 50 more inserts over 5000 ms are 10 inserts per second |
| MongoMetrics.Cache | mongo-db/js/src/metrics.js:43-47 | the cache percentage is absent iff the configured maximum is 0, otherwise it times the maximum equals 100 × current and it lies in [0, 100] when current ≤ maximum; the eviction delta is second minus first |
| MongoMetrics.Percent | mongo-db/js/src/metrics.js:46 | the percentage times the whole is 100 × the part and lies in [0, 100] for a part within the whole |
| MongoMetrics.CacheMissing | mongo-db/js/src/metrics.js:43-47 | without a WiredTiger cache object the maximum reads as 0 and there is no percentage |
| MongoMetrics.FirstPrimary | mongo-db/js/src/metrics.js:52 | `find` gives the first `PRIMARY` member, or none |
| MongoMetrics.SecondaryLags | mongo-db/js/src/metrics.js:54-58 | the lags are empty iff there is no secondary, each is the primary's optime minus a secondary's in seconds, and every secondary contributes |
| MongoMetrics.MaxOf | mongo-db/js/src/metrics.js:59 | `Math.max` of a non-empty list is an element and bounds all elements |
| MongoMetrics.Lag | mongo-db/js/src/metrics.js:55-57 | the lag times 1000 is the primary's optime minus the member's, in ms, and is non-negative for a member not ahead of the primary |
| MongoMetrics.ReplLag | mongo-db/js/src/metrics.js:49-61 | the lag is absent after a failed command, without a primary, or without a secondary |
| MongoMetrics.ReplLagIsMaximum | mongo-db/js/src/metrics.js:52-59 | with a primary and a secondary, the lag is the largest secondary lag, reached by some secondary |
| MongoMetrics.ReplLagOfMembers | mongo-db/js/src/metrics.js:52-59 | with a primary and a secondary, the lag is `Math.max` of the secondary lags behind the first primary |
| MongoMetrics.ReplLagIgnoresOthers | mongo-db/js/src/metrics.js:52-54 | a member that is neither primary nor secondary, at any position in the member list, does not change the lag |
| MongoMetrics.FirstPrimaryInsert | mongo-db/js/src/metrics.js:52 | inserting a non-primary member anywhere keeps the first primary member, and keeps "none" when there was none |
| MongoMetrics.SecondaryLagsInsert | mongo-db/js/src/metrics.js:54 | inserting a non-secondary member anywhere adds no lag |
| MongoMetrics.ReplLagInSync | mongo-db/js/src/metrics.js:54-59 | secondaries at the primary's optime give lag 0 |
| InsertBenchmark.Record | mongo-db/js/src/server.js:17-27 | the document of round `i`; RecordNumbered and KeywordsDistinct state what it holds |
| InsertBenchmark.RecordNumbered | mongo-db/js/src/server.js:17-27 | document `i` carries `i` in decimal after the fixed keyword and log prefixes, its other fields fixed |
| InsertBenchmark.KeywordsDistinct | mongo-db/js/src/server.js:23 | distinct documents have distinct keywords |
| InsertBenchmark.GenerateLogs | mongo-db/js/src/server.js:16-28 | the generation loop yields `total` documents, the `k`-th numbered `k + 1` |
| InsertBenchmark.BatchCountIsCeiling | mongo-db/js/src/server.js:43 | the number of batches is the least `k` with `k × batchSize ≥ n` |
| InsertBenchmark.SplitBatches | mongo-db/js/src/server.js:43-46 | the batches laid end to end are the documents; each is non-empty and at most a batch long, all but the last are exactly a batch long, batch `j` is the slice at `j × batchSize`, and there are ⌈n / batchSize⌉ of them |
| InsertBenchmark.Window | mongo-db/js/src/server.js:44 | `logs.slice(i, i + batchSize)`; SplitBatches and BatchesAreWindows state that the batches are these windows |
| InsertBenchmark.BatchesAreWindows | mongo-db/js/src/server.js:43-44 | batches that lay end to end into the documents, none empty and all full but the last, are the slices at the multiples of the batch size |
| InsertBenchmark.RunBenchmark | mongo-db/js/src/server.js:11-46 | 100000 documents, in order, in 100 batches of exactly 1000 |

## Left out

- Connections, queries, `ANALYZE TABLE`, `insertMany`, `collStats`, `replSetGetStatus` and closing: database I/O. The results these calls return are parameters of the model.
- `usleep`, `setTimeout` and `process.hrtime`: clocks. The elapsed time, the per-insert average and the benchmark throughput in server.js are left out on the same grounds.
- `created_at` and `updated_at` in the generated documents: they read the clock.
- The JSON size estimate in server.js: serialization and byte counting are not modelled.
- Every `echo`, `console.log`, `number_format` and `toFixed`: output formatting.
- The version, the buffer-pool size, the collection-stats line of metrics.js and the hint lines: they are printed values only.
- `real_escape_string`: quoting for SQL.
- IEEE floating point: reals are exact here, so rounding is not captured.
- PHP's string-to-float coercion of status values: status values and counters are integers.
- PHP `$argv` includes the script name: it matches no pattern, so the model takes the argument list as given.
- MongoMetrics.ComputeRates: requires a non-zero interval. There JavaScript divides by zero into `Infinity` or `NaN`.
- JavaScript `Number()` of a non-numeric interval setting: the interval stays text in `Config`, and the rate functions take the interval in milliseconds as a number.
- MongoMetrics.Diff: an object found where a counter is expected reads as 0 here, where `Number` of an object gives `NaN` in JavaScript.
- Replication optimes: `optimeDate` values are integer milliseconds, so date parsing is not modelled.
- `catch` around the whole metrics script and `process.exit`: process-level error exits.
- The rest of the repository, such as the other insert and read scripts, the logger and the connection modules, is not part of this model.
