/** The MySQL metrics snapshot script: its command-line options, the maps its
    status queries fill, and the rates and ratios it derives from two
    `SHOW GLOBAL STATUS` readings taken an interval apart. Every database
    result is an input here; nothing is queried. */
module MysqlMetrics {

  import opened Wrappers
  import opened Text
  import opened Throughput

  // ---------------------------------------------------------------------------
  // Command-line options
  // ---------------------------------------------------------------------------

  datatype Args = Args(table: string, interval: real, analyze: bool)

  /** The options before any argument is read. */
  const Defaults := Args("tracelog", 1.0, false)

  const TablePrefix := "--table="
  const IntervalPrefix := "--interval="
  const AnalyzeFlag := "--analyze"

  /** What a PCRE pattern ending in `(...)$` (no `D` modifier) can capture of `s`:
      `$` also matches just before one final newline, which is then not captured. */
  function LineBody(s: string): (body: string)
    ensures s == body || s == body + "\n"
    ensures |s| > 0 && s[|s| - 1] == '\n' ==> s == body + "\n"
  {
    if |s| > 0 && s[|s| - 1] == '\n' then s[..|s| - 1] else s
  }

  /** The text `(.+)` captures in `^--table=(.+)$`: at least one character, and
      no newline, since PCRE's `.` does not match one. */
  function TableCapture(arg: string): (r: Option<string>)
    ensures r.Some? ==> r.value != [] && '\n' !in r.value
    ensures r.Some? ==> arg == TablePrefix + r.value || arg == TablePrefix + r.value + "\n"
  {
    if StartsWith(arg, TablePrefix) then
      var body := LineBody(arg[|TablePrefix|..]);
      assert arg == arg[..|TablePrefix|] + arg[|TablePrefix|..];
      if body != [] && '\n' !in body then Some(body) else None
    else None
  }

  /** The number a text of the form `\d+(?:\.\d+)?` denotes, and `None` for any
      other text. */
  function DecimalText(s: string): (r: Option<real>)
    ensures r.Some? ==> r.value >= 0.0
  {
    var p := IndexOf(s, '.');
    if p == |s| then
      if |s| > 0 && AllDigits(s) then Some(Value(s) as real) else None
    else
      var whole, frac := s[..p], s[p + 1..];
      if |whole| > 0 && AllDigits(whole) && |frac| > 0 && AllDigits(frac) then
        Some(DecimalValue(whole, frac))
      else None
  }

  /** The number `whole.frac` denotes. */
  function DecimalValue(whole: string, frac: string): (v: real)
    requires AllDigits(whole) && AllDigits(frac)
    ensures Value(whole) as real <= v < Value(whole) as real + 1.0
  {
    ValueBound(frac);
    FractionBounds(Value(frac) as real, Pow10(|frac|) as real);
    Value(whole) as real + Value(frac) as real / Pow10(|frac|) as real
  }

  lemma FractionBounds(x: real, y: real)
    requires 0.0 <= x < y
    ensures 0.0 <= x / y < 1.0
  {
    var q := x / y;
    assert q * y == x;
  }

  /** Only texts of the form `\d+(?:\.\d+)?` are accepted: a digit first and last,
      nothing but digits and dots, and at most one dot. */
  lemma DecimalTextShape(s: string)
    requires DecimalText(s).Some?
    ensures |s| > 0 && IsDigit(s[0]) && IsDigit(s[|s| - 1])
    ensures forall i :: 0 <= i < |s| ==> IsDigit(s[i]) || s[i] == '.'
    ensures forall i, j :: 0 <= i < j < |s| && s[i] == '.' ==> s[j] != '.'
  {
    var p := IndexOf(s, '.');
    if p < |s| {
      var whole, frac := s[..p], s[p + 1..];
      assert forall i :: p < i < |s| ==> s[i] == frac[i - p - 1];
      assert forall i :: 0 <= i < p ==> s[i] == whole[i];
    }
  }

  /** The value `(float)` gives the text captured by `^--interval=(\d+(?:\.\d+)?)$`. */
  function IntervalCapture(arg: string): (r: Option<real>)
    ensures r.Some? ==> StartsWith(arg, IntervalPrefix)
    ensures r.Some? ==> r.value >= 0.0
  {
    if StartsWith(arg, IntervalPrefix) then DecimalText(LineBody(arg[|IntervalPrefix|..])) else None
  }

  predicate Recognised(arg: string) {
    TableCapture(arg).Some? || IntervalCapture(arg).Some? || arg == AnalyzeFlag
  }

  /** One step of the scan: the first pattern that matches decides. */
  function ApplyArg(args: Args, arg: string): Args {
    match TableCapture(arg)
    case Some(t) => args.(table := t)
    case None =>
      match IntervalCapture(arg)
      case Some(v) => args.(interval := v)
      case None => if arg == AnalyzeFlag then args.(analyze := true) else args
  }

  /** The options after scanning `argv` from first to last. */
  function Parsed(argv: seq<string>): Args {
    if argv == [] then Defaults else ApplyArg(Parsed(argv[..|argv| - 1]), argv[|argv| - 1])
  }

  /** The argument loop of the script. */
  method ParseArgs(argv: seq<string>) returns (args: Args)
    ensures args == Parsed(argv)
  {
    args := Defaults;
    var i := 0;
    while i < |argv|
      invariant 0 <= i <= |argv|
      invariant args == Parsed(argv[..i])
    {
      assert argv[..i + 1][..i] == argv[..i];
      args := ApplyArg(args, argv[i]);
      i := i + 1;
    }
    assert argv[..i] == argv;
  }

  // ---------------------------------------------------------------------------
  // What the options accept
  // ---------------------------------------------------------------------------

  /** Every non-empty table name without a newline is accepted, with or
      without one trailing newline. */
  lemma TableCaptureAccepts(t: string)
    requires t != [] && '\n' !in t
    ensures TableCapture(TablePrefix + t) == Some(t)
    ensures TableCapture(TablePrefix + t + "\n") == Some(t)
  {
    var a, b := TablePrefix + t, TablePrefix + t + "\n";
    assert a[..|TablePrefix|] == TablePrefix && a[|TablePrefix|..] == t;
    assert b[..|TablePrefix|] == TablePrefix && b[|TablePrefix|..] == t + "\n";
    assert (t + "\n")[..|t|] == t;
  }

  /** A non-empty digit string is accepted by the interval pattern, with the
      number it denotes. */
  lemma DecimalTextAcceptsWhole(whole: string)
    requires |whole| > 0 && AllDigits(whole)
    ensures DecimalText(whole) == Some(Value(whole) as real)
  {
    NoDotInDigits(whole);
  }

  /** Two non-empty digit strings joined by a dot are accepted by the interval
      pattern, with the decimal number they denote. */
  lemma DecimalTextAcceptsFraction(whole: string, frac: string)
    requires |whole| > 0 && AllDigits(whole) && |frac| > 0 && AllDigits(frac)
    ensures DecimalText(whole + "." + frac) == Some(DecimalValue(whole, frac))
  {
    var s := whole + "." + frac;
    NoDotInDigits(whole);
    assert s[..|whole|] == whole;
    IndexOfAfter(s, whole, '.');
    var p := IndexOf(s, '.');
    assert p == |whole| && p < |s|;
    var w, f := s[..p], s[p + 1..];
    assert w == whole;
    assert f == frac;
  }

  lemma NoDotInDigits(s: string)
    requires AllDigits(s)
    ensures '.' !in s
  {
    forall i | 0 <= i < |s| ensures s[i] != '.' {
      assert IsDigit(s[i]);
    }
  }

  /** An accepted interval text is captured after `--interval=`, with or
      without one final newline. */
  lemma IntervalCaptureAccepts(text: string)
    requires DecimalText(text).Some?
    ensures IntervalCapture(IntervalPrefix + text) == DecimalText(text)
    ensures IntervalCapture(IntervalPrefix + text + "\n") == DecimalText(text)
  {
    DecimalTextShape(text);
    LineBodyOfLine(text);
    AfterPrefix(IntervalPrefix, text);
    AfterPrefix(IntervalPrefix, text + "\n");
    assert IntervalPrefix + text + "\n" == IntervalPrefix + (text + "\n");
  }

  /** A text that does not end in a newline is its own body, with or without
      one newline added. */
  lemma LineBodyOfLine(text: string)
    requires |text| > 0 && text[|text| - 1] != '\n'
    ensures LineBody(text) == text
    ensures LineBody(text + "\n") == text
  {
    assert (text + "\n")[..|text|] == text;
  }

  /** No argument starts with both `--table=` and `--interval=`. */
  lemma PrefixesDisjoint(arg: string)
    ensures StartsWith(arg, TablePrefix) ==> !StartsWith(arg, IntervalPrefix)
  {
    if StartsWith(arg, TablePrefix) && |IntervalPrefix| <= |arg| {
      assert arg[2] == TablePrefix[2] == 't';
      assert arg[..|IntervalPrefix|][2] == 't' != IntervalPrefix[2];
    }
  }

  /** One argument sets the table exactly when the table pattern matches it. */
  lemma ApplyArgTable(args: Args, arg: string)
    ensures ApplyArg(args, arg).table == if TableCapture(arg).Some? then TableCapture(arg).value else args.table
  {
  }

  /** One argument sets the interval exactly when the interval pattern matches
      it: no argument matches both patterns. */
  lemma ApplyArgInterval(args: Args, arg: string)
    ensures ApplyArg(args, arg).interval
      == (if IntervalCapture(arg).Some? then IntervalCapture(arg).value else args.interval)
  {
    PrefixesDisjoint(arg);
  }

  /** One argument sets the analyze flag exactly when it is `--analyze`, which
      neither pattern matches. */
  lemma ApplyArgAnalyze(args: Args, arg: string)
    ensures ApplyArg(args, arg).analyze == (args.analyze || arg == AnalyzeFlag)
  {
    if arg == AnalyzeFlag {
      assert AnalyzeFlag[..|TablePrefix|][2] == 'a' != TablePrefix[2];
      assert |AnalyzeFlag| < |IntervalPrefix|;
    }
  }

  // ---------------------------------------------------------------------------
  // What the scan produces
  // ---------------------------------------------------------------------------

  /** With no `--table=` match, the table stays `tracelog`. */
  lemma {:induction false} ParsedTableDefault(argv: seq<string>)
    requires forall k :: 0 <= k < |argv| ==> TableCapture(argv[k]).None?
    ensures Parsed(argv).table == "tracelog"
  {
    if argv != [] {
      var init := argv[..|argv| - 1];
      ParsedTableDefault(init);
      ApplyArgTable(Parsed(init), argv[|argv| - 1]);
    }
  }

  /** The last `--table=` match sets the table. */
  lemma {:induction false} ParsedTableLast(argv: seq<string>, k: nat, t: string)
    requires k < |argv| && TableCapture(argv[k]) == Some(t)
    requires forall j :: k < j < |argv| ==> TableCapture(argv[j]).None?
    ensures Parsed(argv).table == t
  {
    var init := argv[..|argv| - 1];
    ApplyArgTable(Parsed(init), argv[|argv| - 1]);
    if k < |argv| - 1 {
      assert forall j :: 0 <= j < |init| ==> init[j] == argv[j];
      ParsedTableLast(init, k, t);
    }
  }

  /** With no accepted `--interval=`, the interval stays 1.0. */
  lemma {:induction false} ParsedIntervalDefault(argv: seq<string>)
    requires forall k :: 0 <= k < |argv| ==> IntervalCapture(argv[k]).None?
    ensures Parsed(argv).interval == 1.0
  {
    if argv != [] {
      var init := argv[..|argv| - 1];
      ParsedIntervalDefault(init);
      ApplyArgInterval(Parsed(init), argv[|argv| - 1]);
    }
  }

  /** The last accepted `--interval=` sets the interval. */
  lemma {:induction false} ParsedIntervalLast(argv: seq<string>, k: nat, v: real)
    requires k < |argv| && IntervalCapture(argv[k]) == Some(v)
    requires forall j :: k < j < |argv| ==> IntervalCapture(argv[j]).None?
    ensures Parsed(argv).interval == v
  {
    var init := argv[..|argv| - 1];
    ApplyArgInterval(Parsed(init), argv[|argv| - 1]);
    if k < |argv| - 1 {
      assert forall j :: 0 <= j < |init| ==> init[j] == argv[j];
      ParsedIntervalLast(init, k, v);
    }
  }

  /** `analyze` is on exactly when the exact token `--analyze` occurs. */
  lemma {:induction false} ParsedAnalyze(argv: seq<string>)
    ensures Parsed(argv).analyze <==> AnalyzeFlag in argv
  {
    if argv != [] {
      var init := argv[..|argv| - 1];
      ParsedAnalyze(init);
      ApplyArgAnalyze(Parsed(init), argv[|argv| - 1]);
      assert argv == init + [argv[|argv| - 1]];
    }
  }

  /** An argument no pattern recognises, appended after any arguments, changes nothing. */
  lemma UnrecognisedIgnored(argv: seq<string>, arg: string)
    requires !Recognised(arg)
    ensures Parsed(argv + [arg]) == Parsed(argv)
  {
    assert (argv + [arg])[..|argv|] == argv;
  }

  /** With no recognised argument the options are exactly the defaults. */
  lemma {:induction false} ParsedNoneRecognised(argv: seq<string>)
    requires forall k :: 0 <= k < |argv| ==> !Recognised(argv[k])
    ensures Parsed(argv) == Defaults
  {
    if argv != [] {
      ParsedNoneRecognised(argv[..|argv| - 1]);
    }
  }

  // ---------------------------------------------------------------------------
  // Interval, ANALYZE and the table report
  // ---------------------------------------------------------------------------

  /** The sampling interval actually used, in seconds: never below half a second. */
  function EffectiveInterval(args: Args): (r: real)
    ensures r >= 0.5
    ensures r >= args.interval
    ensures r == args.interval || r == 0.5
  {
    if args.interval >= 0.5 then args.interval else 0.5
  }

  /** PHP's truth value of a string: `""` and `"0"` are false. */
  predicate PhpTruthy(s: string) {
    s != "" && s != "0"
  }

  /** Whether the script runs `ANALYZE TABLE` before sampling. */
  predicate RunsAnalyze(args: Args)
    ensures RunsAnalyze(args) ==> ReportsTable(args)
  {
    args.analyze && PhpTruthy(args.table)
  }

  /** Whether the script prints the per-table line. */
  predicate ReportsTable(args: Args) {
    PhpTruthy(args.table)
  }

  /** Without a `--table=` match the table is `tracelog`, which PHP treats as
      true: `--analyze` alone is enough to run ANALYZE, and the table line is
      always printed. */
  lemma AnalyzeDecision(argv: seq<string>)
    requires forall k :: 0 <= k < |argv| ==> TableCapture(argv[k]).None?
    ensures ReportsTable(Parsed(argv))
    ensures RunsAnalyze(Parsed(argv)) <==> AnalyzeFlag in argv
  {
    ParsedTableDefault(argv);
    ParsedAnalyze(argv);
  }

  /** A table named `0`, given last, is false to PHP: no ANALYZE and no table
      line, whatever came before. */
  lemma TableZeroSwitchesOff(argv: seq<string>)
    ensures !ReportsTable(Parsed(argv + [TablePrefix + "0"]))
    ensures !RunsAnalyze(Parsed(argv + [TablePrefix + "0"]))
  {
    var arg := TablePrefix + "0";
    TableCaptureAccepts("0");
    assert (argv + [arg])[..|argv|] == argv;
    ApplyArgTable(Parsed(argv), arg);
  }

  // ---------------------------------------------------------------------------
  // Status maps
  // ---------------------------------------------------------------------------

  /** One row of `SHOW GLOBAL STATUS` or `SHOW VARIABLES`. */
  datatype StatusRow = StatusRow(name: string, value: int)

  /** A status reading: counter name to value. */
  type Snapshot = map<string, int>

  /** The fetch loop of `showStatus` and `showVars`: every name that occurs is a
      key, and a later row for the same name overwrites an earlier one. */
  method CollectStatus(rows: seq<StatusRow>) returns (out: Snapshot)
    ensures forall k :: k in out <==> exists i :: 0 <= i < |rows| && rows[i].name == k
    ensures forall i :: 0 <= i < |rows| && (forall j :: i < j < |rows| ==> rows[j].name != rows[i].name)
              ==> out[rows[i].name] == rows[i].value
  {
    out := map[];
    var n := 0;
    while n < |rows|
      invariant 0 <= n <= |rows|
      invariant forall k :: k in out <==> exists i :: 0 <= i < n && rows[i].name == k
      invariant forall i :: 0 <= i < n && (forall j :: i < j < n ==> rows[j].name != rows[i].name)
                  ==> out[rows[i].name] == rows[i].value
    {
      out := out[rows[n].name := rows[n].value];
      n := n + 1;
    }
  }

  /** `$m[$k] ?? 0`: an absent counter reads as 0. */
  function Read(m: map<string, int>, k: string): int {
    if k in m then m[k] else 0
  }

  /** `delta`: how much counter `k` grew from reading `a` to reading `b`. */
  function Delta(b: Snapshot, a: Snapshot, k: string): (d: int)
    ensures k !in b && k !in a ==> d == 0
  {
    Read(b, k) - Read(a, k)
  }

  /** The delta when the counter is present in one or both readings. */
  lemma DeltaCases(b: Snapshot, a: Snapshot, k: string)
    ensures k in b && k in a ==> Delta(b, a, k) == b[k] - a[k]
    ensures k in b && k !in a ==> Delta(b, a, k) == b[k]
    ensures k !in b && k in a ==> Delta(b, a, k) == -a[k]
  {
  }

  // ---------------------------------------------------------------------------
  // Derived metrics
  // ---------------------------------------------------------------------------

  datatype Rates = Rates(qps: real, tps: real, sentMBps: real, recvMBps: real)

  /** Queries and write statements per second, and bytes per second in MiB,
      over an interval of `interval` seconds. */
  function ComputeRates(b: Snapshot, a: Snapshot, interval: real): (r: Rates)
    requires interval >= 0.5
    ensures r.qps * interval == Delta(b, a, "Queries") as real
    ensures r.tps * interval
      == (Delta(b, a, "Com_insert") + Delta(b, a, "Com_update") + Delta(b, a, "Com_delete")) as real
    ensures r.sentMBps * MiB * interval == Delta(b, a, "Bytes_sent") as real
    ensures r.recvMBps * MiB * interval == Delta(b, a, "Bytes_received") as real
  {
    Rates(
      PerSecond(Delta(b, a, "Queries") as real, interval),
      PerSecond((Delta(b, a, "Com_insert") + Delta(b, a, "Com_update") + Delta(b, a, "Com_delete")) as real, interval),
      MebibytesPerSecond(Delta(b, a, "Bytes_sent") as real, interval),
      MebibytesPerSecond(Delta(b, a, "Bytes_received") as real, interval))
  }

  /** The buffer-pool hit ratio from the growth of physical reads and of read
      requests: undefined without read requests, otherwise clamped to [0, 1]. */
  function HitRatio(diskReads: int, requests: int): (r: Option<real>)
    ensures r.None? <==> requests <= 0
    ensures r.Some? ==> 0.0 <= r.value <= 1.0
    ensures requests > 0 && 0 <= diskReads <= requests ==> r == Some(1.0 - diskReads as real / requests as real)
    ensures requests > 0 && diskReads > requests ==> r == Some(0.0)
    ensures requests > 0 && diskReads < 0 ==> r == Some(1.0)
  {
    if requests > 0 then
      var x := 1.0 - diskReads as real / requests as real;
      Some(if x < 0.0 then 0.0 else if x > 1.0 then 1.0 else x)
    else None
  }

  /** `dbTotals`: data and index size in MiB and row count of the schema. */
  datatype Totals = Totals(dataMB: real, indexMB: real, rows: int)

  /** The totals from the one row of the `information_schema` sum; a column that
      is absent (SQL `NULL`) reads as 0. */
  function DbTotals(row: map<string, int>): (t: Totals)
    ensures t.dataMB * MiB == Read(row, "dl") as real
    ensures t.indexMB * MiB == Read(row, "il") as real
    ensures t.rows == Read(row, "rows_count")
    ensures "dl" !in row ==> t.dataMB == 0.0
    ensures "il" !in row ==> t.indexMB == 0.0
    ensures "rows_count" !in row ==> t.rows == 0
  {
    Totals(Read(row, "dl") as real / 1024.0 / 1024.0,
           Read(row, "il") as real / 1024.0 / 1024.0,
           Read(row, "rows_count"))
  }

  /** The figures of the per-table line. */
  datatype TableFigures = TableFigures(dataMB: real, indexMB: real, rows: int, avgRowKB: real)

  /** The table line from `SHOW TABLE STATUS` (`None` when the query failed or
      found no table): a missing field reads as 0, and the average row size is
      reported only for a table with rows. */
  function TableLine(ts: Option<map<string, int>>): (f: TableFigures)
    ensures ts.None? ==> f == TableFigures(0.0, 0.0, 0, 0.0)
    ensures f.rows <= 0 ==> f.avgRowKB == 0.0
    ensures ts.Some? && f.rows > 0 ==> f.avgRowKB * 1024.0 == Read(ts.value, "Avg_row_length") as real
    ensures ts.Some? ==> f.rows == Read(ts.value, "Rows")
    ensures ts.Some? ==> f.dataMB * MiB == Read(ts.value, "Data_length") as real
    ensures ts.Some? ==> f.indexMB * MiB == Read(ts.value, "Index_length") as real
  {
    var m := if ts.Some? then ts.value else map[];
    var rows := Read(m, "Rows");
    TableFigures(Read(m, "Data_length") as real / 1024.0 / 1024.0,
                 Read(m, "Index_length") as real / 1024.0 / 1024.0,
                 rows,
                 if rows > 0 then Read(m, "Avg_row_length") as real / 1024.0 else 0.0)
  }

  /** Everything the script derives from its two status readings. */
  datatype Report = Report(
    interval: real,
    rates: Rates,
    hitRatio: Option<real>,
    threadsRunning: int,
    threadsConnected: int)

  function Derive(args: Args, statusA: Snapshot, statusB: Snapshot): (r: Report)
    ensures r.interval >= 0.5
    ensures r.interval == EffectiveInterval(args) && r.rates == ComputeRates(statusB, statusA, r.interval)
    ensures r.hitRatio == HitRatio(Delta(statusB, statusA, "Innodb_buffer_pool_reads"),
                                   Delta(statusB, statusA, "Innodb_buffer_pool_read_requests"))
    ensures r.hitRatio.None? <==> Delta(statusB, statusA, "Innodb_buffer_pool_read_requests") <= 0
    ensures r.hitRatio.Some? ==> 0.0 <= r.hitRatio.value <= 1.0
    ensures r.threadsRunning == Read(statusB, "Threads_running")
    ensures r.threadsConnected == Read(statusB, "Threads_connected")
  {
    var interval := EffectiveInterval(args);
    var rates := ComputeRates(statusB, statusA, interval);
    var hit := HitRatio(Delta(statusB, statusA, "Innodb_buffer_pool_reads"),
                        Delta(statusB, statusA, "Innodb_buffer_pool_read_requests"));
    Report(interval, rates, hit, Read(statusB, "Threads_running"), Read(statusB, "Threads_connected"))
  }

  /** A short sample: 100 queries and 30 write statements in a clamped
      half-second interval, 10 of 1000 read requests served from disk. */
  lemma DeriveExample()
    ensures var r := Derive(Args("tracelog", 0.2, false),
                            map["Queries" := 900, "Com_insert" := 5,
                                "Innodb_buffer_pool_reads" := 0, "Innodb_buffer_pool_read_requests" := 0],
                            map["Queries" := 1000, "Com_insert" := 25, "Com_update" := 10,
                                "Innodb_buffer_pool_reads" := 10, "Innodb_buffer_pool_read_requests" := 1000]);
            r.interval == 0.5 && r.rates.qps == 200.0 && r.rates.tps == 60.0
            && r.hitRatio == Some(0.99) && r.threadsRunning == 0
  {
  }

}
