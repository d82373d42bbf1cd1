/** The MongoDB metrics snapshot script: its `--key=value` arguments, the
    precedence of environment, argument and default, the counters it reads by
    dotted path out of two `serverStatus` documents, the rates, the WiredTiger
    cache figures and the replication lag. Every database result is an input
    here; nothing is queried. */
module MongoMetrics {

  import opened Wrappers
  import opened Text
  import opened Throughput

  // ---------------------------------------------------------------------------
  // Command-line arguments
  // ---------------------------------------------------------------------------

  /** The characters a JavaScript `.` does not match. */
  predicate IsLineTerminator(c: char) {
    c == '\n' || c == '\r' || c == '\U{2028}' || c == '\U{2029}'
  }

  predicate NoLineTerminator(s: string) {
    forall i :: 0 <= i < |s| ==> !IsLineTerminator(s[i])
  }

  /** The key and value that `^--([^=]+)=(.+)$` captures: the key runs up to
      the first `=`, and the value is the rest, which may hold further `=`. */
  function MatchArg(a: string): (r: Option<(string, string)>)
    ensures r.Some? ==> a == "--" + r.value.0 + "=" + r.value.1
    ensures r.Some? ==> r.value.0 != [] && '=' !in r.value.0
    ensures r.Some? ==> r.value.1 != [] && NoLineTerminator(r.value.1)
  {
    if StartsWith(a, "--") then
      var rest := a[2..];
      var p := IndexOf(rest, '=');
      if 0 < p < |rest| then
        var key, value := rest[..p], rest[p + 1..];
        ArgShape(a, p);
        if value != [] && NoLineTerminator(value) then Some((key, value)) else None
      else None
    else None
  }

  /** An argument cut at its `=` is the two pieces around it. */
  lemma ArgShape(a: string, p: nat)
    requires StartsWith(a, "--") && p < |a[2..]| && a[2..][p] == '='
    ensures a == "--" + a[2..][..p] + "=" + a[2..][p + 1..]
  {
    var rest := a[2..];
    assert a == a[..2] + rest;
    assert rest == rest[..p] + [rest[p]] + rest[p + 1..];
  }

  /** Every `--key=value` with a non-empty key free of `=` and a non-empty
      single-line value is matched, the key ending at its first `=`. */
  lemma MatchArgAccepts(key: string, value: string)
    requires key != [] && '=' !in key
    requires value != [] && NoLineTerminator(value)
    ensures MatchArg("--" + key + "=" + value) == Some((key, value))
  {
    var a := "--" + key + "=" + value;
    var rest := a[2..];
    assert a[..2] == "--";
    assert rest == key + "=" + value;
    assert rest[..|key|] == key;
    IndexOfAfter(rest, key, '=');
    assert rest[|key| + 1..] == value;
  }

  /** The key of a matched argument. */
  function KeyOf(a: string): Option<string> {
    match MatchArg(a)
    case Some((k, _)) => Some(k)
    case None => None
  }

  /** Assigning an own property named `__proto__` to a plain object only
      replaces its prototype, and a string cannot be one: the assignment is
      ignored and no such key is ever recorded. */
  const ProtoKey := "__proto__"

  /** One step of the argument loop. */
  function Record(args: map<string, string>, a: string): map<string, string> {
    match MatchArg(a)
    case Some((k, v)) => if k == ProtoKey then args else args[k := v]
    case None => args
  }

  /** The arguments recorded after scanning `argv` from first to last. */
  function Parsed(argv: seq<string>): map<string, string> {
    if argv == [] then map[] else Record(Parsed(argv[..|argv| - 1]), argv[|argv| - 1])
  }

  /** The argument loop of the script. */
  method ParseArgs(argv: seq<string>) returns (args: map<string, string>)
    ensures args == Parsed(argv)
  {
    args := map[];
    for i := 0 to |argv|
      invariant args == Parsed(argv[..i])
    {
      assert argv[..i + 1][..i] == argv[..i];
      args := Record(args, argv[i]);
    }
    assert argv[..|argv|] == argv;
  }

  /** One argument adds its key, unless it is `__proto__`, and keeps all others. */
  lemma RecordKeys(args: map<string, string>, a: string, k: string)
    ensures k in Record(args, a) <==> k in args || (KeyOf(a) == Some(k) && k != ProtoKey)
  {
  }

  /** A key no argument matches with is never recorded. */
  lemma {:induction false} ParsedKeyAbsent(argv: seq<string>, k: string)
    requires forall i :: 0 <= i < |argv| ==> KeyOf(argv[i]) != Some(k)
    ensures k !in Parsed(argv)
  {
    if argv != [] {
      ParsedKeyAbsent(argv[..|argv| - 1], k);
      RecordKeys(Parsed(argv[..|argv| - 1]), argv[|argv| - 1], k);
    }
  }

  /** `--__proto__=v` is never recorded. */
  lemma {:induction false} ParsedNoProto(argv: seq<string>)
    ensures ProtoKey !in Parsed(argv)
  {
    if argv != [] {
      ParsedNoProto(argv[..|argv| - 1]);
      RecordKeys(Parsed(argv[..|argv| - 1]), argv[|argv| - 1], ProtoKey);
    }
  }

  /** The last argument with a given key decides its value. */
  lemma {:induction false} ParsedLast(argv: seq<string>, i: nat, k: string, v: string)
    requires i < |argv| && MatchArg(argv[i]) == Some((k, v)) && k != ProtoKey
    requires forall j :: i < j < |argv| ==> KeyOf(argv[j]) != Some(k)
    ensures k in Parsed(argv) && Parsed(argv)[k] == v
  {
    if i < |argv| - 1 {
      ParsedLast(argv[..|argv| - 1], i, k, v);
    }
  }

  /** No recorded value is empty, since the pattern needs one character after `=`. */
  lemma {:induction false} ParsedValuesNonEmpty(argv: seq<string>)
    ensures forall k :: k in Parsed(argv) ==> Parsed(argv)[k] != ""
  {
    if argv != [] {
      ParsedValuesNonEmpty(argv[..|argv| - 1]);
    }
  }

  // ---------------------------------------------------------------------------
  // Configuration
  // ---------------------------------------------------------------------------

  /** JavaScript's truth value of an optional string: absent and `""` are false. */
  predicate Present(m: map<string, string>, k: string) {
    k in m && m[k] != ""
  }

  /** `env[envName] || args[argName] || fallback`. */
  function Setting(env: map<string, string>, envName: string,
                   args: map<string, string>, argName: string, fallback: string): (r: string)
    ensures Present(env, envName) ==> r == env[envName]
    ensures !Present(env, envName) && Present(args, argName) ==> r == args[argName]
    ensures !Present(env, envName) && !Present(args, argName) ==> r == fallback
  {
    if Present(env, envName) then env[envName]
    else if Present(args, argName) then args[argName]
    else fallback
  }

  /** The connection target, database, collection and interval text. The
      interval's default is the number 1000, which `Number` leaves as it is, so
      it is kept here as the text `1000`. */
  datatype Config = Config(uri: string, db: string, collection: string, interval: string)

  const DefaultConfig := Config("mongodb://localhost:27017", "Testing", "tracelog", "1000")

  /** The four settings the script starts from. None of them is ever empty:
      `||` passes over an empty variable or argument, and every default is
      non-empty, so the `collName ?` test of the script always holds. */
  function LoadConfig(env: map<string, string>, argv: seq<string>): (c: Config)
    ensures c.uri != "" && c.db != "" && c.collection != "" && c.interval != ""
  {
    var args := Parsed(argv);
    ParsedValuesNonEmpty(argv);
    Config(Setting(env, "MONGODB_URI", args, "uri", DefaultConfig.uri),
           Setting(env, "MONGODB_DB", args, "db", DefaultConfig.db),
           Setting(env, "MONGODB_COLLECTION", args, "collection", DefaultConfig.collection),
           Setting(env, "INTERVAL_MS", args, "interval", DefaultConfig.interval))
  }

  /** Without the environment variables and without matching arguments, every
      setting takes its default. */
  lemma ConfigDefaults(env: map<string, string>, argv: seq<string>)
    requires !Present(env, "MONGODB_URI") && !Present(env, "MONGODB_DB")
    requires !Present(env, "MONGODB_COLLECTION") && !Present(env, "INTERVAL_MS")
    requires forall i :: 0 <= i < |argv| ==> KeyOf(argv[i]) !in {Some("uri"), Some("db"), Some("collection"), Some("interval")}
    ensures LoadConfig(env, argv) == DefaultConfig
  {
    ParsedKeyAbsent(argv, "uri");
    ParsedKeyAbsent(argv, "db");
    ParsedKeyAbsent(argv, "collection");
    ParsedKeyAbsent(argv, "interval");
  }

  /** An environment variable that is set and non-empty wins over any argument. */
  lemma ConfigEnvironmentWins(env: map<string, string>, argv: seq<string>)
    ensures Present(env, "MONGODB_URI") ==> LoadConfig(env, argv).uri == env["MONGODB_URI"]
    ensures Present(env, "MONGODB_DB") ==> LoadConfig(env, argv).db == env["MONGODB_DB"]
    ensures Present(env, "MONGODB_COLLECTION") ==> LoadConfig(env, argv).collection == env["MONGODB_COLLECTION"]
    ensures Present(env, "INTERVAL_MS") ==> LoadConfig(env, argv).interval == env["INTERVAL_MS"]
  {
  }

  /** Without the environment variable, the last argument for the key decides. */
  lemma SettingFromArgument(env: map<string, string>, envName: string, argv: seq<string>,
                            argName: string, fallback: string, i: nat, v: string)
    requires !Present(env, envName)
    requires i < |argv| && MatchArg(argv[i]) == Some((argName, v)) && argName != ProtoKey
    requires forall j :: i < j < |argv| ==> KeyOf(argv[j]) != Some(argName)
    ensures Setting(env, envName, Parsed(argv), argName, fallback) == v
  {
    ParsedLast(argv, i, argName, v);
  }

  // ---------------------------------------------------------------------------
  // Reading counters by dotted path
  // ---------------------------------------------------------------------------

  /** A `serverStatus` document: numbers and nested objects. */
  datatype Value = Num(n: int) | Obj(fields: map<string, Value>)

  /** `v?.[key]`: a missing value, or a number, has no fields. */
  function Step(v: Option<Value>, key: string): Option<Value> {
    if v.Some? && v.value.Obj? && key in v.value.fields then Some(v.value.fields[key]) else None
  }

  /** Following a list of keys, one `?.[key]` after another. */
  function Walk(v: Option<Value>, keys: seq<string>): Option<Value>
    decreases |keys|
  {
    if keys == [] then v else Walk(Step(v, keys[0]), keys[1..])
  }

  /** `Number(v || 0)`: a missing value reads as 0. */
  function Counter(v: Option<Value>): int {
    if v.Some? && v.value.Num? then v.value.n else 0
  }

  /** Once a step finds nothing, the rest of the walk finds nothing. */
  lemma {:induction false} WalkMissing(keys: seq<string>)
    ensures Walk(None, keys) == None
  {
    if keys != [] {
      WalkMissing(keys[1..]);
    }
  }

  /** JavaScript's `s.split(sep)` for a one-character separator: the pieces
      between separators, empty pieces included. */
  function Split(s: string, sep: char): (parts: seq<string>)
    ensures |parts| >= 1
    ensures forall i :: 0 <= i < |parts| ==> sep !in parts[i]
    decreases |s|
  {
    var i := IndexOf(s, sep);
    if i == |s| then [s] else [s[..i]] + Split(s[i + 1..], sep)
  }

  /** `parts.join(sep)`. */
  function Join(parts: seq<string>, sep: char): string
    requires |parts| >= 1
  {
    if |parts| == 1 then parts[0] else parts[0] + [sep] + Join(parts[1..], sep)
  }

  /** Joining the pieces of a split gives back the text. */
  lemma {:induction false} JoinSplit(s: string, sep: char)
    ensures Join(Split(s, sep), sep) == s
    decreases |s|
  {
    var i := IndexOf(s, sep);
    if i < |s| {
      var rest := Split(s[i + 1..], sep);
      var parts := [s[..i]] + rest;
      assert Split(s, sep) == parts;
      assert parts[1..] == rest;
      assert Join(parts, sep) == s[..i] + [sep] + Join(rest, sep);
      JoinSplit(s[i + 1..], sep);
      assert s == s[..i] + [sep] + s[i + 1..];
    }
  }

  /** Text cut at its first separator splits into the piece before it and the
      split of the rest. */
  lemma SplitAtFirst(s: string, head: string, tail: string, sep: char)
    requires s == head + [sep] + tail && sep !in head
    ensures Split(s, sep) == [head] + Split(tail, sep)
  {
    assert s[..|head|] == head;
    IndexOfAfter(s, head, sep);
    assert s[|head| + 1..] == tail;
  }

  /** Splitting a join of separator-free pieces gives back the pieces. */
  lemma {:induction false} SplitJoin(parts: seq<string>, sep: char)
    requires |parts| >= 1
    requires forall i :: 0 <= i < |parts| ==> sep !in parts[i]
    ensures Split(Join(parts, sep), sep) == parts
  {
    if |parts| > 1 {
      var tail := Join(parts[1..], sep);
      assert Join(parts, sep) == parts[0] + [sep] + tail;
      assert forall i :: 0 <= i < |parts| - 1 ==> parts[1..][i] == parts[i + 1];
      SplitAtFirst(Join(parts, sep), parts[0], tail, sep);
      SplitJoin(parts[1..], sep);
      assert [parts[0]] + parts[1..] == parts;
    } else {
      assert Join(parts, sep) == parts[0];
    }
  }

  /** The growth of the counter at a dotted path, as `diff` computes it. */
  function PathDelta(sA: Value, sB: Value, path: string): int {
    var keys := Split(path, '.');
    Counter(Walk(Some(sB), keys)) - Counter(Walk(Some(sA), keys))
  }

  /** `diff`: both snapshots are walked side by side, one path component at a time. */
  method Diff(sA: Value, sB: Value, path: string) returns (d: int)
    ensures d == PathDelta(sA, sB, path)
  {
    var keys := Split(path, '.');
    var a, b := Some(sA), Some(sB);
    for i := 0 to |keys|
      invariant Walk(a, keys[i..]) == Walk(Some(sA), keys)
      invariant Walk(b, keys[i..]) == Walk(Some(sB), keys)
    {
      assert keys[i..][1..] == keys[i + 1..];
      a := Step(a, keys[i]);
      b := Step(b, keys[i]);
    }
    d := Counter(b) - Counter(a);
  }

  /** A path whose first component neither snapshot has grows by 0. */
  lemma PathDeltaMissing(sA: Value, sB: Value, path: string)
    requires Step(Some(sA), Split(path, '.')[0]).None?
    requires Step(Some(sB), Split(path, '.')[0]).None?
    ensures PathDelta(sA, sB, path) == 0
  {
    WalkMissing(Split(path, '.')[1..]);
  }

  /** The dotted path `group.name`. */
  function Path(group: string, name: string): string {
    group + "." + name
  }

  /** The growth of the counter `name` inside the object `group`. */
  function LeafDelta(sA: Value, sB: Value, group: string, name: string): int {
    Counter(Step(Step(Some(sB), group), name)) - Counter(Step(Step(Some(sA), group), name))
  }

  /** Two-level paths such as `opcounters.insert`: the growth of the leaf counter. */
  lemma PathDeltaTwoLevels(sA: Value, sB: Value, group: string, name: string)
    requires '.' !in group && '.' !in name
    ensures PathDelta(sA, sB, Path(group, name)) == LeafDelta(sA, sB, group, name)
  {
    assert Join([group, name], '.') == group + "." + name;
    SplitJoin([group, name], '.');
    assert [group, name][1..] == [name];
    assert [name][1..] == [];
    assert Walk(Some(sB), [group, name]) == Walk(Step(Some(sB), group), [name]);
    assert Walk(Step(Some(sB), group), [name]) == Step(Step(Some(sB), group), name);
    assert Walk(Some(sA), [group, name]) == Walk(Step(Some(sA), group), [name]);
    assert Walk(Step(Some(sA), group), [name]) == Step(Step(Some(sA), group), name);
  }

  // ---------------------------------------------------------------------------
  // Rates
  // ---------------------------------------------------------------------------

  /** The six counters the script follows, as `diff` reads their growth;
      `Path("opcounters", "insert")` is the text `opcounters.insert`. */
  datatype Deltas = Deltas(inserts: int, queries: int, updates: int, deletes: int, bytesIn: int, bytesOut: int)

  /** Each delta is the growth of the named leaf under its group. */
  function CounterDeltas(sA: Value, sB: Value): (d: Deltas)
    ensures d.inserts == LeafDelta(sA, sB, "opcounters", "insert")
    ensures d.queries == LeafDelta(sA, sB, "opcounters", "query")
    ensures d.updates == LeafDelta(sA, sB, "opcounters", "update")
    ensures d.deletes == LeafDelta(sA, sB, "opcounters", "delete")
    ensures d.bytesIn == LeafDelta(sA, sB, "network", "bytesIn")
    ensures d.bytesOut == LeafDelta(sA, sB, "network", "bytesOut")
  {
    CounterNamesDotFree();
    PathDeltaTwoLevels(sA, sB, "opcounters", "insert");
    PathDeltaTwoLevels(sA, sB, "opcounters", "query");
    PathDeltaTwoLevels(sA, sB, "opcounters", "update");
    PathDeltaTwoLevels(sA, sB, "opcounters", "delete");
    PathDeltaTwoLevels(sA, sB, "network", "bytesIn");
    PathDeltaTwoLevels(sA, sB, "network", "bytesOut");
    Deltas(PathDelta(sA, sB, Path("opcounters", "insert")), PathDelta(sA, sB, Path("opcounters", "query")),
           PathDelta(sA, sB, Path("opcounters", "update")), PathDelta(sA, sB, Path("opcounters", "delete")),
           PathDelta(sA, sB, Path("network", "bytesIn")), PathDelta(sA, sB, Path("network", "bytesOut")))
  }

  lemma CounterNamesDotFree()
    ensures '.' !in "opcounters" && '.' !in "network"
    ensures '.' !in "insert" && '.' !in "query" && '.' !in "update" && '.' !in "delete"
    ensures '.' !in "bytesIn" && '.' !in "bytesOut"
  {
  }

  datatype OpRates = OpRates(
    insertsPS: real, queriesPS: real, updatesPS: real, deletesPS: real,
    bytesInMBps: real, bytesOutMBps: real)

  /** The operation and network rates over an interval of `intervalMs` milliseconds. */
  function ComputeRates(d: Deltas, intervalMs: real): (r: OpRates)
    requires intervalMs != 0.0
    ensures r.insertsPS * (intervalMs / 1000.0) == d.inserts as real
    ensures r.queriesPS * (intervalMs / 1000.0) == d.queries as real
    ensures r.updatesPS * (intervalMs / 1000.0) == d.updates as real
    ensures r.deletesPS * (intervalMs / 1000.0) == d.deletes as real
    ensures r.bytesInMBps * MiB * (intervalMs / 1000.0) == d.bytesIn as real
    ensures r.bytesOutMBps * MiB * (intervalMs / 1000.0) == d.bytesOut as real
  {
    var secs := intervalMs / 1000.0;
    OpRates(PerSecond(d.inserts as real, secs), PerSecond(d.queries as real, secs),
            PerSecond(d.updates as real, secs), PerSecond(d.deletes as real, secs),
            MebibytesPerSecond(d.bytesIn as real, secs), MebibytesPerSecond(d.bytesOut as real, secs))
  }

  /** 50 more inserts over five seconds are 10 inserts per second. */
  lemma InsertRateExample(d: Deltas)
    requires d.inserts == 50
    ensures ComputeRates(d, 5000.0).insertsPS == 10.0
  {
    assert 5000.0 / 1000.0 == 5.0;
    assert ComputeRates(d, 5000.0).insertsPS == PerSecond(50.0, 5.0) == 10.0;
  }

  // ---------------------------------------------------------------------------
  // WiredTiger cache
  // ---------------------------------------------------------------------------

  /** `s.wiredTiger?.cache?.[field]`, read as a counter. */
  function CacheCounter(s: Value, field: string): int {
    Counter(Walk(Some(s), ["wiredTiger", "cache", field]))
  }

  const MaxBytes := "maximum bytes configured"
  const CurBytes := "bytes currently in the cache"
  const PagesEvicted := "pages evicted"

  datatype CacheStats = CacheStats(pct: Option<real>, evictedDelta: int)

  /** The cache fill level of the second snapshot and the evictions between the two. */
  function Cache(sA: Value, sB: Value): (c: CacheStats)
    ensures c.pct.None? <==> CacheCounter(sB, MaxBytes) == 0
    ensures c.pct.Some? ==> c.pct.value * CacheCounter(sB, MaxBytes) as real == CacheCounter(sB, CurBytes) as real * 100.0
    ensures (0 <= CacheCounter(sB, CurBytes) <= CacheCounter(sB, MaxBytes) && c.pct.Some?)
              ==> 0.0 <= c.pct.value <= 100.0
    ensures c.evictedDelta == CacheCounter(sB, PagesEvicted) - CacheCounter(sA, PagesEvicted)
  {
    var maxCache := CacheCounter(sB, MaxBytes);
    var curCache := CacheCounter(sB, CurBytes);
    var pct := if maxCache != 0 then Some(Percent(curCache as real, maxCache as real)) else None;
    CacheStats(pct, CacheCounter(sB, PagesEvicted) - CacheCounter(sA, PagesEvicted))
  }

  /** `part / whole * 100`. */
  function Percent(part: real, whole: real): (p: real)
    requires whole != 0.0
    ensures p * whole == part * 100.0
    ensures 0.0 <= part <= whole ==> 0.0 <= p <= 100.0
  {
    var q := part / whole;
    assert q * whole == part;
    q * 100.0
  }

  /** A snapshot without a `wiredTiger` section reads every cache counter as 0,
      so its cache percentage is null. */
  lemma CacheMissing(sA: Value, sB: Value, field: string)
    requires Step(Some(sB), "wiredTiger").None?
    ensures CacheCounter(sB, field) == 0
    ensures Cache(sA, sB).pct.None?
  {
    WalkMissing(["cache", field]);
    WalkMissing(["cache", MaxBytes]);
  }

  // ---------------------------------------------------------------------------
  // Replication lag
  // ---------------------------------------------------------------------------

  /** A replica-set member of `replSetGetStatus`, its optime in milliseconds. */
  datatype Member = Member(stateStr: string, optimeMs: int)

  /** The outcome of `replSetGetStatus`: it fails on a server that is not part
      of a replica set. */
  datatype ReplStatus = CommandFailed | ReplSet(members: seq<Member>)

  predicate IsPrimary(m: Member) {
    m.stateStr == "PRIMARY"
  }

  predicate IsSecondary(m: Member) {
    m.stateStr == "SECONDARY"
  }

  /** `members.find(m => m.stateStr === 'PRIMARY')`, as a position
      (`|members|` when there is none). */
  function FirstPrimary(members: seq<Member>): (i: nat)
    ensures i <= |members|
    ensures i < |members| ==> IsPrimary(members[i])
    ensures forall j :: 0 <= j < i ==> !IsPrimary(members[j])
  {
    if members == [] then 0
    else if IsPrimary(members[0]) then 0
    else 1 + FirstPrimary(members[1..])
  }

  /** How far `m` is behind `primary`, in seconds. */
  function Lag(primary: Member, m: Member): (l: real)
    ensures l * 1000.0 == (primary.optimeMs - m.optimeMs) as real
    ensures m.optimeMs <= primary.optimeMs ==> l >= 0.0
  {
    (primary.optimeMs - m.optimeMs) as real / 1000.0
  }

  /** The lag of every SECONDARY member, in member order. */
  function SecondaryLags(members: seq<Member>, primary: Member): (lags: seq<real>)
    ensures lags == [] <==> forall i :: 0 <= i < |members| ==> !IsSecondary(members[i])
    ensures forall j :: 0 <= j < |lags| ==>
              exists i :: 0 <= i < |members| && IsSecondary(members[i]) && lags[j] == Lag(primary, members[i])
    ensures forall i :: 0 <= i < |members| && IsSecondary(members[i]) ==> Lag(primary, members[i]) in lags
  {
    if members == [] then []
    else
      var rest := SecondaryLags(members[1..], primary);
      assert forall i :: 1 <= i < |members| ==> members[i] == members[1..][i - 1];
      if IsSecondary(members[0]) then [Lag(primary, members[0])] + rest else rest
  }

  /** `Math.max(...xs)` of a non-empty list. */
  function MaxOf(xs: seq<real>): (m: real)
    requires |xs| > 0
    ensures m in xs
    ensures forall j :: 0 <= j < |xs| ==> xs[j] <= m
  {
    if |xs| == 1 then xs[0]
    else
      var rest := MaxOf(xs[1..]);
      assert forall j :: 1 <= j < |xs| ==> xs[j] == xs[1..][j - 1];
      if xs[0] >= rest then xs[0] else rest
  }

  /** The replication max lag in seconds, null when the status command fails,
      when no member is PRIMARY, or when no member is SECONDARY. */
  function ReplLag(st: ReplStatus): (r: Option<real>)
    ensures st.CommandFailed? ==> r.None?
    ensures st.ReplSet? && (forall i :: 0 <= i < |st.members| ==> !IsPrimary(st.members[i])) ==> r.None?
    ensures st.ReplSet? && (forall i :: 0 <= i < |st.members| ==> !IsSecondary(st.members[i])) ==> r.None?
    ensures r.Some? ==> st.ReplSet? && FirstPrimary(st.members) < |st.members|
  {
    match st
    case CommandFailed => None
    case ReplSet(members) =>
      var p := FirstPrimary(members);
      if p < |members| then
        var lags := SecondaryLags(members, members[p]);
        if |lags| > 0 then Some(MaxOf(lags)) else None
      else None
  }

  /** With a PRIMARY and a SECONDARY, the lag is the maximum of the secondary
      lags behind the first PRIMARY. */
  lemma ReplLagOfMembers(members: seq<Member>, s: nat)
    requires s < |members| && IsSecondary(members[s])
    requires FirstPrimary(members) < |members|
    ensures var lags := SecondaryLags(members, members[FirstPrimary(members)]);
            |lags| > 0 && ReplLag(ReplSet(members)) == Some(MaxOf(lags))
  {
    assert Lag(members[FirstPrimary(members)], members[s]) in SecondaryLags(members, members[FirstPrimary(members)]);
  }

  /** With a PRIMARY and at least one SECONDARY, the lag is the largest lag of
      a SECONDARY behind the first PRIMARY, and some SECONDARY has exactly it. */
  lemma ReplLagIsMaximum(members: seq<Member>, s: nat)
    requires s < |members| && IsSecondary(members[s])
    requires FirstPrimary(members) < |members|
    ensures var primary := members[FirstPrimary(members)];
            && ReplLag(ReplSet(members)).Some?
            && (forall i :: 0 <= i < |members| && IsSecondary(members[i])
                  ==> Lag(primary, members[i]) <= ReplLag(ReplSet(members)).value)
            && (exists i :: 0 <= i < |members| && IsSecondary(members[i])
                  && ReplLag(ReplSet(members)).value == Lag(primary, members[i]))
  {
    var primary := members[FirstPrimary(members)];
    var lags := SecondaryLags(members, primary);
    ReplLagOfMembers(members, s);
    var m := MaxOf(lags);
    forall i | 0 <= i < |members| && IsSecondary(members[i]) ensures Lag(primary, members[i]) <= m {
      var j :| 0 <= j < |lags| && lags[j] == Lag(primary, members[i]);
    }
    var j :| 0 <= j < |lags| && lags[j] == m;
  }

  /** A member that is neither PRIMARY nor SECONDARY, wherever it stands in
      the member list, plays no part. */
  lemma ReplLagIgnoresOthers(a: seq<Member>, other: Member, b: seq<Member>)
    requires !IsPrimary(other) && !IsSecondary(other)
    ensures ReplLag(ReplSet(a + [other] + b)) == ReplLag(ReplSet(a + b))
  {
    var all, rest := a + [other] + b, a + b;
    FirstPrimaryInsert(a, other, b);
    var p := FirstPrimary(rest);
    if p < |a| {
      assert all[p] == rest[p];
    } else if p < |rest| {
      assert all[p + 1] == rest[p];
    }
    if p < |rest| {
      SecondaryLagsInsert(a, other, b, rest[p]);
    }
  }

  /** Inserting a non-primary before the first PRIMARY moves that member one
      place on; inserting it after leaves the position as it was. */
  lemma {:induction false} FirstPrimaryInsert(a: seq<Member>, other: Member, b: seq<Member>)
    requires !IsPrimary(other)
    ensures FirstPrimary(a + b) < |a| ==> FirstPrimary(a + [other] + b) == FirstPrimary(a + b)
    ensures FirstPrimary(a + b) >= |a| ==> FirstPrimary(a + [other] + b) == FirstPrimary(a + b) + 1
  {
    if a == [] {
      assert a + [other] + b == [other] + b && ([other] + b)[1..] == b && a + b == b;
    } else {
      assert (a + [other] + b)[1..] == a[1..] + [other] + b;
      assert (a + b)[1..] == a[1..] + b;
      FirstPrimaryInsert(a[1..], other, b);
    }
  }

  /** Inserting a non-secondary adds no lag. */
  lemma {:induction false} SecondaryLagsInsert(a: seq<Member>, other: Member, b: seq<Member>, primary: Member)
    requires !IsSecondary(other)
    ensures SecondaryLags(a + [other] + b, primary) == SecondaryLags(a + b, primary)
  {
    if a == [] {
      assert a + [other] + b == [other] + b && ([other] + b)[1..] == b && a + b == b;
    } else {
      assert (a + [other] + b)[1..] == a[1..] + [other] + b;
      assert (a + b)[1..] == a[1..] + b;
      SecondaryLagsInsert(a[1..], other, b, primary);
    }
  }

  /** When every SECONDARY shares the first PRIMARY's optime, the lag is 0. */
  lemma ReplLagInSync(members: seq<Member>, s: nat)
    requires s < |members| && IsSecondary(members[s])
    requires FirstPrimary(members) < |members|
    requires forall i :: 0 <= i < |members| && IsSecondary(members[i])
               ==> members[i].optimeMs == members[FirstPrimary(members)].optimeMs
    ensures ReplLag(ReplSet(members)) == Some(0.0)
  {
    var primary := members[FirstPrimary(members)];
    var lags := SecondaryLags(members, primary);
    ReplLagOfMembers(members, s);
    var j :| 0 <= j < |lags| && lags[j] == MaxOf(lags);
    var i :| 0 <= i < |members| && IsSecondary(members[i]) && lags[j] == Lag(primary, members[i]);
    LagOfEqual(primary, members[i]);
  }

  lemma LagOfEqual(primary: Member, m: Member)
    requires primary.optimeMs == m.optimeMs
    ensures Lag(primary, m) == 0.0
  {
  }

}
