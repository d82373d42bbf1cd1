/** The MongoDB insert benchmark: it builds `total` synthetic log documents,
    numbered from 1, and hands them to `insertMany` in consecutive batches of
    `batchSize`. The model produces the documents and the batch sequence; the
    inserts themselves, the timing and the size estimate are left to the
    database and the clock. */
module InsertBenchmark {

  import opened Text

  const Total: nat := 100000
  const BatchSize: nat := 1000

  const KeywordPrefix := "batch_"
  const LogPrefix := "Job executed successfully #"

  /** One synthetic log document. Its `type` and `method` fields are `kind` and
      `methodName` here, since both words are reserved in Dafny. */
  datatype LogRecord = LogRecord(
    kind: string, appname: string, version: string, methodName: string,
    user: string, keyword: string, log: string)

  /** The document pushed in round `i` of the generation loop. */
  function Record(i: nat): LogRecord {
    LogRecord("INFO", "web.indopaket", "2.0.0", "jobRetryFailedExpireAWB", "cronjob",
              KeywordPrefix + Show(i), LogPrefix + Show(i))
  }

  /** Document `i` carries its number `i`, in decimal, after a fixed prefix in
      both its keyword and its log message; every other field is a constant. */
  lemma RecordNumbered(i: nat)
    ensures var r := Record(i);
            && StartsWith(r.keyword, KeywordPrefix)
            && AllDigits(r.keyword[|KeywordPrefix|..]) && Value(r.keyword[|KeywordPrefix|..]) == i
            && StartsWith(r.log, LogPrefix)
            && AllDigits(r.log[|LogPrefix|..]) && Value(r.log[|LogPrefix|..]) == i
            && r.kind == "INFO" && r.appname == "web.indopaket" && r.version == "2.0.0"
            && r.methodName == "jobRetryFailedExpireAWB" && r.user == "cronjob"
  {
    var r := Record(i);
    assert r.keyword[..|KeywordPrefix|] == KeywordPrefix && r.keyword[|KeywordPrefix|..] == Show(i);
    assert r.log[..|LogPrefix|] == LogPrefix && r.log[|LogPrefix|..] == Show(i);
    ValueOfShow(i);
  }

  /** No two documents share a keyword. */
  lemma KeywordsDistinct(i: nat, j: nat)
    requires i != j
    ensures Record(i).keyword != Record(j).keyword
  {
    if Record(i).keyword == Record(j).keyword {
      RecordNumbered(i);
      RecordNumbered(j);
    }
  }

  /** The generation loop: round `i`, for `i` from 1 to `total`, pushes document `i`. */
  method GenerateLogs(total: nat) returns (logs: seq<LogRecord>)
    ensures |logs| == total
    ensures forall k :: 0 <= k < total ==> logs[k] == Record(k + 1)
  {
    logs := [];
    var i := 1;
    while i <= total
      invariant 1 <= i <= total + 1
      invariant |logs| == i - 1
      invariant forall k :: 0 <= k < i - 1 ==> logs[k] == Record(k + 1)
    {
      logs := logs + [Record(i)];
      i := i + 1;
    }
  }

  function Min(a: int, b: int): int {
    if a <= b then a else b
  }

  /** The batches laid end to end. */
  function Concat<T>(batches: seq<seq<T>>): seq<T> {
    if batches == [] then [] else Concat(batches[..|batches| - 1]) + batches[|batches| - 1]
  }

  /** The number of batches of `batchSize` that `n` documents need, rounded up. */
  function BatchCount(n: nat, batchSize: nat): nat
    requires batchSize > 0
  {
    (n + batchSize - 1) / batchSize
  }

  /** `BatchCount` is the least `k` with `k * batchSize >= n`. */
  lemma BatchCountIsCeiling(n: nat, batchSize: nat, k: nat)
    requires batchSize > 0
    requires k * batchSize >= n
    requires k == 0 || (k - 1) * batchSize < n
    ensures BatchCount(n, batchSize) == k
  {
    var x := n + batchSize - 1;
    if k == 0 {
      assert x < batchSize;
    } else {
      assert k * batchSize <= x < (k + 1) * batchSize;
      DivisionBetween(x, batchSize, k);
    }
  }

  lemma DivisionBetween(x: nat, d: nat, q: nat)
    requires d > 0 && q * d <= x < (q + 1) * d
    ensures x / d == q
  {
    var q2, r2 := x / d, x % d;
    assert x == q2 * d + r2 && 0 <= r2 < d;
    MulCancelLess(d, q2, q + 1);
    MulCancelLess(d, q, q2 + 1);
  }

  lemma MulCancelLess(d: int, a: int, b: int)
    requires d > 0 && a * d < b * d
    ensures a < b
  {
  }

  /** The window `logs.slice(start, start + batchSize)`. */
  function Window<T>(logs: seq<T>, start: nat, batchSize: nat): seq<T>
    requires start <= |logs|
  {
    logs[start..Min(start + batchSize, |logs|)]
  }

  /** Batch `j`: the window at `j * batchSize`. */
  function Batch<T>(logs: seq<T>, batchSize: nat, j: nat): seq<T>
    requires j * batchSize <= |logs|
  {
    Window(logs, j * batchSize, batchSize)
  }

  lemma ConcatAppend<T>(batches: seq<seq<T>>, batch: seq<T>)
    ensures Concat(batches + [batch]) == Concat(batches) + batch
  {
    assert (batches + [batch])[..|batches|] == batches;
  }

  lemma PrefixAppend<T>(s: seq<T>, i: nat, j: nat)
    requires i <= j <= |s|
    ensures s[..j] == s[..i] + s[i..j]
  {
  }

  /** Full batches laid end to end are as long as a batch times their number. */
  lemma {:induction false} ConcatFullLength<T>(batches: seq<seq<T>>, batchSize: nat)
    requires forall j :: 0 <= j < |batches| ==> |batches[j]| == batchSize
    ensures |Concat(batches)| == |batches| * batchSize
  {
    if batches != [] {
      var init := batches[..|batches| - 1];
      ConcatFullLength(init, batchSize);
      assert |batches| * batchSize == |init| * batchSize + batchSize;
    }
  }

  lemma {:induction false} MulStepBelow(j: nat, n: nat, d: nat)
    requires j < n
    ensures j * d + d <= n * d
    decreases n - j
  {
    assert (j + 1) * d == j * d + d;
    if j + 1 < n {
      MulStepBelow(j + 1, n, d);
    }
  }

  /** A window that ends inside `prefix` does not see what follows it. */
  lemma WindowOfPrefix<T>(prefix: seq<T>, rest: seq<T>, start: nat, batchSize: nat)
    requires start + batchSize <= |prefix|
    ensures Window(prefix + rest, start, batchSize) == Window(prefix, start, batchSize)
  {
  }

  /** Batches that lay end to end into `logs`, all full but the last and none
      empty, are the windows at the multiples of the batch size. */
  lemma {:induction false} BatchesAreWindows<T>(logs: seq<T>, batches: seq<seq<T>>, batchSize: nat)
    requires batchSize > 0
    requires Concat(batches) == logs
    requires forall j :: 0 <= j < |batches| ==> 0 < |batches[j]| <= batchSize
    requires forall j :: 0 <= j < |batches| - 1 ==> |batches[j]| == batchSize
    ensures forall j :: 0 <= j < |batches| ==>
              j * batchSize < |logs| && batches[j] == Batch(logs, batchSize, j)
    decreases |batches|
  {
    if batches != [] {
      var n := |batches| - 1;
      var init, last := batches[..n], batches[n];
      var prefix := Concat(init);
      assert logs == prefix + last;
      ConcatFullLength(init, batchSize);
      BatchesAreWindows(prefix, init, batchSize);
      forall j | 0 <= j < |batches|
        ensures j * batchSize < |logs| && batches[j] == Batch(logs, batchSize, j)
      {
        if j < n {
          MulStepBelow(j, n, batchSize);
          WindowOfPrefix(prefix, last, j * batchSize, batchSize);
          assert batches[j] == init[j];
        } else {
          assert logs[n * batchSize..] == last;
        }
      }
    }
  }

  /** What the insert loop keeps while `i` is the next window's start. */
  ghost predicate SplitInvariant<T>(logs: seq<T>, batchSize: nat, batches: seq<seq<T>>, i: nat) {
    && i == |batches| * batchSize
    && (i == 0 || i < |logs| + batchSize)
    && Concat(batches) == logs[..Min(i, |logs|)]
    && (forall j :: 0 <= j < |batches| ==> 0 < |batches[j]| <= batchSize)
    && (forall j :: 0 <= j < |batches| - 1 ==> |batches[j]| == batchSize)
    && (|batches| > 0 ==> |batches[|batches| - 1]| == Min(i, |logs|) - (i - batchSize))
  }

  lemma SplitStep<T>(logs: seq<T>, batchSize: nat, batches: seq<seq<T>>, i: nat)
    requires batchSize > 0 && i < |logs|
    requires SplitInvariant(logs, batchSize, batches, i)
    ensures SplitInvariant(logs, batchSize, batches + [Window(logs, i, batchSize)], i + batchSize)
  {
    var batch := Window(logs, i, batchSize);
    ConcatAppend(batches, batch);
    PrefixAppend(logs, i, Min(i + batchSize, |logs|));
  }

  /** The insert loop: windows `[i, i + batchSize)` for `i = 0, batchSize,
      2 * batchSize, ...` while `i` is below the number of documents, the last
      window cut short at the end, each one handed to `insertMany` in turn. */
  method SplitBatches<T>(logs: seq<T>, batchSize: nat) returns (batches: seq<seq<T>>)
    requires batchSize > 0
    ensures |batches| == BatchCount(|logs|, batchSize)
    ensures Concat(batches) == logs
    ensures forall j :: 0 <= j < |batches| ==> 0 < |batches[j]| <= batchSize
    ensures forall j :: 0 <= j < |batches| - 1 ==> |batches[j]| == batchSize
    ensures forall j :: 0 <= j < |batches| ==>
              j * batchSize < |logs| && batches[j] == Batch(logs, batchSize, j)
  {
    batches := [];
    var i := 0;
    while i < |logs|
      invariant SplitInvariant(logs, batchSize, batches, i)
      decreases |logs| - i
    {
      SplitStep(logs, batchSize, batches, i);
      batches := batches + [Window(logs, i, batchSize)];
      i := i + batchSize;
    }
    assert logs[..Min(i, |logs|)] == logs;
    BatchCountIsCeiling(|logs|, batchSize, |batches|);
    BatchesAreWindows(logs, batches, batchSize);
  }

  /** The whole benchmark plan: 100000 documents, handed over once each and in
      order, in 100 batches of 1000. */
  method RunBenchmark() returns (logs: seq<LogRecord>, batches: seq<seq<LogRecord>>)
    ensures |logs| == Total
    ensures forall k :: 0 <= k < Total ==> logs[k] == Record(k + 1)
    ensures Concat(batches) == logs
    ensures |batches| == 100
    ensures forall j :: 0 <= j < |batches| ==> |batches[j]| == BatchSize
  {
    logs := GenerateLogs(Total);
    batches := SplitBatches(logs, BatchSize);
    assert BatchCount(Total, BatchSize) == 100;
    forall j | 0 <= j < |batches| ensures |batches[j]| == BatchSize {
      if j == |batches| - 1 {
        assert j * BatchSize + BatchSize == |logs|;
      }
    }
  }

}
