/**
 * `main`: verify the database, locate the tail key, then (in the stress mode)
 * delete every key from the tail down to 1 and insert keys from 1 upward, each
 * in write transactions of `TX_SIZE` key operations. A transaction works on
 * its own view of the records (`txn`) and commit makes that view the committed
 * one (`committed`); an engine error returns at once with the last committed
 * records, so an interrupted transaction leaves no trace.
 */
module Harness {
  import opened Types
  import opened ValuePattern
  import opened Store
  import opened Locator
  import opened Verifier

  /**
   * `lo <= k <= hi`, as a predicate so that the set and map comprehensions
   * over `k` have a term the verifier can trigger on.
   */
  ghost predicate Between(lo: int, k: int, hi: int)
  {
    lo <= k <= hi
  }

  /** The keys `lo .. hi`. */
  ghost function Span(lo: int, hi: int): set<u64>
  {
    set k: u64 | Between(lo, k, hi)
  }

  /** Removing `lo` from a view without the keys `lo + 1 .. hi` leaves it without `lo .. hi`. */
  lemma SpanExtend(m: map<u64, seq<byte>>, lo: u64, hi: int)
    requires lo <= hi
    ensures (m - Span(lo + 1, hi)) - {lo} == m - Span(lo, hi)
  {
  }

  lemma CountdownNext(hi: int, lo: int)
    requires lo <= hi
    ensures Countdown(hi, lo) + [lo] == Countdown(hi, lo - 1)
  {
  }

  lemma CountdownSplit(hi: int, mid: int, lo: int)
    requires lo <= mid <= hi
    ensures Countdown(hi, mid) + Countdown(mid, lo) == Countdown(hi, lo)
  {
  }

  /** `hi, hi - 1, ..., lo + 1`. */
  ghost function Countdown(hi: int, lo: int): seq<int>
    requires lo <= hi
  {
    seq(hi - lo, i => hi - i)
  }

  /** `lo, lo + 1, ..., hi`. */
  ghost function Countup(lo: int, hi: int): seq<int>
    requires lo <= hi + 1
  {
    seq(hi - lo + 1, i => lo + i)
  }

  lemma CountupNext(lo: int, hi: int)
    requires lo <= hi + 1
    ensures Countup(lo, hi) + [hi + 1] == Countup(lo, hi + 1)
  {
  }

  lemma BatchesFit(t: nat, n: nat)
    requires t < n
    ensures TX_SIZE * t + TX_SIZE <= TX_SIZE * n
  {
  }

  /** The keys of all committed transactions, in the order they were operated on. */
  ghost function Flatten(batches: seq<seq<int>>): seq<int>
  {
    if batches == [] then [] else Flatten(batches[..|batches| - 1]) + batches[|batches| - 1]
  }

  lemma FlattenAppend(batches: seq<seq<int>>, b: seq<int>)
    ensures Flatten(batches + [b]) == Flatten(batches) + b
  {
  }

  /** `val` is the canonical value and every drawn length is below its length. */
  ghost predicate Drawn(val: seq<byte>, lens: seq<nat>)
  {
    && |val| == MAX_VAL_SIZE && IsPatternPrefix(val)
    && forall j :: 0 <= j < |lens| ==> lens[j] < |val|
  }

  /**
   * The records written by the first `m` puts of the insert phase: key `k`
   * gets the pattern cut to the `k`-th drawn length.
   */
  ghost function Inserted(val: seq<byte>, lens: seq<nat>, m: int): map<u64, seq<byte>>
    requires 0 <= m <= |lens| && m < U64_LIMIT
    requires Drawn(val, lens)
    decreases m
  {
    if m == 0 then map[] else Inserted(val, lens, m - 1)[m := val[..lens[m - 1]]]
  }

  /** The inserted keys are `1 .. m`, key `k` holding the pattern cut to the `k`-th drawn length. */
  lemma {:induction false} InsertedShape(val: seq<byte>, lens: seq<nat>, m: int)
    requires 0 <= m <= |lens| && m < U64_LIMIT
    requires Drawn(val, lens)
    ensures forall k :: k in Inserted(val, lens, m) <==> 1 <= k <= m
    ensures forall k :: k in Inserted(val, lens, m) ==>
      Inserted(val, lens, m)[k] == val[..lens[k - 1]] && ValidValue(Inserted(val, lens, m)[k])
    decreases m
  {
    if m > 0 {
      InsertedShape(val, lens, m - 1);
    }
  }

  /** Putting key `m + 1` on top of the first `m` puts gives the first `m + 1` puts. */
  lemma InsertedNext(base: map<u64, seq<byte>>, val: seq<byte>, lens: seq<nat>, m: nat)
    requires m < |lens| && m + 1 < U64_LIMIT
    requires Drawn(val, lens)
    ensures (base + Inserted(val, lens, m))[m + 1 := val[..lens[m]]] == base + Inserted(val, lens, m + 1)
  {
  }

  /**
   * One transaction of the delete phase: up to `TX_SIZE` times, either find
   * `last_key == 0`, commit and report the phase `done`, or delete `last_key`
   * and count it down; then commit. A failed delete returns `NotFound` with
   * nothing committed, `lastKey'` being the key that was missing. `db` and
   * `top` are the view and the tail key the phase started from.
   */
  method DeleteTxn(committed: seq<Entry>, lastKey: u64, ghost db: seq<Entry>, ghost top: int)
    returns (status: Result<()>, committed': seq<Entry>, lastKey': u64, done: bool, ghost batch: seq<int>)
    requires Ordered(committed) && lastKey <= top
    requires Content(committed) == Content(db) - Span(lastKey + 1, top)
    requires forall k: u64 :: lastKey < k <= top ==> k in Content(db)
    ensures Ordered(committed')
    ensures lastKey' <= lastKey
    ensures forall k: u64 :: lastKey' < k <= top ==> k in Content(db)
    ensures status.Ok? ==>
      && (done <==> lastKey < TX_SIZE)
      && lastKey' == (if done then 0 else lastKey - TX_SIZE)
      && Content(committed') == Content(db) - Span(lastKey' + 1, top)
      && batch == Countdown(lastKey, lastKey')
    ensures status.Err? ==>
      && status.error == NotFound
      && 0 < lastKey' && lastKey - TX_SIZE < lastKey'
      && lastKey' !in Content(db)
      && committed' == committed
  {
    var txn := committed;
    lastKey' := lastKey;
    batch := [];
    done := false;
    for i := 0 to TX_SIZE
      invariant Ordered(txn)
      invariant lastKey' == lastKey - i
      invariant Content(txn) == Content(db) - Span(lastKey' + 1, top)
      invariant forall k: u64 :: lastKey' < k <= top ==> k in Content(db)
      invariant batch == Countdown(lastKey, lastKey')
    {
      if lastKey' == 0 {
        committed' := txn;
        done := true;
        return Ok(()), committed', lastKey', done, batch;
      }
      var r := Del(txn, lastKey');
      if r.Err? {
        return Err(r.error), committed, lastKey', done, batch;
      }
      txn := r.value;
      SpanExtend(Content(db), lastKey', top);
      CountdownNext(lastKey, lastKey');
      batch := batch + [lastKey'];
      lastKey' := lastKey' - 1;
    }
    committed' := txn;
    status := Ok(());
  }

  /**
   * The delete phase (`'delete_loop`): transactions of `DeleteTxn` from
   * `last_key` down until one reaches 0; an engine error ends the run with
   * what was committed so far, `lastKey` being the key whose delete failed.
   * `batches` records the keys each committed transaction deleted, in order,
   * and `kept` is the tail key of the committed records.
   */
  method DeletePhase(db: seq<Entry>, lastKey0: u64)
    returns (status: Result<()>, committed: seq<Entry>, lastKey: u64,
             ghost batches: seq<seq<int>>, ghost kept: int)
    requires Ordered(db)
    ensures Ordered(committed)
    ensures status.Ok? <==> forall k: u64 :: 1 <= k <= lastKey0 ==> k in Content(db)
    ensures 0 <= kept <= lastKey0
    ensures Content(committed) == Content(db) - Span(kept + 1, lastKey0)
    ensures Flatten(batches) == Countdown(lastKey0, kept)
    ensures status.Ok? ==>
      && lastKey == 0 && kept == 0
      && |batches| > 0 && |batches[|batches| - 1]| < TX_SIZE
      && forall t :: 0 <= t < |batches| - 1 ==> |batches[t]| == TX_SIZE
    ensures status.Err? ==>
      && status.error == NotFound
      && kept - TX_SIZE < lastKey <= kept && 1 <= lastKey
      && lastKey !in Content(db)
      && (forall k: u64 :: lastKey < k <= lastKey0 ==> k in Content(db))
      && forall t :: 0 <= t < |batches| ==> |batches[t]| == TX_SIZE
  {
    committed := db;
    lastKey := lastKey0;
    batches := [];
    assert Span(lastKey0 + 1, lastKey0) == {};
    while true
      invariant Ordered(committed)
      invariant 0 <= lastKey <= lastKey0
      invariant Content(committed) == Content(db) - Span(lastKey + 1, lastKey0)
      invariant forall k: u64 :: lastKey < k <= lastKey0 ==> k in Content(db)
      invariant Flatten(batches) == Countdown(lastKey0, lastKey)
      invariant forall t :: 0 <= t < |batches| ==> |batches[t]| == TX_SIZE
      decreases lastKey
    {
      var txnStatus, next, nextKey, done;
      ghost var batch;
      txnStatus, next, nextKey, done, batch := DeleteTxn(committed, lastKey, db, lastKey0);
      if txnStatus.Err? {
        status, kept, lastKey := txnStatus, lastKey, nextKey;
        return;
      }
      CountdownSplit(lastKey0, lastKey, nextKey);
      FlattenAppend(batches, batch);
      committed, lastKey, batches := next, nextKey, batches + [batch];
      if done {
        break;
      }
    }
    status, kept := Ok(()), 0;
  }

  lemma {:induction false} FlattenFull(batches: seq<seq<int>>)
    requires forall t :: 0 <= t < |batches| ==> |batches[t]| == TX_SIZE
    ensures |Flatten(batches)| == TX_SIZE * |batches|
  {
    if batches != [] {
      FlattenFull(batches[..|batches| - 1]);
    }
  }

  /**
   * What a completed delete phase from tail key `top` did: `top / TX_SIZE`
   * full transactions, then one that deleted the remaining `top % TX_SIZE`
   * keys down to 1 and found `last_key == 0`.
   */
  lemma DeleteBatchCount(batches: seq<seq<int>>, top: nat)
    requires |batches| > 0 && Flatten(batches) == Countdown(top, 0)
    requires forall t :: 0 <= t < |batches| - 1 ==> |batches[t]| == TX_SIZE
    requires |batches[|batches| - 1]| < TX_SIZE
    ensures |batches| == top / TX_SIZE + 1
    ensures batches[|batches| - 1] == Countdown(top % TX_SIZE, 0)
  {
    var init, final := batches[..|batches| - 1], batches[|batches| - 1];
    assert batches == init + [final];
    FlattenFull(init);
    var q, r := |init|, |final|;
    assert top == TX_SIZE * q + r;
    assert top / TX_SIZE == q && top % TX_SIZE == r;
    assert final == Flatten(batches)[TX_SIZE * q..];
  }

  /**
   * From keys `1 .. 7` the delete phase runs two transactions: the first
   * deletes 7, 6, 5, 4, 3, the second 2, 1 and then finds `last_key == 0`.
   */
  lemma DeleteSevenKeys(batches: seq<seq<int>>)
    requires |batches| > 0 && Flatten(batches) == Countdown(7, 0)
    requires forall t :: 0 <= t < |batches| - 1 ==> |batches[t]| == TX_SIZE
    requires |batches[|batches| - 1]| < TX_SIZE
    ensures batches == [[7, 6, 5, 4, 3], [2, 1]]
  {
    DeleteBatchCount(batches, 7);
    assert |batches| == 2 && batches[1] == Countdown(2, 0) == [2, 1];
    assert batches[..1][..0] == [] && batches[..1] == [batches[0]];
    assert Flatten(batches[..1]) == batches[0];
    assert Countdown(7, 0) == [7, 6, 5, 4, 3, 2, 1];
    assert batches[0] == Countdown(7, 0)[..5] == [7, 6, 5, 4, 3];
    assert batches == [batches[0], batches[1]];
  }

  /**
   * One transaction of the insert phase: `TX_SIZE` puts of consecutive keys
   * from `lastKey` upward, then commit. `base` is the view the phase started
   * from.
   */
  method InsertTxn(committed: seq<Entry>, lastKey: u64, val: seq<byte>, lens: seq<nat>, ghost base: map<u64, seq<byte>>)
    returns (committed': seq<Entry>, lastKey': u64, ghost batch: seq<int>)
    requires Ordered(committed)
    requires Drawn(val, lens)
    requires 1 <= lastKey && lastKey - 1 + TX_SIZE <= |lens| && lastKey + TX_SIZE < U64_LIMIT
    requires Content(committed) == base + Inserted(val, lens, lastKey - 1)
    ensures Ordered(committed')
    ensures lastKey' == lastKey + TX_SIZE
    ensures Content(committed') == base + Inserted(val, lens, lastKey' - 1)
    ensures batch == Countup(lastKey, lastKey' - 1)
  {
    var txn := committed;
    lastKey' := lastKey;
    batch := [];
    for i := 0 to TX_SIZE
      invariant lastKey' == lastKey + i
      invariant Ordered(txn)
      invariant Content(txn) == base + Inserted(val, lens, lastKey' - 1)
      invariant batch == Countup(lastKey, lastKey' - 1)
    {
      InsertedNext(base, val, lens, lastKey' - 1);
      CountupNext(lastKey, lastKey' - 1);
      txn := Put(txn, lastKey', val[..lens[lastKey' - 1]]);
      batch := batch + [lastKey'];
      lastKey' := lastKey' + 1;
    }
    committed' := txn;
  }

  /**
   * `n` transactions of the insert phase, which the source repeats until the
   * process is stopped. From `last_key = 1`, each transaction puts
   * `TX_SIZE` consecutive keys and commits; the j-th put writes the pattern cut
   * to `lens[j]`, the j-th length drawn by the random generator.
   */
  method InsertPhase(db: seq<Entry>, val: seq<byte>, lens: seq<nat>, n: nat)
    returns (committed: seq<Entry>, lastKey: u64, ghost batches: seq<seq<int>>)
    requires Ordered(db)
    requires Drawn(val, lens) && |lens| == TX_SIZE * n
    requires TX_SIZE * n + 1 < U64_LIMIT
    ensures Ordered(committed)
    ensures lastKey == TX_SIZE * n + 1
    ensures Content(committed) == Content(db) + Inserted(val, lens, TX_SIZE * n)
    ensures |batches| == n
    ensures forall t :: 0 <= t < n ==> batches[t] == Countup(TX_SIZE * t + 1, TX_SIZE * (t + 1))
  {
    committed := db;
    lastKey := 1;
    batches := [];
    var t := 0;
    while t < n
      invariant 0 <= t <= n
      invariant |batches| == t
      invariant lastKey == TX_SIZE * t + 1
      invariant Ordered(committed)
      invariant Content(committed) == Content(db) + Inserted(val, lens, lastKey - 1)
      invariant forall s :: 0 <= s < t ==> batches[s] == Countup(TX_SIZE * s + 1, TX_SIZE * (s + 1))
    {
      BatchesFit(t, n);
      ghost var batch;
      committed, lastKey, batch := InsertTxn(committed, lastKey, val, lens, Content(db));
      batches := batches + [batch];
      t := t + 1;
    }
  }

  /**
   * An ordered list whose view holds exactly the keys `1 .. n`, each with a
   * valid value, passes the check-mode scan.
   */
  lemma RangePasses(es: seq<Entry>, n: nat)
    requires Ordered(es) && n < U64_LIMIT
    requires forall k :: k in Content(es) <==> 1 <= k <= n
    requires forall k :: k in Content(es) ==> ValidValue(Content(es)[k])
    ensures Scan(es, 1) == Pass
  {
    DenseRangeIsConsecutive(es, 1, n);
    DenseIsPass(es);
  }

  /**
   * Every state the delete phase commits passes verification: starting from a
   * database that passed, the keys `lo + 1 .. N` deleted so far are the top
   * ones, so `1 .. lo` remain with their values.
   */
  lemma DeleteCommitsPass(db: seq<Entry>, lo: nat, es: seq<Entry>)
    requires Ordered(db) && Scan(db, 1) == Pass
    requires Ordered(es) && lo <= |db|
    requires Content(es) == Content(db) - Span(lo + 1, |db|)
    ensures Scan(es, 1) == Pass
  {
    PassIsDense(db);
    if db != [] {
      assert |db| in Content(db);
    }
    forall k: u64 ensures k in Content(es) <==> 1 <= k <= lo {
      assert k in Span(lo + 1, |db|) <==> lo + 1 <= k <= |db|;
    }
    RangePasses(es, lo);
  }

  /**
   * Every state the insert phase commits on an emptied database passes
   * verification: after `m` puts the keys are `1 .. m` with pattern prefixes.
   */
  lemma InsertCommitsPass(es: seq<Entry>, val: seq<byte>, lens: seq<nat>, m: nat)
    requires m <= |lens| && m < U64_LIMIT && Drawn(val, lens)
    requires Ordered(es) && Content(es) == Inserted(val, lens, m)
    ensures Scan(es, 1) == Pass
  {
    InsertedShape(val, lens, m);
    RangePasses(es, m);
  }

  /** The tail key of a database that passed verification is its number of records. */
  lemma TailOfPassing(db: seq<Entry>)
    requires Ordered(db) && Scan(db, 1) == Pass
    ensures db == [] ==> GetLastKey(db) == None
    ensures db != [] ==> GetLastKey(db).Some? && GetLastKey(db).value == |db|
  {
    PassIsDense(db);
    if db != [] {
      assert |db| in Content(db);
    }
  }

  /**
   * A completed delete phase from the tail key of a database that passed
   * verification leaves it empty, and the tail locator then finds nothing.
   */
  lemma DeleteEmpties(db: seq<Entry>, es: seq<Entry>)
    requires Ordered(db) && Scan(db, 1) == Pass
    requires Ordered(es) && Content(es) == Content(db) - Span(1, |db|)
    ensures es == [] && GetLastKey(es) == None
  {
    PassIsDense(db);
    assert Content(es) == map[];
    EmptyContent(es);
  }

  /** The third command-line argument. */
  datatype Mode = Stress | CheckOnly | Dump

  /** How a run ends. */
  datatype Exit =
    | Finished                               // `main` returns `Ok(())`
    | EngineFailed(cause: EngineError)     // an engine call returned an error, propagated by `?`
    | Aborted(failure: IntegrityError)       // a verification assertion panicked
    | Interrupted(lastKey: u64)              // the endless insert loop was stopped from outside

  /**
   * `main` on the committed records `db`, with `n` transactions of the insert
   * phase before the process is stopped; `lens` are the `TX_SIZE * n` lengths
   * the random generator draws. Returns how the run ends and the committed
   * records it leaves.
   */
  method Run(db: seq<Entry>, mode: Mode, lens: seq<nat>, n: nat) returns (exit: Exit, committed: seq<Entry>)
    requires Ordered(db)
    requires |lens| == TX_SIZE * n && forall j :: 0 <= j < |lens| ==> lens[j] < MAX_VAL_SIZE
    requires TX_SIZE * n + 1 < U64_LIMIT
    ensures Ordered(committed)
    ensures mode == Dump ==> exit == Finished && committed == db
    ensures mode != Dump && Scan(db, 1).Fail? ==> exit == Aborted(Scan(db, 1).error) && committed == db
    ensures mode == CheckOnly && Scan(db, 1) == Pass ==>
      && committed == db
      && exit == (if db == [] then EngineFailed(NotFound) else Finished)
    ensures mode == Stress && Scan(db, 1) == Pass ==>
      && exit == Interrupted(TX_SIZE * n + 1)
      && (forall k :: k in Content(committed) <==> 1 <= k <= TX_SIZE * n)
      && (forall k :: k in Content(committed) ==> |Content(committed)[k]| == lens[k - 1])
      && Scan(committed, 1) == Pass
  {
    var val := InitializeValue(MAX_VAL_SIZE);
    if mode == Dump {
      var _ := VerifyDb(db, true);
      return Finished, db;
    }
    var verdict := VerifyDb(db, false);
    if verdict.Fail? {
      return Aborted(verdict.error), db;
    }
    var lastKey: u64 := 0;
    var last := GetLastKey(db);
    if last.Some? {
      lastKey := last.value;
    }
    if mode == CheckOnly {
      var found := Get(db, lastKey);
      if found.Err? {
        return EngineFailed(found.error), db;
      }
      return Finished, db;
    }
    // A database that passed verification holds every key `1 .. lastKey`,
    // so the delete phase cannot fail.
    TailOfPassing(db);
    PassIsDense(db);
    var status, emptied, _, deleted, kept := DeletePhase(db, lastKey);
    assert status.Ok?;
    DeleteEmpties(db, emptied);
    var next;
    ghost var batches;
    committed, next, batches := InsertPhase(emptied, val, lens, n);
    assert Content(committed) == Inserted(val, lens, TX_SIZE * n);
    InsertedShape(val, lens, TX_SIZE * n);
    InsertCommitsPass(committed, val, lens, TX_SIZE * n);
    exit := Interrupted(next);
  }
}
