# lmdbbench: a verified model of the stress harness

lmdbbench is a crash-consistency stress tool for the LMDB key-value store. Its
database holds keys `1 .. N` (8-byte big-endian `u64`), each with a value that
is the pattern `v[i] = i mod 256` cut to some length below 4096. A run
verifies the database, finds its tail key, deletes every key from the tail
down to 1 in write transactions of five deletes, then inserts keys from 1
upward in transactions of five puts with random value lengths, until the
process is stopped. Because every transaction commits atomically, a run that
started on a database that passed verification, stopped at any moment, leaves
a database that the next run's verification accepts. A run on a database that
fails verification aborts and leaves it as it was.

The model, one Dafny module per concern:

- `Types` (`types.dfy`): `u8`/`u64` as bounded integers, `TX_SIZE = 5`,
  `MAX_VAL_SIZE = 4096`, `Option`, `Result` and the engine error `NotFound`.
- `KeyCodec` (`key_codec.dfy`): big-endian `write_u64`/`read_u64`. It is a
  bijection between `u64` and 8-byte strings, and byte-wise key order is
  numeric order.
- `ValuePattern` (`value_pattern.dfy`): `initialize_value` and the prefix
  test the verifier applies to values.
- `Store` (`store.dfy`): the default database as the list of records in
  cursor order. `Ordered` means strictly ascending keys. `Content` is the
  key-to-value view. `Get`, `Del` and `Put` are the engine calls the harness
  makes.
- `Locator` (`locator.dfy`): `get_last_key`, and why the cursor's last record
  holds the largest key.
- `Verifier` (`verifier.dfy`): `verify_db` as a loop. It is proved equal to
  the recursive verdict `Scan`, and `Scan` passes exactly on gap-free
  databases with valid values.
- `Harness` (`harness.dfy`): the transactions and phases of `main` and the
  whole run `Run`, with the crash-consistency lemmas.

The storage engine is a value threaded through the methods. A write
transaction works on its own copy of the records (`txn`). Commit makes that
copy the committed records. An engine error returns the last committed
records, so an interrupted transaction leaves no trace. The random generator
is the input sequence `lens`. The endless insert loop runs `n` transactions.
The mode argument is the `Mode` parameter.

Two behaviours of the code that the model keeps:

- The insert phase calls `put` with `WriteFlags::empty()`. In LMDB that
  replaces the value of an existing key; it does not fail on a duplicate. So
  `Store.Put` is an insert-or-replace. In `Run` the puts only ever meet
  absent keys, because the delete phase has emptied the database first.
- The verifier compares a value with the pattern cut to the value's own
  length. It never checks the length against what was written. `Scan` keeps
  this weak check: any pattern prefix of at most 4096 bytes passes.

## Model

| member | source | states |
|---|---|---|
| ValuePattern.InitializeValue | src/main.rs:24-30 | returns exactly `len` bytes, byte `i` being `i mod 256` |
| ValuePattern.PrefixCompare | src/main.rs:44 | comparing a value with the first `|v|` bytes of the pattern succeeds exactly when the value is a pattern prefix |
| KeyCodec.DecodeEncode | src/main.rs:56 | `read_u64` of the bytes `write_u64` produced gives back the key |
| KeyCodec.EncodeDecode | src/main.rs:114 | `write_u64` of the number `read_u64` reads from 8 bytes gives back those bytes, so every 8-byte key is some `u64` |
| KeyCodec.EncodeKeyOrder | src/main.rs:54 | `a < b` exactly when the big-endian encoding of `a` sorts before that of `b` byte-wise |
| Locator.CursorOrder | src/main.rs:39 | records ascend by numeric key exactly when their encoded keys ascend in the engine's byte order, which a cursor follows |
| Locator.LastIsMax | src/main.rs:54 | the last record of an ordered database holds its largest key |
| Locator.GetLastKey | src/main.rs:50-58 | `None` exactly when the database is empty; otherwise a present key that is at least every other key |
| Store.Get | src/main.rs:98 | succeeds exactly when the key is present, with its stored value; `NotFound` otherwise |
| Store.Del | src/main.rs:115 | fails with `NotFound` exactly when the key is absent; otherwise the view loses exactly that key and stays ordered |
| Store.Put | src/main.rs:135-140 | the view maps the key to the new value, all other keys unchanged, and stays ordered |
| Verifier.ScanPasses | src/main.rs:39-47 | the check-mode scan passes exactly when record `i` has key `i + 1` and a pattern prefix of at most 4096 bytes |
| Verifier.PassIsDense | src/main.rs:43-44 | a passing scan certifies keys exactly `1 .. N` with valid values |
| Verifier.DenseIsPass | src/main.rs:43-44 | keys exactly `1 .. N` with valid values make the scan pass |
| Verifier.VerifyAcceptsExactly | src/main.rs:36-47 | the scan passes on an ordered database exactly when its keys are `1 .. N` without gap and every value is valid |
| Verifier.VerifyDb | src/main.rs:32-48 | dump mode always passes; check mode returns the verdict of `Scan`: the first key mismatch, over-long value or pattern mismatch, or a pass |
| Verifier.GapIsReported | src/main.rs:43 | keys 1 and 3 fail at the second record with "expected 2, found 3" |
| Harness.DeleteTxn | src/main.rs:105-119 | deletes the next at most five keys counting down, or commits and reports the end at key 0; on a missing key nothing is committed and that key is reported |
| Harness.DeletePhase | src/main.rs:103-125 | succeeds exactly when every key `1 .. last_key` is present, leaving the database without them; otherwise stops at the highest missing key with earlier transactions committed; all transactions delete five keys except the last, which deletes fewer |
| Harness.DeleteBatchCount | src/main.rs:107-119 | a completed delete phase from tail key `L` runs `L / 5 + 1` transactions, the last deleting keys `L mod 5 .. 1` |
| Harness.DeleteSevenKeys | src/main.rs:103-125 | from keys `1 .. 7` the transactions delete `7, 6, 5, 4, 3` and then `2, 1` |
| Harness.InsertTxn | src/main.rs:131-144 | puts the next five keys, key `k` receiving the pattern cut to the `k`-th drawn length, and commits |
| Harness.InsertPhase | src/main.rs:127-150 | after `n` transactions the keys `1 .. 5n` hold the drawn pattern prefixes on top of the old records, transaction `t` having written keys `5t + 1 .. 5t + 5` |
| Harness.InsertedShape | src/main.rs:134-140 | after `m` puts the inserted keys are exactly `1 .. m`, key `k` holding the pattern cut to the `k`-th drawn length |
| Harness.TailOfPassing | src/main.rs:87-93 | the tail key of a database that passed verification is its number of records |
| Harness.DeleteEmpties | src/main.rs:103-125 | a completed delete phase from that tail key empties the database, and the tail locator then finds nothing |
| Harness.DeleteCommitsPass | src/main.rs:103-125 | every state the delete phase commits from a verified database passes the next verification |
| Harness.InsertCommitsPass | src/main.rs:127-150 | every state the insert phase commits on the emptied database passes the next verification |
| Harness.Run | src/main.rs:61-151 | dump changes nothing; a failing verification aborts with its error; check succeeds exactly on a non-empty verified database; a stress run leaves keys exactly `1 .. 5n` with the drawn lengths, which passes verification |

## Left out

- `print_stat`, all printing and timing (`Instant`, the progress lines every 10000 keys) are observation only and are not modelled.
- Command-line parsing and opening the environment are not modelled. The mode is the `Mode` parameter. The `NO_SYNC` flag and the 10 GiB map size belong to the engine.
- Engine failures other than a missing key are not modelled: I/O errors, a full map, failing `begin`/`commit`, and the `unwrap` panics in `verify_db` and `get_last_key`. `EngineError` has only `NotFound`.
- The engine's own crash behaviour under `NO_SYNC` is not modelled. A crash is modelled as the process stopping after a commit. This is `Run`'s `n` for the insert phase and `Harness.DeleteCommitsPass` for the delete phase.
- The random generator is the input `lens`, each length below 4096 (`gen_range(0, 4096)`).
- Harness.Run: models `n` insert transactions of the endless loop. It requires `5n + 1 < 2^64`, so the `u64` counter `last_key` never overflows.
- Harness.InsertPhase: the same bound on `n` applies.
- Verifier.VerifyDb: `expect_key` is an unbounded integer. A `u64` overflow would need 2^64 records.
- Records carry `u64` keys, so keys of other lengths, written by another program, are outside the model. A key shorter than 8 bytes makes `read_u64` panic. A longer key is decoded from its first 8 bytes, so `verify_db` can accept it when that prefix encodes the expected counter.
- The panic at `src/main.rs:57` (a cursor that reports no key) is unreachable in the model. `GetLastKey` always returns the last record's key.
- Dump mode prints every record and checks nothing. The model returns `Pass` without printing.
