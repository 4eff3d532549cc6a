/**
 * `verify_db`: one forward cursor scan. In check mode the k-th record must
 * have key k and a value equal to the canonical pattern cut to the value's own
 * length; the first record that breaks this aborts the run. In dump mode the
 * records are only printed.
 */
module Verifier {
  import opened Types
  import opened ValuePattern
  import opened Store

  /** The assertion that aborts a check-mode scan. */
  datatype IntegrityError =
    | KeyMismatch(expected: int, found: u64)   // `assert_eq!(expect_key, key)`
    | ValueTooLong(key: u64, length: nat)      // `expect_val[..v.len()]` out of range
    | ValueMismatch(key: u64)                  // `assert_eq!(expect_val[..v.len()], v)`

  datatype Verdict = Pass | Fail(error: IntegrityError)

  /** The check-mode verdict on the records `es`, the first of which is expected to have key `next`. */
  ghost function Scan(es: seq<Entry>, next: int): Verdict
  {
    if es == [] then Pass
    else if es[0].key != next then Fail(KeyMismatch(next, es[0].key))
    else if |es[0].value| > MAX_VAL_SIZE then Fail(ValueTooLong(es[0].key, |es[0].value|))
    else if !IsPatternPrefix(es[0].value) then Fail(ValueMismatch(es[0].key))
    else Scan(es[1..], next + 1)
  }

  /** The scan passes exactly when record i has key `next + i` and a valid value. */
  lemma {:induction false} ScanPasses(es: seq<Entry>, next: int)
    ensures Scan(es, next) == Pass <==>
      forall i :: 0 <= i < |es| ==> es[i].key == next + i && ValidValue(es[i].value)
  {
    if es != [] {
      ScanPasses(es[1..], next + 1);
      if forall i :: 0 <= i < |es| ==> es[i].key == next + i && ValidValue(es[i].value) {
        assert forall i :: 0 <= i < |es[1..]| ==> es[1..][i] == es[i + 1];
      }
    }
  }

  /** Consecutive keys from `lo` along the list give the view exactly the keys `lo .. lo + |es| - 1`. */
  lemma {:induction false} ConsecutiveKeys(es: seq<Entry>, lo: int)
    requires forall i :: 0 <= i < |es| ==> es[i].key == lo + i
    ensures forall k :: k in Content(es) <==> lo <= k < lo + |es|
  {
    if es != [] {
      assert forall i :: 0 <= i < |es[1..]| ==> es[1..][i] == es[i + 1];
      ConsecutiveKeys(es[1..], lo + 1);
    }
  }

  /**
   * Conversely, an ordered list whose view holds exactly the keys
   * `lo .. lo + n - 1` has n records with consecutive keys from `lo`.
   */
  lemma {:induction false} DenseRangeIsConsecutive(es: seq<Entry>, lo: int, n: nat)
    requires Ordered(es)
    requires 0 <= lo && lo + n <= U64_LIMIT
    requires forall k :: k in Content(es) <==> lo <= k < lo + n
    ensures |es| == n
    ensures forall i :: 0 <= i < |es| ==> es[i].key == lo + i
  {
    if es == [] {
      if lo < U64_LIMIT {
        assert (lo as u64) !in Content(es);
      }
    } else {
      var tail := es[1..];
      assert es[0].key in Content(es);
      var first: u64 := lo;
      assert first in Content(es);
      assert Content(es) == Content(tail)[es[0].key := es[0].value];
      assert es[0].key == first || first in Content(tail);
      forall k: u64 ensures k in Content(tail) <==> lo + 1 <= k < lo + n {
        if k in Content(tail) {
          assert es[0].key < k && k in Content(es);
        }
        if lo + 1 <= k < lo + n {
          assert k in Content(es);
        }
      }
      DenseRangeIsConsecutive(tail, lo + 1, n - 1);
      forall i | 0 < i < |es| ensures es[i].key == lo + i {
        assert es[i] == tail[i - 1];
      }
    }
  }

  /**
   * The view holds exactly the keys `1 .. |es|`, and every value is a prefix
   * of the canonical pattern no longer than `MAX_VAL_SIZE`.
   */
  ghost predicate Dense(es: seq<Entry>)
  {
    && (forall k :: k in Content(es) <==> 1 <= k <= |es|)
    && (forall k :: k in Content(es) ==> ValidValue(Content(es)[k]))
  }

  lemma PassIsDense(es: seq<Entry>)
    requires Ordered(es) && Scan(es, 1) == Pass
    ensures Dense(es)
  {
    ScanPasses(es, 1);
    ConsecutiveKeys(es, 1);
    forall k | k in Content(es) ensures ValidValue(Content(es)[k]) {
      InContent(es, k);
      var i :| 0 <= i < |es| && es[i].key == k;
      ContentAt(es, i);
    }
  }

  lemma DenseIsPass(es: seq<Entry>)
    requires Ordered(es) && Dense(es)
    ensures Scan(es, 1) == Pass
  {
    if es != [] {
      OrderedSpread(es);
      assert es[0].key in Content(es);
      assert |es| <= es[|es| - 1].key;
      DenseRangeIsConsecutive(es, 1, |es|);
      forall i | 0 <= i < |es| ensures es[i].key == 1 + i && ValidValue(es[i].value) {
        ContentAt(es, i);
      }
    }
    ScanPasses(es, 1);
  }

  /**
   * A check-mode scan accepts an ordered database exactly when it is `Dense`:
   * keys `1 .. N` with no gap (N the number of records) and valid values.
   */
  lemma VerifyAcceptsExactly(es: seq<Entry>)
    requires Ordered(es)
    ensures Scan(es, 1) == Pass <==> Dense(es)
  {
    if Scan(es, 1) == Pass {
      PassIsDense(es);
    }
    if Dense(es) {
      DenseIsPass(es);
    }
  }

  /** `verify_db(dump)`: scans the records in cursor order with the counter `expect_key`. */
  method VerifyDb(es: seq<Entry>, dump: bool) returns (r: Verdict)
    ensures dump ==> r == Pass
    ensures !dump ==> r == Scan(es, 1)
  {
    var expectKey := 1;
    var expectVal := InitializeValue(MAX_VAL_SIZE);
    var i := 0;
    while i < |es|
      invariant 0 <= i <= |es|
      invariant expectKey == i + 1
      invariant !dump ==> Scan(es, 1) == Scan(es[i..], expectKey)
    {
      var k, v := es[i].key, es[i].value;
      assert es[i..][0] == es[i] && es[i..][1..] == es[i + 1..];
      if !dump {
        if expectKey != k {
          return Fail(KeyMismatch(expectKey, k));
        }
        if |v| > |expectVal| {
          return Fail(ValueTooLong(k, |v|));
        }
        PrefixCompare(expectVal, v);
        if expectVal[..|v|] != v {
          return Fail(ValueMismatch(k));
        }
      }
      expectKey := expectKey + 1;
      i := i + 1;
    }
    return Pass;
  }

  /** A gap at key 2 is reported at the second record: expected 2, found 3. */
  lemma GapIsReported()
    ensures Scan([Entry(1, [0]), Entry(3, [0, 1])], 1) == Fail(KeyMismatch(2, 3))
  {
    var es := [Entry(1, [0]), Entry(3, [0, 1])];
    assert IsPatternPrefix(es[0].value);
    assert es[1..] == [Entry(3, [0, 1])];
  }
}
