/**
 * The storage engine, reduced to what the harness observes of its default
 * database: the committed records in cursor order. A record list is kept
 * strictly ascending by key (`Ordered`); `Content` is its key -> value view.
 * `Get`, `Del` and `Put` are the engine calls the harness makes inside a
 * transaction, applied to that transaction's view of the records.
 */
module Store {
  import opened Types

  datatype Entry = Entry(key: u64, value: seq<byte>)

  /** The key -> value view of a record list (the first record for a key wins). */
  ghost function Content(es: seq<Entry>): map<u64, seq<byte>>
  {
    if es == [] then map[] else Content(es[1..])[es[0].key := es[0].value]
  }

  /** Every record's key is below the keys of all later records. */
  ghost predicate Ordered(es: seq<Entry>)
  {
    es == [] || ((forall k :: k in Content(es[1..]) ==> es[0].key < k) && Ordered(es[1..]))
  }

  /** A key is present exactly when some record carries it. */
  lemma {:induction false} InContent(es: seq<Entry>, k: u64)
    ensures k in Content(es) <==> exists i :: 0 <= i < |es| && es[i].key == k
  {
    if es != [] {
      InContent(es[1..], k);
      if k in Content(es[1..]) {
        var i :| 0 <= i < |es[1..]| && es[1..][i].key == k;
        assert es[i + 1].key == k;
      }
      if i :| 0 < i < |es| && es[i].key == k {
        assert es[1..][i - 1].key == k;
      }
    }
  }

  /** In an ordered list, the view maps each record's key to that record's value. */
  lemma {:induction false} ContentAt(es: seq<Entry>, i: nat)
    requires Ordered(es) && i < |es|
    ensures es[i].key in Content(es) && Content(es)[es[i].key] == es[i].value
  {
    if i > 0 {
      ContentAt(es[1..], i - 1);
    }
  }

  /** `Ordered` is the pairwise strict order of keys along the list, in both directions. */
  lemma {:induction false} OrderedPairwise(es: seq<Entry>)
    ensures Ordered(es) <==> forall i, j :: 0 <= i < j < |es| ==> es[i].key < es[j].key
  {
    if es != [] {
      OrderedPairwise(es[1..]);
      forall k | k in Content(es[1..]) ensures exists j :: 0 <= j < |es[1..]| && es[1..][j].key == k {
        InContent(es[1..], k);
      }
      if forall i, j :: 0 <= i < j < |es| ==> es[i].key < es[j].key {
        assert forall i, j :: 0 <= i < j < |es[1..]| ==> es[1..][i].key < es[1..][j].key by {
          forall i, j | 0 <= i < j < |es[1..]| ensures es[1..][i].key < es[1..][j].key {
            assert es[1..][i] == es[i + 1] && es[1..][j] == es[j + 1];
          }
        }
      }
      if Ordered(es) {
        forall i, j | 0 <= i < j < |es| ensures es[i].key < es[j].key {
          if i == 0 {
            InContent(es[1..], es[j].key);
            assert es[1..][j - 1].key == es[j].key;
          } else {
            assert es[1..][i - 1] == es[i] && es[1..][j - 1] == es[j];
          }
        }
      }
    }
  }

  /** Keys along an ordered list grow by at least one per record. */
  lemma {:induction false} OrderedSpread(es: seq<Entry>)
    requires Ordered(es)
    ensures forall i :: 0 <= i < |es| ==> es[0].key + i <= es[i].key
  {
    if |es| > 1 {
      OrderedSpread(es[1..]);
      assert es[1] == es[1..][0];
      assert es[1].key in Content(es[1..]);
      forall i | 1 <= i < |es| ensures es[0].key + i <= es[i].key {
        assert es[i] == es[1..][i - 1];
      }
    }
  }

  /** `Get`: the value stored under `k`, or `NotFound`. */
  function Get(es: seq<Entry>, k: u64): (r: Result<seq<byte>>)
    ensures r.Ok? <==> k in Content(es)
    ensures r.Ok? ==> r.value == Content(es)[k]
  {
    if es == [] then Err(NotFound)
    else if es[0].key == k then Ok(es[0].value)
    else Get(es[1..], k)
  }

  /** `del(key)`: removes the record for `k`, or fails with `NotFound` when there is none. */
  method Del(es: seq<Entry>, k: u64) returns (r: Result<seq<Entry>>)
    requires Ordered(es)
    ensures r.Err? <==> k !in Content(es)
    ensures r.Ok? ==> Ordered(r.value) && Content(r.value) == Content(es) - {k}
    decreases |es|
  {
    if es == [] {
      return Err(NotFound);
    }
    if es[0].key == k {
      return Ok(es[1..]);
    }
    r := Del(es[1..], k);
    if r.Ok? {
      assert ([es[0]] + r.value)[1..] == r.value;
      r := Ok([es[0]] + r.value);
    }
  }

  /**
   * `put(key, value)` with no write flags: inserts the record at its place in
   * key order, replacing the value of an existing record for `k`.
   */
  method Put(es: seq<Entry>, k: u64, v: seq<byte>) returns (r: seq<Entry>)
    requires Ordered(es)
    ensures Ordered(r) && Content(r) == Content(es)[k := v]
    decreases |es|
  {
    if es == [] {
      r := [Entry(k, v)];
      assert r[1..] == [];
    } else if k < es[0].key {
      r := [Entry(k, v)] + es;
      assert r[1..] == es;
    } else if k == es[0].key {
      r := [Entry(k, v)] + es[1..];
      assert r[1..] == es[1..];
    } else {
      var rest := Put(es[1..], k, v);
      r := [es[0]] + rest;
      assert r[1..] == rest;
    }
  }

  /** An ordered list is empty exactly when its view is. */
  lemma EmptyContent(es: seq<Entry>)
    ensures es == [] <==> Content(es) == map[]
  {
    if es != [] {
      assert es[0].key in Content(es);
    }
  }
}
