/** `get_last_key`: the tail key, found by positioning a cursor on the last record. */
module Locator {
  import opened Types
  import opened Store
  import opened KeyCodec

  /**
   * Records are kept ascending by numeric key exactly when their 8-byte
   * big-endian keys ascend in the engine's byte-wise order, so the cursor's
   * order is numeric order and its last record holds the largest key.
   */
  lemma CursorOrder(es: seq<Entry>)
    ensures Ordered(es) <==>
      forall i, j :: 0 <= i < j < |es| ==> LexLess(EncodeKey(es[i].key), EncodeKey(es[j].key))
  {
    OrderedPairwise(es);
    forall i, j | 0 <= i < j < |es|
      ensures es[i].key < es[j].key <==> LexLess(EncodeKey(es[i].key), EncodeKey(es[j].key))
    {
      EncodeKeyOrder(es[i].key, es[j].key);
    }
  }

  /** The last record of an ordered list holds its largest key. */
  lemma LastIsMax(es: seq<Entry>)
    requires Ordered(es) && es != []
    ensures es[|es| - 1].key in Content(es)
    ensures forall k :: k in Content(es) ==> k <= es[|es| - 1].key
  {
    OrderedPairwise(es);
    InContent(es, es[|es| - 1].key);
    forall k | k in Content(es) ensures k <= es[|es| - 1].key {
      InContent(es, k);
    }
  }

  /** `None` for an empty database, otherwise the largest key present. */
  function GetLastKey(es: seq<Entry>): (r: Option<u64>)
    requires Ordered(es)
    ensures r.None? <==> Content(es) == map[]
    ensures r.Some? ==> r.value in Content(es) && forall k :: k in Content(es) ==> k <= r.value
  {
    EmptyContent(es);
    if es == [] then None
    else
      LastIsMax(es);
      Some(es[|es| - 1].key)
  }
}
