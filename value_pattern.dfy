/** The deterministic value pattern `v[i] = i mod 256` (`initialize_value`). */
module ValuePattern {
  import opened Types

  /** `v` agrees with the canonical pattern at every offset it has. */
  predicate IsPatternPrefix(v: seq<byte>)
  {
    forall i :: 0 <= i < |v| ==> v[i] == i % 256
  }

  /** What the verifier accepts as a stored value: a prefix of the `MAX_VAL_SIZE` pattern. */
  predicate ValidValue(v: seq<byte>)
  {
    |v| <= MAX_VAL_SIZE && IsPatternPrefix(v)
  }

  /** `initialize_value`: pushes `i % 256` for each `i` below `len`. */
  method InitializeValue(len: nat) returns (v: seq<byte>)
    ensures |v| == len
    ensures forall i :: 0 <= i < len ==> v[i] == i % 256
  {
    v := [];
    for i := 0 to len
      invariant |v| == i
      invariant IsPatternPrefix(v)
    {
      v := v + [i % 256];
    }
  }

  /**
   * Comparing a value with the first `|v|` bytes of the pattern decides
   * whether it is a pattern prefix; every truncation of the pattern is one.
   */
  lemma PrefixCompare(pattern: seq<byte>, v: seq<byte>)
    requires IsPatternPrefix(pattern) && |v| <= |pattern|
    ensures pattern[..|v|] == v <==> IsPatternPrefix(v)
  {
  }
}
