/**
 * Keys are written to the store as 8-byte big-endian integers. This module
 * proves that the encoding is a bijection between `u64` and 8-byte strings and
 * that the engine's byte-wise key order agrees with numeric order, which is why
 * a cursor walks the records in ascending numeric key order.
 */
module KeyCodec {
  import opened Types

  const KEY_LEN: nat := 8

  function Pow256(n: nat): (r: nat)
    ensures r > 0
  {
    if n == 0 then 1 else 256 * Pow256(n - 1)
  }

  /** The low `n` base-256 digits of `x`, most significant first. */
  function BeBytes(x: nat, n: nat): (r: seq<byte>)
    ensures |r| == n
  {
    if n == 0 then [] else BeBytes(x / 256, n - 1) + [x % 256]
  }

  /** The number whose big-endian base-256 digits are `s`. */
  function BeValue(s: seq<byte>): (r: nat)
    ensures r < Pow256(|s|)
  {
    if s == [] then 0
    else
      var hi := BeValue(s[..|s| - 1]);
      assert hi * 256 + s[|s| - 1] < Pow256(|s|) by {
        assert hi <= Pow256(|s| - 1) - 1;
        assert hi * 256 <= Pow256(|s| - 1) * 256 - 256;
      }
      hi * 256 + s[|s| - 1]
  }

  lemma Pow256Eight()
    ensures Pow256(KEY_LEN) == U64_LIMIT
  {
  }

  /** `BigEndian::write_u64`: the 8-byte key for `k`. */
  function EncodeKey(k: u64): (r: seq<byte>)
    ensures |r| == KEY_LEN
  {
    BeBytes(k, KEY_LEN)
  }

  /** `BigEndian::read_u64`: reads the first 8 bytes; the source panics on a shorter slice. */
  function DecodeKey(s: seq<byte>): (r: u64)
    requires |s| >= KEY_LEN
  {
    Pow256Eight();
    BeValue(s[..KEY_LEN])
  }

  lemma {:induction false} BeValueOfBytes(x: nat, n: nat)
    requires x < Pow256(n)
    ensures BeValue(BeBytes(x, n)) == x
  {
    if n > 0 {
      var s := BeBytes(x, n);
      assert s[..n - 1] == BeBytes(x / 256, n - 1) && s[n - 1] == x % 256;
      assert x / 256 < Pow256(n - 1) by {
        assert x < 256 * Pow256(n - 1);
      }
      BeValueOfBytes(x / 256, n - 1);
      assert BeValue(s) == (x / 256) * 256 + x % 256;
    }
  }

  lemma {:induction false} BeBytesOfValue(s: seq<byte>)
    ensures BeBytes(BeValue(s), |s|) == s
  {
    if s != [] {
      var p, b := s[..|s| - 1], s[|s| - 1];
      var x := BeValue(s);
      assert x == BeValue(p) * 256 + b;
      assert x / 256 == BeValue(p) && x % 256 == b;
      BeBytesOfValue(p);
      assert s == p + [b];
    }
  }

  /** Decoding inverts encoding. */
  lemma DecodeEncode(k: u64)
    ensures DecodeKey(EncodeKey(k)) == k
  {
    Pow256Eight();
    var s := EncodeKey(k);
    assert s[..KEY_LEN] == s;
    BeValueOfBytes(k, KEY_LEN);
  }

  /** Encoding inverts decoding on 8-byte strings, so the encoding is onto. */
  lemma EncodeDecode(s: seq<byte>)
    requires |s| == KEY_LEN
    ensures EncodeKey(DecodeKey(s)) == s
  {
    assert s[..KEY_LEN] == s;
    BeBytesOfValue(s);
  }

  /**
   * The engine's default key comparison: byte-wise, and a proper prefix comes
   * first.
   */
  predicate LexLess(p: seq<byte>, q: seq<byte>)
  {
    if p == [] then q != []
    else if q == [] then false
    else p[0] < q[0] || (p[0] == q[0] && LexLess(p[1..], q[1..]))
  }

  lemma {:induction false} LexLessAppend(p: seq<byte>, q: seq<byte>, a: byte, b: byte)
    requires |p| == |q|
    ensures LexLess(p + [a], q + [b]) <==> LexLess(p, q) || (p == q && a < b)
  {
    if p != [] {
      assert (p + [a])[1..] == p[1..] + [a];
      assert (q + [b])[1..] == q[1..] + [b];
      LexLessAppend(p[1..], q[1..], a, b);
      assert p == q <==> p[0] == q[0] && p[1..] == q[1..] by {
        if p[0] == q[0] && p[1..] == q[1..] {
          assert p == [p[0]] + p[1..] && q == [q[0]] + q[1..];
        }
      }
    }
  }

  lemma {:induction false} BeBytesOrder(x: nat, y: nat, n: nat)
    requires x < Pow256(n) && y < Pow256(n)
    ensures x < y <==> LexLess(BeBytes(x, n), BeBytes(y, n))
  {
    if n == 0 {
    } else {
      var px, py := BeBytes(x / 256, n - 1), BeBytes(y / 256, n - 1);
      LexLessAppend(px, py, x % 256, y % 256);
      BeBytesOrder(x / 256, y / 256, n - 1);
      if px == py {
        BeValueOfBytes(x / 256, n - 1);
        BeValueOfBytes(y / 256, n - 1);
      }
    }
  }

  /** Byte-wise order of encoded keys is numeric order (both directions). */
  lemma EncodeKeyOrder(a: u64, b: u64)
    ensures a < b <==> LexLess(EncodeKey(a), EncodeKey(b))
  {
    Pow256Eight();
    BeBytesOrder(a, b, KEY_LEN);
  }
}
