/** Byte strings: lexicographic order and fixed-width integer encodings.

    RocksDB and the sorted maps of the system compare keys as byte strings, and the key
    codecs embed 64-bit integers either big-endian (order preserving) or little-endian
    (only injective). */
module Bytes {

  type Byte = b: int | 0 <= b < 256
  type ByteString = seq<Byte>

  const TWO_64: int := 0x1_0000_0000_0000_0000
  const U64_MAX: int := TWO_64 - 1
  type U64 = v: int | 0 <= v < TWO_64

  // ---------------------------------------------------------------- order

  /** Lexicographic order; a proper prefix is smaller. */
  predicate Less(a: ByteString, b: ByteString)
    decreases |a|
  {
    b != [] && (a == [] || a[0] < b[0] || (a[0] == b[0] && Less(a[1..], b[1..])))
  }

  predicate AtMost(a: ByteString, b: ByteString) {
    a == b || Less(a, b)
  }

  lemma {:induction false} LessIrreflexive(a: ByteString)
    ensures !Less(a, a)
    decreases |a|
  {
    if a != [] { LessIrreflexive(a[1..]); }
  }

  lemma {:induction false} LessTransitive(a: ByteString, b: ByteString, c: ByteString)
    requires Less(a, b) && Less(b, c)
    ensures Less(a, c)
    decreases |a|
  {
    if a != [] && a[0] == b[0] && b[0] == c[0] { LessTransitive(a[1..], b[1..], c[1..]); }
  }

  lemma {:induction false} LessTotal(a: ByteString, b: ByteString)
    ensures Less(a, b) || a == b || Less(b, a)
    decreases |a|
  {
    if a != [] && b != [] && a[0] == b[0] {
      LessTotal(a[1..], b[1..]);
      assert a == [a[0]] + a[1..] && b == [b[0]] + b[1..];
    }
  }

  lemma LessAsymmetric(a: ByteString, b: ByteString)
    requires Less(a, b)
    ensures !Less(b, a) && a != b
  {
  }

  /** Order of two concatenations whose heads have the same length. */
  lemma {:induction false} LessConcat(a: ByteString, x: ByteString, b: ByteString, y: ByteString)
    requires |a| == |b|
    ensures Less(a + x, b + y) <==> Less(a, b) || (a == b && Less(x, y))
    decreases |a|
  {
    if a == [] {
      assert a + x == x && b + y == y;
    } else {
      assert (a + x)[1..] == a[1..] + x && (b + y)[1..] == b[1..] + y;
      assert a == [a[0]] + a[1..] && b == [b[0]] + b[1..];
      LessConcat(a[1..], x, b[1..], y);
    }
  }

  lemma PrefixAtMost(p: ByteString, x: ByteString)
    ensures AtMost(p, p + x)
    ensures x != [] ==> Less(p, p + x)
  {
    assert p + [] == p;
    LessConcat(p, [], p, x);
  }

  /** The strings that start with `p` form an interval: nothing between two of them lacks `p`. */
  lemma {:induction false} PrefixConvex(p: ByteString, a: ByteString, b: ByteString)
    requires AtMost(p, a) && Less(a, b) && p <= b
    ensures p <= a
    decreases |p|
  {
    if p != [] && a != p {
      assert a != [];
      assert b[0] == p[0];
      assert a[0] == p[0];
      assert p == [p[0]] + p[1..] && a == [a[0]] + a[1..] && b == [b[0]] + b[1..];
      PrefixConvex(p[1..], a[1..], b[1..]);
    }
  }

  // ---------------------------------------------------------------- integers

  function Pow256(n: nat): (r: int)
    ensures r >= 1
  {
    if n == 0 then 1 else 256 * Pow256(n - 1)
  }

  lemma Pow256Eight()
    ensures Pow256(8) == TWO_64
  {
  }

  /** The `n` low bytes of `v`, most significant first (`to_be_bytes`). */
  function BigEndian(v: nat, n: nat): (r: ByteString)
    ensures |r| == n
  {
    if n == 0 then [] else BigEndian(v / 256, n - 1) + [v % 256]
  }

  /** The `n` low bytes of `v`, least significant first (`to_le_bytes`). */
  function LittleEndian(v: nat, n: nat): (r: ByteString)
    ensures |r| == n
  {
    if n == 0 then [] else [v % 256] + LittleEndian(v / 256, n - 1)
  }

  /** `from_be_bytes`. */
  function FromBigEndian(s: ByteString): nat
  {
    if s == [] then 0 else FromBigEndian(s[..|s| - 1]) * 256 + s[|s| - 1]
  }

  lemma {:induction false} BigEndianRoundTrip(v: nat, n: nat)
    requires v < Pow256(n)
    ensures FromBigEndian(BigEndian(v, n)) == v
    decreases n
  {
    if n > 0 {
      BigEndianRoundTrip(v / 256, n - 1);
      var s := BigEndian(v, n);
      assert s[..|s| - 1] == BigEndian(v / 256, n - 1);
    }
  }

  /** Every byte string is the encoding of the number it is read as. */
  lemma {:induction false} FromBigEndianRoundTrip(s: ByteString)
    ensures FromBigEndian(s) < Pow256(|s|) && BigEndian(FromBigEndian(s), |s|) == s
    ensures |s| == 8 ==> FromBigEndian(s) < TWO_64
    decreases |s|
  {
    Pow256Eight();
    if s != [] {
      FromBigEndianRoundTrip(s[..|s| - 1]);
      var v := FromBigEndian(s);
      assert v / 256 == FromBigEndian(s[..|s| - 1]) && v % 256 == s[|s| - 1];
    }
  }

  lemma {:induction false} BigEndianOrder(v: nat, w: nat, n: nat)
    requires v < Pow256(n) && w < Pow256(n)
    ensures Less(BigEndian(v, n), BigEndian(w, n)) <==> v < w
    ensures BigEndian(v, n) == BigEndian(w, n) <==> v == w
    decreases n
  {
    if n > 0 {
      BigEndianOrder(v / 256, w / 256, n - 1);
      LessConcat(BigEndian(v / 256, n - 1), [v % 256], BigEndian(w / 256, n - 1), [w % 256]);
      BigEndianRoundTrip(v, n);
      BigEndianRoundTrip(w, n);
    }
  }

  lemma {:induction false} LittleEndianInjective(v: nat, w: nat, n: nat)
    requires v < Pow256(n) && w < Pow256(n)
    requires LittleEndian(v, n) == LittleEndian(w, n)
    ensures v == w
    decreases n
  {
    if n > 0 {
      assert LittleEndian(v, n)[0] == LittleEndian(w, n)[0];
      assert LittleEndian(v, n)[1..] == LittleEndian(v / 256, n - 1);
      assert LittleEndian(w, n)[1..] == LittleEndian(w / 256, n - 1);
      LittleEndianInjective(v / 256, w / 256, n - 1);
    }
  }
}
