/** The memcomparable key codec of the MVCC engine (module `keys` of engine/group.rs).

    A stored key is the little-endian collection id, the user key cut in groups of eight
    bytes (the last one zero padded), each followed by a marker byte, and the bitwise
    complement of the version in big-endian. */
module MvccKeys {
  import opened Bytes

  const GROUP: nat := 8
  const MARKER_BASE: nat := 48  // b'0'

  // ---------------------------------------------------------------- specification

  function Zeros(n: nat): (z: ByteString)
    ensures |z| == n
    ensures forall i :: 0 <= i < n ==> z[i] == 0
  {
    if n == 0 then [] else [0] + Zeros(n - 1)
  }

  /** `k` followed by zero bytes up to length `n`. */
  function Pad(k: ByteString, n: nat): (p: ByteString)
    requires |k| <= n
    ensures |p| == n
  {
    k + Zeros(n - |k|)
  }

  function EncodeGroups(key: ByteString): (g: ByteString)
    requires key != []
    decreases |key|
  {
    if |key| <= GROUP then
      Pad(key, GROUP) + [MARKER_BASE + |key|]
    else
      key[..GROUP] + [MARKER_BASE + GROUP + 1] + EncodeGroups(key[GROUP..])
  }

  function DecodeGroups(g: ByteString): (key: ByteString)
    requires MarkersValid(g)
    decreases |g|
  {
    if g == [] then [] else g[..MarkedLength(g[GROUP])] + DecodeGroups(g[GROUP + 1..])
  }

  /** How many bytes of a group the marker `m` keeps. */
  function MarkedLength(m: Byte): (n: nat)
    requires m >= MARKER_BASE
    ensures n <= GROUP
  {
    if m - MARKER_BASE < GROUP then m - MARKER_BASE else GROUP
  }

  /** Whole groups, and no marker on which the subtraction of b'0' underflows. */
  predicate MarkersValid(g: ByteString)
    decreases |g|
  {
    g == [] || (|g| > GROUP && g[GROUP] >= MARKER_BASE && MarkersValid(g[GROUP + 1..]))
  }

  function CollectionPrefix(collection: U64): (p: ByteString)
    ensures |p| == 8
  {
    LittleEndian(collection, 8)
  }

  function VersionSuffix(version: U64): (s: ByteString)
    ensures |s| == 8
  {
    BigEndian(U64_MAX - version, 8)
  }

  function EncodedKey(collection: U64, key: ByteString, version: U64): (e: ByteString)
    requires key != []
  {
    CollectionPrefix(collection) + EncodeGroups(key) + VersionSuffix(version)
  }

  /** The seek position used by a snapshot (`keys::raw`). */
  function SeekKey(collection: U64, key: ByteString): ByteString {
    if key == [] then CollectionPrefix(collection) else EncodedKey(collection, key, U64_MAX)
  }

  /** The version decoded from a stored key (`MvccEntry::version`). */
  function VersionOf(stored: ByteString): int
    requires |stored| >= 8
  {
    U64_MAX - FromBigEndian(stored[|stored| - 8..])
  }

  // ---------------------------------------------------------------- the loops

  /** `keys::mvcc_key`: a cursor over the user key fills the buffer group by group. */
  method MvccKey(collection: U64, key: ByteString, version: U64) returns (buf: ByteString)
    requires key != []
    ensures buf == EncodedKey(collection, key, version)
  {
    hide EncodeGroups;
    buf := LittleEndian(collection, 8);
    var cursor := 0;
    assert key[0..] == key;
    while cursor < |key|
      invariant 0 <= cursor <= |key|
      invariant cursor < |key| ==>
                  buf + EncodeGroups(key[cursor..]) == CollectionPrefix(collection) + EncodeGroups(key)
      invariant cursor == |key| ==> buf == CollectionPrefix(collection) + EncodeGroups(key)
    {
      EncodeStep(buf, key, cursor);
      var size := if |key| - cursor < 8 then |key| - cursor else 8;
      var group := key[cursor..cursor + size] + Zeros(8 - size);
      cursor := cursor + size;
      if size == 8 && cursor < |key| {
        size := size + 1;
      }
      buf := buf + group + [MARKER_BASE + size];
    }
    buf := buf + BigEndian(U64_MAX - version, 8);
  }

  /** Encoding one group keeps what was encoded and what is left together. */
  lemma EncodeStep(buf: ByteString, key: ByteString, cursor: nat)
    requires cursor < |key|
    ensures cursor + 8 < |key| ==>
              buf + EncodeGroups(key[cursor..])
              == buf + (key[cursor..cursor + 8] + Zeros(0)) + [MARKER_BASE + 9] + EncodeGroups(key[cursor + 8..])
    ensures cursor + 8 >= |key| ==>
              buf + EncodeGroups(key[cursor..])
              == buf + (key[cursor..] + Zeros(8 - (|key| - cursor))) + [MARKER_BASE + (|key| - cursor)]
  {
    var rest := key[cursor..];
    if cursor + 8 < |key| {
      assert rest[..GROUP] == key[cursor..cursor + 8] && rest[GROUP..] == key[cursor + 8..];
    }
  }

  /** Decoding one group keeps what was decoded and what is left together. */
  lemma DecodeStep(groups: ByteString, cursor: nat, key: ByteString)
    requires cursor < |groups| && MarkersValid(groups[cursor..]) && Decoding(groups, cursor, key)
    ensures cursor + 9 <= |groups| && groups[cursor + 8] >= MARKER_BASE && MarkersValid(groups[cursor + 9..])
    ensures var marked := groups[cursor + 8] - MARKER_BASE;
            Decoding(groups, cursor + 9, key + groups[cursor..cursor + (if marked < 8 then marked else 8)])
  {
    var rest := groups[cursor..];
    var n := MarkedLength(rest[GROUP]);
    assert rest[GROUP + 1..] == groups[cursor + 9..] && rest[..n] == groups[cursor..cursor + n];
    assert key + (rest[..n] + DecodeGroups(rest[GROUP + 1..])) == key + rest[..n] + DecodeGroups(rest[GROUP + 1..]);
  }

  /** `keys::revert_mvcc_key`: recovers the user key of a stored key. */
  method RevertMvccKey(stored: ByteString) returns (key: ByteString)
    requires |stored| > 16
    requires MarkersValid(stored[8..|stored| - 8])
    ensures key == DecodeGroups(stored[8..|stored| - 8])
  {
    hide DecodeGroups, MarkersValid, MarkedLength, Decoding;
    var groups: ByteString := stored[8..|stored| - 8];
    var cursor := 0;
    key := [];
    NothingDecoded(groups);
    while cursor < |groups|
      invariant 0 <= cursor <= |groups|
      invariant MarkersValid(groups[cursor..])
      invariant Decoding(groups, cursor, key)
    {
      DecodeStep(groups, cursor, key);
      var marked := groups[cursor + 8] - MARKER_BASE;
      var numElement := if marked < 8 then marked else 8;
      key := key + groups[cursor..cursor + numElement];
      cursor := cursor + 9;
    }
    AllDecoded(groups, cursor, key);
  }

  /** What is decoded and what is left make up the whole. */
  ghost predicate Decoding(groups: ByteString, cursor: nat, key: ByteString) {
    && MarkersValid(groups) && cursor <= |groups| && MarkersValid(groups[cursor..])
    && key + DecodeGroups(groups[cursor..]) == DecodeGroups(groups)
  }

  lemma NothingDecoded(groups: ByteString)
    requires MarkersValid(groups)
    ensures MarkersValid(groups[0..]) && Decoding(groups, 0, [])
  {
    assert groups[0..] == groups;
  }

  lemma AllDecoded(groups: ByteString, cursor: nat, key: ByteString)
    requires Decoding(groups, cursor, key) && cursor == |groups|
    ensures key == DecodeGroups(groups)
  {
    assert groups[cursor..] == [];
  }

  // ---------------------------------------------------------------- round trip

  lemma LastGroup(key: ByteString)
    requires 0 < |key| <= GROUP
    ensures var g := EncodeGroups(key); |g| == GROUP + 1 && MarkersValid(g) && DecodeGroups(g) == key
  {
    var g := EncodeGroups(key);
    assert g[GROUP] == MARKER_BASE + |key| && g[GROUP + 1..] == [];
    assert g[..|key|] == key;
    assert DecodeGroups([]) == [];
  }

  lemma FullGroup(key: ByteString)
    requires |key| > GROUP
    ensures var g, rest := EncodeGroups(key), EncodeGroups(key[GROUP..]);
            && |g| == GROUP + 1 + |rest| && (MarkersValid(rest) ==> MarkersValid(g))
            && (MarkersValid(rest) ==> DecodeGroups(g) == key[..GROUP] + DecodeGroups(rest))
  {
    var g := EncodeGroups(key);
    assert g[GROUP + 1..] == EncodeGroups(key[GROUP..]) && g[..GROUP] == key[..GROUP];
  }

  lemma {:induction false} GroupsRoundTrip(key: ByteString)
    requires key != []
    ensures MarkersValid(EncodeGroups(key))
    ensures DecodeGroups(EncodeGroups(key)) == key
    ensures |EncodeGroups(key)| == 9 * ((|key| + 7) / 8)
    decreases |key|
  {
    hide EncodeGroups, DecodeGroups, MarkersValid;
    if |key| <= GROUP {
      LastGroup(key);
    } else {
      FullGroup(key);
      GroupsRoundTrip(key[GROUP..]);
      assert key == key[..GROUP] + key[GROUP..];
    }
  }

  /** Decoding inverts encoding, for the key and for the version, and the length is exact. */
  lemma StoredKeyRoundTrip(collection: U64, key: ByteString, version: U64)
    requires key != []
    ensures var e := EncodedKey(collection, key, version);
            && |e| == 16 + 9 * ((|key| + 7) / 8)
            && e[..8] == CollectionPrefix(collection)
            && MarkersValid(e[8..|e| - 8])
            && DecodeGroups(e[8..|e| - 8]) == key
            && VersionOf(e) == version
  {
    var e := EncodedKey(collection, key, version);
    GroupsRoundTrip(key);
    assert e[8..|e| - 8] == EncodeGroups(key);
    assert e[|e| - 8..] == VersionSuffix(version);
    Pow256Eight();
    BigEndianRoundTrip(U64_MAX - version, 8);
  }

  /** Distinct (collection, key, version) triples never collide in the store. */
  lemma StoredKeyInjective(c1: U64, k1: ByteString, v1: U64, c2: U64, k2: ByteString, v2: U64)
    requires k1 != [] && k2 != []
    requires EncodedKey(c1, k1, v1) == EncodedKey(c2, k2, v2)
    ensures c1 == c2 && k1 == k2 && v1 == v2
  {
    StoredKeyRoundTrip(c1, k1, v1);
    StoredKeyRoundTrip(c2, k2, v2);
    Pow256Eight();
    LittleEndianInjective(c1, c2, 8);
  }

  // ---------------------------------------------------------------- order

  lemma PadStep(a: ByteString, n: nat)
    requires |a| <= n && n > 0
    ensures a != [] ==> Pad(a, n) == [a[0]] + Pad(a[1..], n - 1)
    ensures a == [] ==> Pad(a, n) == [0] + Pad([], n - 1)
  {
    if a != [] { assert a == [a[0]] + a[1..]; }
  }

  lemma LessCons(x: Byte, p: ByteString, y: Byte, q: ByteString)
    ensures Less([x] + p, [y] + q) <==> x < y || (x == y && Less(p, q))
    ensures [x] + p == [y] + q <==> x == y && p == q
  {
    assert ([x] + p)[1..] == p && ([y] + q)[1..] == q;
  }

  /** Padding keeps the order, except that trailing zeros may make two strings equal;
      then one is a prefix of the other. */
  lemma {:induction false} PadOrder(a: ByteString, b: ByteString, n: nat)
    requires |a| <= n && |b| <= n
    ensures Pad(a, n) != Pad(b, n) ==> (Less(Pad(a, n), Pad(b, n)) <==> Less(a, b)) && a != b
    ensures Pad(a, n) == Pad(b, n) ==> (Less(a, b) <==> |a| < |b|) && (a == b <==> |a| == |b|)
    decreases n
  {
    if n > 0 {
      PadStep(a, n);
      PadStep(b, n);
      hide Pad;
      var x, a' := if a == [] then 0 else a[0], if a == [] then [] else a[1..];
      var y, b' := if b == [] then 0 else b[0], if b == [] then [] else b[1..];
      PadOrder(a', b', n - 1);
      LessCons(x, Pad(a', n - 1), y, Pad(b', n - 1));
      if a != [] && b != [] {
        LessCons(x, a', y, b');
        assert a == [x] + a' && b == [y] + b';
      }
    }
  }

  /** One group against the start of a longer key. */
  lemma PadAgainstHead(a: ByteString, b: ByteString)
    requires |a| <= GROUP < |b|
    ensures Pad(a, GROUP) != b[..GROUP] ==>
              (Less(Pad(a, GROUP), b[..GROUP]) <==> Less(a, b)) && (Less(b[..GROUP], Pad(a, GROUP)) <==> Less(b, a))
    ensures Pad(a, GROUP) == b[..GROUP] ==> Less(a, b) && !Less(b, a)
  {
    var h := b[..GROUP];
    assert Pad(h, GROUP) == h;
    PadOrder(a, h, GROUP);
    PadOrder(h, a, GROUP);
    assert b == h + b[GROUP..];
    if Pad(a, GROUP) == h {
      assert h[..|a|] == a;
      assert b == a + b[|a|..];
      PrefixAtMost(a, b[|a|..]);
      LessAsymmetric(a, b);
    } else {
      // compare `a` with `b` through the head of `b`
      PrefixAtMost(h, b[GROUP..]);
      if Less(a, h) {
        LessTransitive(a, h, b);
        LessAsymmetric(a, b);
        LessAsymmetric(a, h);
        LessAsymmetric(Pad(a, GROUP), h);
      } else {
        LessTotal(a, h);
        HeadAbove(h, a, b[GROUP..]);
        LessAsymmetric(b, a);
        LessAsymmetric(h, Pad(a, GROUP));
      }
    }
  }

  /** If `h` is below the no longer `a`, every extension of `h` is below `a` too. */
  lemma {:induction false} HeadAbove(h: ByteString, a: ByteString, x: ByteString)
    requires Less(h, a) && |a| <= |h|
    ensures Less(h + x, a)
    decreases |h|
  {
    assert h != [] && (h + x)[0] == h[0];
    assert (h + x)[1..] == h[1..] + x;
    if h[0] == a[0] { HeadAbove(h[1..], a[1..], x); }
  }

  lemma {:induction false} GroupsOrder(a: ByteString, x: ByteString, b: ByteString, y: ByteString)
    requires a != [] && b != []
    ensures Less(EncodeGroups(a) + x, EncodeGroups(b) + y) <==> Less(a, b) || (a == b && Less(x, y))
    decreases |a|
  {
    if |a| <= GROUP && |b| <= GROUP {
      ShortGroupsOrder(a, x, b, y);
    } else if |a| <= GROUP {
      var m := [MARKER_BASE + |a|];
      var n := [MARKER_BASE + GROUP + 1];
      assert EncodeGroups(a) + x == Pad(a, GROUP) + (m + x);
      assert EncodeGroups(b) + y == b[..GROUP] + (n + (EncodeGroups(b[GROUP..]) + y));
      LessConcat(Pad(a, GROUP), m + x, b[..GROUP], n + (EncodeGroups(b[GROUP..]) + y));
      PadAgainstHead(a, b);
    } else if |b| <= GROUP {
      var m := [MARKER_BASE + |b|];
      var n := [MARKER_BASE + GROUP + 1];
      assert EncodeGroups(b) + y == Pad(b, GROUP) + (m + y);
      assert EncodeGroups(a) + x == a[..GROUP] + (n + (EncodeGroups(a[GROUP..]) + x));
      var tail := n + (EncodeGroups(a[GROUP..]) + x);
      LessConcat(a[..GROUP], tail, Pad(b, GROUP), m + y);
      assert tail[0] > (m + y)[0];
      PadAgainstHead(b, a);
      LessIrreflexive(Pad(b, GROUP));
    } else {
      var m := [MARKER_BASE + GROUP + 1];
      var ea, eb := EncodeGroups(a[GROUP..]) + x, EncodeGroups(b[GROUP..]) + y;
      assert EncodeGroups(a) + x == a[..GROUP] + (m + ea);
      assert EncodeGroups(b) + y == b[..GROUP] + (m + eb);
      LessConcat(a[..GROUP], m + ea, b[..GROUP], m + eb);
      LessConcat(m, ea, m, eb);
      LessIrreflexive(m);
      GroupsOrder(a[GROUP..], x, b[GROUP..], y);
      assert a == a[..GROUP] + a[GROUP..] && b == b[..GROUP] + b[GROUP..];
      LessConcat(a[..GROUP], a[GROUP..], b[..GROUP], b[GROUP..]);
    }
  }

  lemma ShortGroupsOrder(a: ByteString, x: ByteString, b: ByteString, y: ByteString)
    requires 0 < |a| <= GROUP && 0 < |b| <= GROUP
    ensures Less(EncodeGroups(a) + x, EncodeGroups(b) + y) <==> Less(a, b) || (a == b && Less(x, y))
  {
    var m, n := [MARKER_BASE + |a|], [MARKER_BASE + |b|];
    assert EncodeGroups(a) + x == Pad(a, GROUP) + (m + x);
    assert EncodeGroups(b) + y == Pad(b, GROUP) + (n + y);
    LessConcat(Pad(a, GROUP), m + x, Pad(b, GROUP), n + y);
    LessConcat(m, x, n, y);
    assert Less([], []) == false;
    PadOrder(a, b, GROUP);
    LessIrreflexive(Pad(a, GROUP));
  }

  /** The byte order of stored keys is: user key ascending, then version descending. */
  lemma StoredKeyOrder(collection: U64, k1: ByteString, v1: U64, k2: ByteString, v2: U64)
    requires k1 != [] && k2 != []
    ensures Less(EncodedKey(collection, k1, v1), EncodedKey(collection, k2, v2))
            <==> Less(k1, k2) || (k1 == k2 && v1 > v2)
  {
    var p := CollectionPrefix(collection);
    var s1, s2 := VersionSuffix(v1), VersionSuffix(v2);
    assert EncodedKey(collection, k1, v1) == p + (EncodeGroups(k1) + s1);
    assert EncodedKey(collection, k2, v2) == p + (EncodeGroups(k2) + s2);
    LessConcat(p, EncodeGroups(k1) + s1, p, EncodeGroups(k2) + s2);
    LessIrreflexive(p);
    GroupsOrder(k1, s1, k2, s2);
    Pow256Eight();
    BigEndianOrder(U64_MAX - v1, U64_MAX - v2, 8);
  }

  /** The seek position separates exactly: a stored key of the collection lies at or after
      it if and only if its user key is at least the sought key. */
  lemma SeekIsLeast(collection: U64, sought: ByteString, key: ByteString, version: U64)
    requires key != []
    ensures AtMost(SeekKey(collection, sought), EncodedKey(collection, key, version)) <==> AtMost(sought, key)
  {
    var e := EncodedKey(collection, key, version);
    if sought == [] {
      var p := CollectionPrefix(collection);
      assert e == p + (EncodeGroups(key) + VersionSuffix(version));
      PrefixAtMost(p, EncodeGroups(key) + VersionSuffix(version));
    } else {
      var s := EncodedKey(collection, sought, U64_MAX);
      StoredKeyOrder(collection, key, version, sought, U64_MAX);
      LessTotal(e, s);
      LessTotal(key, sought);
      LessIrreflexive(e);
      LessIrreflexive(key);
      if Less(s, e) { LessAsymmetric(s, e); }
      if Less(sought, key) { LessAsymmetric(sought, key); }
    }
  }
}
