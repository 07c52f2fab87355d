/** Keys of the transaction table (schema/src/system/keys.rs). */
module TxnKeys {
  import opened Bytes

  const TXN_PREFIX: ByteString := [116, 120, 110, 95]                // "txn_"
  const SUFFIX_STATE: ByteString := [115, 116, 97, 116, 101]         // "state"
  const SUFFIX_HEARTBEAT: ByteString := [104, 98]                    // "hb"
  const SUFFIX_COMMIT: ByteString := [99, 111, 109, 109, 105, 116]   // "commit"

  function LowerKey(tag: Byte): ByteString { TXN_PREFIX + [tag] }

  function Prefix(tag: Byte, txn: U64): (p: ByteString)
    ensures |p| == 13
  {
    LowerKey(tag) + BigEndian(txn, 8)
  }

  function StateKey(tag: Byte, txn: U64): ByteString { Prefix(tag, txn) + SUFFIX_STATE }

  function HeartbeatKey(tag: Byte, txn: U64): ByteString { Prefix(tag, txn) + SUFFIX_HEARTBEAT }

  function CommitKey(tag: Byte, txn: U64): ByteString { Prefix(tag, txn) + SUFFIX_COMMIT }

  /** The prefix determines the transaction. */
  lemma PrefixInjective(tag1: Byte, txn1: U64, tag2: Byte, txn2: U64)
    requires Prefix(tag1, txn1) == Prefix(tag2, txn2)
    ensures tag1 == tag2 && txn1 == txn2
  {
    assert Prefix(tag1, txn1)[4] == tag1 && Prefix(tag2, txn2)[4] == tag2;
    assert Prefix(tag1, txn1)[5..] == BigEndian(txn1, 8);
    assert Prefix(tag2, txn2)[5..] == BigEndian(txn2, 8);
    Pow256Eight();
    BigEndianOrder(txn1, txn2, 8);
  }

  /** The order in which a scan returns the keys of one transaction. */
  lemma KeyOrder(tag: Byte, txn: U64)
    ensures Less(CommitKey(tag, txn), HeartbeatKey(tag, txn))
    ensures Less(HeartbeatKey(tag, txn), StateKey(tag, txn))
    ensures Less(CommitKey(tag, txn), StateKey(tag, txn))
  {
    var p := Prefix(tag, txn);
    LessConcat(p, SUFFIX_COMMIT, p, SUFFIX_HEARTBEAT);
    LessConcat(p, SUFFIX_HEARTBEAT, p, SUFFIX_STATE);
    LessConcat(p, SUFFIX_COMMIT, p, SUFFIX_STATE);
  }

  lemma KeysDistinct(tag: Byte, txn: U64)
    ensures CommitKey(tag, txn) != HeartbeatKey(tag, txn)
    ensures HeartbeatKey(tag, txn) != StateKey(tag, txn)
    ensures CommitKey(tag, txn) != StateKey(tag, txn)
  {
  }

  ghost predicate IsKeyOf(tag: Byte, txn: U64, key: ByteString) {
    key == CommitKey(tag, txn) || key == HeartbeatKey(tag, txn) || key == StateKey(tag, txn)
  }

  /** A key of one transaction lies under the prefix of no other. */
  lemma KeysSeparate(tag1: Byte, txn1: U64, tag2: Byte, txn2: U64, key: ByteString)
    requires IsKeyOf(tag1, txn1, key) && Prefix(tag2, txn2) <= key
    ensures tag1 == tag2 && txn1 == txn2
  {
    assert key[..13] == Prefix(tag1, txn1);
    assert key[..13] == Prefix(tag2, txn2);
    PrefixInjective(tag1, txn1, tag2, txn2);
  }
}
