/** Shards and their key ranges (schema/src/shard.rs). */
module ShardRange {
  import opened Bytes
  import opened Options

  datatype Shard = Shard(id: nat, collection: U64, range: Option<(ByteString, ByteString)>)

  /** `shard::in_range`: an empty end means unbounded. */
  predicate InRange(start: ByteString, end: ByteString, key: ByteString) {
    AtMost(start, key) && (Less(key, end) || end == [])
  }

  /** `shard::belong_to`. */
  predicate BelongsTo(shard: Shard, key: ByteString) {
    shard.range.Some? && InRange(shard.range.value.0, shard.range.value.1, key)
  }

  /** `shard::start_key` and `shard::end_key`. */
  function StartKey(shard: Shard): ByteString { if shard.range.Some? then shard.range.value.0 else [] }

  function EndKey(shard: Shard): ByteString { if shard.range.Some? then shard.range.value.1 else [] }
}
