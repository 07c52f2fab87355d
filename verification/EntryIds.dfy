/** Positions in a Raft log. */
module EntryIds {
  datatype EntryId = EntryId(index: nat, term: nat)
}
