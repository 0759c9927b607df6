/** Restoring the growth state at start-up. The storage lookup and the JSON
    decoding are outside the model: what reaches `Load` is the decoded record,
    or nothing when no record was stored. */
module Persistence {
  import opened Wrappers
  import opened Growth

  /** A decoded stored record. `treeCount` may be absent: records written
      before the counter existed do not carry it. */
  datatype StoredRecord = StoredRecord(treeLevel: int, progressMinutes: int, treeCount: Option<int>)

  /** The growth state the page starts from: a fresh tree when nothing is
      stored, otherwise the stored fields with a missing tree count read as 0. */
  function Load(stored: Option<StoredRecord>): (s: GrowthState)
    ensures stored.None? ==> s == Fresh
    ensures stored.Some? ==> s.treeLevel == stored.value.treeLevel
                             && s.progressMinutes == stored.value.progressMinutes
    ensures stored.Some? && stored.value.treeCount.None? ==> s.treeCount == 0
    ensures stored.Some? && stored.value.treeCount.Some? ==> s.treeCount == stored.value.treeCount.value
  {
    match stored
    case None => Fresh
    case Some(rec) => GrowthState(rec.treeLevel, rec.progressMinutes, rec.treeCount.GetOr(0))
  }

  /** The record written back after every render; loading it gives back
      the same counters. */
  function Save(s: GrowthState): (rec: StoredRecord)
    ensures rec.treeCount.Some?
    ensures Load(Some(rec)) == s
  {
    StoredRecord(s.treeLevel, s.progressMinutes, Some(s.treeCount))
  }

  /** A record without a tree count keeps its level and progress. */
  lemma LoadLegacyRecord()
    ensures Load(Some(StoredRecord(1, 10, None))) == GrowthState(1, 10, 0)
  {
  }
}
