/**
 * Clients of the ledger that replay the expected behaviours of ADSCitationCapture/db.py
 * on a fresh database, using only the contracts of `Db.Ledger`.
 */
module LedgerScenarios {
  import opened Db
  import Changes

  /** Storing the same citation twice: stored, then refused, leaving the first row alone. */
  method StoreCitationTwice(change: Changes.CitationChange, retry: Changes.CitationChange, status: Status)
    returns (first: bool, second: bool, rows: seq<Citation>)
    requires retry.citing == change.citing && retry.content == change.content
    ensures first && !second
    ensures rows == [Citation(change.citing, change.cited, change.content, change.resolved, change.timestamp, status)]
  {
    var ledger := new Ledger();
    var parsed := ParsedMetadata(Wrappers.None, map[]);
    first := ledger.StoreCitation(change, DOI, map[], parsed, status);
    second := ledger.StoreCitation(retry, DOI, map[], parsed, status);
    rows := ledger.citations;
  }

  /** Two targets with the same content but different metadata: one row, from the first call. */
  method StoreTargetTwice(change: Changes.CitationChange, parsed1: ParsedMetadata, parsed2: ParsedMetadata)
    returns (first: bool, second: bool, rows: seq<CitationTarget>)
    ensures first && !second
    ensures rows == [CitationTarget(change.content, DOI, map[], parsed1, Registered)]
  {
    var ledger := new Ledger();
    first := ledger.StoreCitationTarget(change, DOI, map[], parsed1, Registered);
    second := ledger.StoreCitationTarget(change, PID, map["raw" := "other"], parsed2, Discarded);
    rows := ledger.targets;
  }

  /**
   * A citation deleted by a newer change refuses every later update, even a newer one,
   * and accepts a still newer deletion.
   */
  method DeleteThenUpdate(change: Changes.CitationChange, laterUpdate: Changes.CitationChange)
    returns (stale: bool, deleted: bool, updated: bool, redeleted: bool)
    requires laterUpdate.citing == change.citing && laterUpdate.content == change.content
    ensures !stale && deleted && !updated && redeleted
  {
    var ledger := new Ledger();
    var parsed := ParsedMetadata(Wrappers.None, map[]);
    var stored := ledger.StoreCitation(change, DOI, map[], parsed, Registered);
    stale := ledger.MarkCitationAsDeleted(change);
    deleted := ledger.MarkCitationAsDeleted(change.(timestamp := change.timestamp + 1));
    updated := ledger.UpdateCitation(laterUpdate.(timestamp := change.timestamp + 2));
    redeleted := ledger.MarkCitationAsDeleted(change.(timestamp := change.timestamp + 3));
  }
}
