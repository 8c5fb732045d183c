/**
 * The citation ledger (ADSCitationCapture/db.py): a table of citation targets keyed
 * by `content` and a table of citations keyed by `(citing, content)`.
 *
 * Each database function is one atomic step on a `Ledger` object; the session scope,
 * commit/rollback and the `with_for_update` row lock are what make the step atomic
 * in the source and are not modelled further. Tables are sequences in insertion
 * order, and the queries return rows in that order; the source's queries leave the
 * order to the database.
 */
module Db {
  import opened Wrappers
  import Changes

  /** Status column of both tables. */
  datatype Status = Registered | Discarded | Deleted

  /** Content type column of the target table. */
  datatype ContentType = DOI | PID | URL

  /** A stored JSON document, opaque to the ledger. */
  type Document = map<string, string>

  /** Parsed target metadata: opaque apart from its optional `bibcode` entry. */
  datatype ParsedMetadata = ParsedMetadata(bibcode: Option<string>, fields: Document)

  datatype CitationTarget = CitationTarget(
    content: string,
    contentType: ContentType,
    raw: Document,
    parsed: ParsedMetadata,
    status: Status)

  datatype Citation = Citation(
    citing: string,
    cited: string,
    content: string,
    resolved: bool,
    timestamp: int,
    status: Status)

  /** What `get_citation_target_metadata` returns for a known target. */
  datatype TargetMetadata = TargetMetadata(raw: Document, parsed: ParsedMetadata, status: Status)

  /** One entry of `get_registered_citation_targets`. */
  datatype RegisteredTarget = RegisteredTarget(bibcode: string, content: string, contentType: ContentType)

  // ---------------------------------------------------------------------------
  // Keys

  predicate UniqueTargets(rows: seq<CitationTarget>) {
    forall i, j :: 0 <= i < j < |rows| ==> rows[i].content != rows[j].content
  }

  predicate UniqueCitations(rows: seq<Citation>) {
    forall i, j :: 0 <= i < j < |rows| ==>
      (rows[i].citing, rows[i].content) != (rows[j].citing, rows[j].content)
  }

  /** Index of the target row for `content`, the first one if any. */
  function FindTarget(rows: seq<CitationTarget>, content: string): (r: Option<nat>)
    ensures r.Some? ==> r.value < |rows| && rows[r.value].content == content
    ensures r.Some? ==> forall i :: 0 <= i < r.value ==> rows[i].content != content
    ensures r.None? <==> forall t :: t in rows ==> t.content != content
  {
    if rows == [] then None
    else if rows[0].content == content then Some(0)
    else match FindTarget(rows[1..], content)
      case None => None
      case Some(i) => Some(i + 1)
  }

  /** Index of the citation row keyed `(citing, content)`, the first one if any. */
  function FindCitation(rows: seq<Citation>, citing: string, content: string): (r: Option<nat>)
    ensures r.Some? ==> r.value < |rows| && rows[r.value].citing == citing && rows[r.value].content == content
    ensures r.None? <==> forall c :: c in rows ==> !(c.citing == citing && c.content == content)
  {
    if rows == [] then None
    else if rows[0].citing == citing && rows[0].content == content then Some(0)
    else match FindCitation(rows[1..], citing, content)
      case None => None
      case Some(i) => Some(i + 1)
  }

  /** Index of the first REGISTERED target whose parsed bibcode is `bibcode`. */
  function FindRegisteredByBibcode(rows: seq<CitationTarget>, bibcode: string): (r: Option<nat>)
    ensures r.Some? ==> r.value < |rows| && rows[r.value].status == Registered
                        && rows[r.value].parsed.bibcode == Some(bibcode)
    ensures r.Some? ==> forall i :: 0 <= i < r.value ==>
                          !(rows[i].status == Registered && rows[i].parsed.bibcode == Some(bibcode))
    ensures r.None? <==> forall t :: t in rows ==> !(t.status == Registered && t.parsed.bibcode == Some(bibcode))
  {
    if rows == [] then None
    else if rows[0].status == Registered && rows[0].parsed.bibcode == Some(bibcode) then Some(0)
    else match FindRegisteredByBibcode(rows[1..], bibcode)
      case None => None
      case Some(i) => Some(i + 1)
  }

  // ---------------------------------------------------------------------------
  // Query filters

  /** The `citing` values of the REGISTERED citations of `content`, in table order. */
  function RegisteredCiting(rows: seq<Citation>, content: string): (r: seq<string>)
    ensures |r| <= |rows|
    ensures forall x :: x in r <==>
      exists c :: c in rows && c.content == content && c.status == Registered && c.citing == x
    ensures UniqueCitations(rows) ==> forall i, j :: 0 <= i < j < |r| ==> r[i] != r[j]
  {
    if rows == [] then []
    else
      var rest := RegisteredCiting(rows[1..], content);
      assert forall c :: c in rows <==> c == rows[0] || c in rows[1..];
      assert UniqueCitations(rows) ==> UniqueCitations(rows[1..]) && (rows[0].content == content ==> rows[0].citing !in rest) by {
        if UniqueCitations(rows) {
          forall c | c in rows[1..] ensures (c.citing, c.content) != (rows[0].citing, rows[0].content) {
            var k :| 0 <= k < |rows[1..]| && rows[1..][k] == c;
            assert rows[k + 1] == c;
          }
        }
      }
      if rows[0].content == content && rows[0].status == Registered then [rows[0].citing] + rest else rest
  }

  /** The REGISTERED targets that carry a bibcode, in table order. */
  function RegisteredTargets(rows: seq<CitationTarget>): (r: seq<RegisteredTarget>)
    ensures |r| <= |rows|
    ensures forall e :: e in r <==>
      exists t :: t in rows && t.status == Registered && t.parsed.bibcode == Some(e.bibcode)
                  && t.content == e.content && t.contentType == e.contentType
    ensures UniqueTargets(rows) ==> forall i, j :: 0 <= i < j < |r| ==> r[i].content != r[j].content
  {
    if rows == [] then []
    else
      var rest := RegisteredTargets(rows[1..]);
      var t := rows[0];
      assert forall u :: u in rows <==> u == t || u in rows[1..];
      assert UniqueTargets(rows) ==> UniqueTargets(rows[1..]) && forall e :: e in rest ==> e.content != t.content by {
        if UniqueTargets(rows) {
          forall u | u in rows[1..] ensures u.content != t.content {
            var k :| 0 <= k < |rows[1..]| && rows[1..][k] == u;
            assert rows[k + 1] == u;
          }
        }
      }
      if t.status == Registered && t.parsed.bibcode.Some? then
        [RegisteredTarget(t.parsed.bibcode.value, t.content, t.contentType)] + rest
      else rest
  }

  // ---------------------------------------------------------------------------
  // Row mutations (the check-and-write inside update_citation and mark_citation_as_deleted)

  /** update_citation accepts a change strictly newer than the row, on a non-deleted row. */
  predicate UpdateAccepted(row: Citation, change: Changes.CitationChange) {
    row.timestamp < change.timestamp && (row.status == Registered || row.status == Discarded)
  }

  /** The row after update_citation: new cited/resolved/timestamp when accepted, else unchanged. */
  function ApplyUpdate(row: Citation, change: Changes.CitationChange): (r: Citation)
    ensures r.citing == row.citing && r.content == row.content && r.status == row.status
    ensures r != row <==> UpdateAccepted(row, change)
    ensures r != row ==> r.timestamp > row.timestamp && r.timestamp == change.timestamp
                         && r.cited == change.cited && r.resolved == change.resolved
  {
    if UpdateAccepted(row, change) then
      row.(cited := change.cited, resolved := change.resolved, timestamp := change.timestamp)
    else
      row
  }

  /** mark_citation_as_deleted accepts a change strictly newer than the row, whatever its status. */
  predicate DeleteAccepted(row: Citation, change: Changes.CitationChange) {
    row.timestamp < change.timestamp
  }

  /** The row after mark_citation_as_deleted: DELETED at the new timestamp when accepted, else unchanged. */
  function ApplyDelete(row: Citation, change: Changes.CitationChange): (r: Citation)
    ensures r.citing == row.citing && r.content == row.content
    ensures r.cited == row.cited && r.resolved == row.resolved
    ensures r != row <==> DeleteAccepted(row, change)
    ensures r != row ==> r.status == Deleted && r.timestamp > row.timestamp && r.timestamp == change.timestamp
  {
    if DeleteAccepted(row, change) then
      row.(status := Deleted, timestamp := change.timestamp)
    else
      row
  }

  /** Once a delete is accepted, no update is accepted on the row any more. */
  lemma DeleteIsTerminalForUpdate(row: Citation, deletion: Changes.CitationChange, update: Changes.CitationChange)
    requires DeleteAccepted(row, deletion)
    ensures ApplyDelete(row, deletion).status == Deleted
    ensures !UpdateAccepted(ApplyDelete(row, deletion), update)
    ensures ApplyUpdate(ApplyDelete(row, deletion), update) == ApplyDelete(row, deletion)
  {
  }

  // ---------------------------------------------------------------------------
  // The store

  class Ledger {
    var targets: seq<CitationTarget>
    var citations: seq<Citation>

    /** The unique constraints of both tables. */
    ghost predicate Valid()
      reads this
    {
      UniqueTargets(targets) && UniqueCitations(citations)
    }

    /** An empty database. */
    constructor ()
      ensures Valid()
      ensures targets == [] && citations == []
    {
      targets := [];
      citations := [];
    }

    /**
     * store_citation_target: insert a target row unless its `content` is already present.
     * The source learns of a duplicate from the IntegrityError raised at commit; here that
     * is an explicit lookup. Its error branch calls an undefined `logger`; the model
     * returns the intended `false`.
     */
    method StoreCitationTarget(change: Changes.CitationChange, contentType: ContentType,
                               raw: Document, parsed: ParsedMetadata, status: Status)
      returns (stored: bool)
      requires Valid()
      modifies this
      ensures Valid()
      ensures stored <==> forall t :: t in old(targets) ==> t.content != change.content
      ensures targets == if stored then old(targets) + [CitationTarget(change.content, contentType, raw, parsed, status)]
                         else old(targets)
      ensures citations == old(citations)
    {
      if FindTarget(targets, change.content).None? {
        targets := targets + [CitationTarget(change.content, contentType, raw, parsed, status)];
        stored := true;
      } else {
        stored := false;
      }
    }

    /**
     * store_citation: insert a citation row keyed `(citing, content)` unless the key is taken.
     * `cited`, `resolved` and `timestamp` come from the change and `status` from the argument;
     * the content type and both metadata arguments are accepted and ignored, as in the source.
     */
    method StoreCitation(change: Changes.CitationChange, contentType: ContentType,
                         raw: Document, parsed: ParsedMetadata, status: Status)
      returns (stored: bool)
      requires Valid()
      modifies this
      ensures Valid()
      ensures stored <==> forall c :: c in old(citations) ==> !(c.citing == change.citing && c.content == change.content)
      ensures citations == if stored then old(citations) + [Citation(change.citing, change.cited, change.content,
                                                                      change.resolved, change.timestamp, status)]
                           else old(citations)
      ensures targets == old(targets)
    {
      if FindCitation(citations, change.citing, change.content).None? {
        citations := citations + [Citation(change.citing, change.cited, change.content,
                                           change.resolved, change.timestamp, status)];
        stored := true;
      } else {
        stored := false;
      }
    }

    /** get_registered_citation_targets: REGISTERED targets whose parsed metadata has a bibcode. */
    function GetRegisteredCitationTargets(): (r: seq<RegisteredTarget>)
      reads this
      ensures forall e :: e in r <==>
        exists t :: t in targets && t.status == Registered && t.parsed.bibcode == Some(e.bibcode)
                    && t.content == e.content && t.contentType == e.contentType
      ensures forall t :: t in targets && t.status == Registered && t.parsed.bibcode.Some? ==>
        RegisteredTarget(t.parsed.bibcode.value, t.content, t.contentType) in r
      ensures Valid() ==> forall i, j :: 0 <= i < j < |r| ==> r[i].content != r[j].content
    {
      RegisteredTargets(targets)
    }

    /** get_citation_target_metadata: raw, parsed and status of the target, or nothing. */
    function GetCitationTargetMetadata(change: Changes.CitationChange): (r: Option<TargetMetadata>)
      reads this
      ensures r.None? <==> forall t :: t in targets ==> t.content != change.content
      ensures r.Some? ==> exists t :: t in targets && t.content == change.content
                                      && r.value == TargetMetadata(t.raw, t.parsed, t.status)
    {
      match FindTarget(targets, change.content)
      case None => None
      case Some(i) => Some(TargetMetadata(targets[i].raw, targets[i].parsed, targets[i].status))
    }

    /** get_citations: the citing bibcodes of the REGISTERED citations of the change's content. */
    function GetCitations(change: Changes.CitationChange): (r: seq<string>)
      reads this
      ensures forall x :: x in r <==>
        exists c :: c in citations && c.content == change.content && c.status == Registered && c.citing == x
      ensures Valid() ==> forall i, j :: 0 <= i < j < |r| ==> r[i] != r[j]
    {
      RegisteredCiting(citations, change.content)
    }

    /**
     * get_citations_by_bibcode: the first REGISTERED target carrying `bibcode` names a content,
     * whose REGISTERED citations are returned; no such target gives the empty list.
     */
    function GetCitationsByBibcode(bibcode: string): (r: seq<string>)
      reads this
      ensures (forall t :: t in targets ==> !(t.status == Registered && t.parsed.bibcode == Some(bibcode))) ==> r == []
      ensures forall x :: x in r ==>
        exists t, c :: t in targets && t.status == Registered && t.parsed.bibcode == Some(bibcode)
                       && c in citations && c.content == t.content && c.status == Registered && c.citing == x
      ensures match FindRegisteredByBibcode(targets, bibcode)
              case None => r == []
              case Some(i) => forall x :: x in r <==>
                exists c :: c in citations && c.content == targets[i].content && c.status == Registered && c.citing == x
      ensures Valid() ==> forall i, j :: 0 <= i < j < |r| ==> r[i] != r[j]
    {
      match FindRegisteredByBibcode(targets, bibcode)
      case None => []
      case Some(i) => RegisteredCiting(citations, targets[i].content)
    }

    /** citation_already_exists: is there a citation row keyed `(citing, content)`? */
    function CitationAlreadyExists(change: Changes.CitationChange): (found: bool)
      reads this
      ensures found <==> exists c :: c in citations && c.citing == change.citing && c.content == change.content
    {
      FindCitation(citations, change.citing, change.content).Some?
    }

    /**
     * update_citation. The source dereferences the row without checking it exists, so the
     * row's existence is required. The two rejection branches call an undefined `logger`;
     * the model returns the intended `false`.
     */
    method UpdateCitation(change: Changes.CitationChange) returns (updated: bool)
      requires Valid()
      requires CitationAlreadyExists(change)
      modifies this
      ensures Valid()
      ensures targets == old(targets)
      ensures var i := FindCitation(old(citations), change.citing, change.content).value;
              updated == UpdateAccepted(old(citations)[i], change)
              && citations == old(citations)[i := ApplyUpdate(old(citations)[i], change)]
      ensures !updated ==> citations == old(citations)
      ensures |citations| == |old(citations)|
      ensures forall k :: 0 <= k < |citations| ==> citations[k].timestamp >= old(citations)[k].timestamp
    {
      var i := FindCitation(citations, change.citing, change.content).value;
      var row := citations[i];
      if row.timestamp < change.timestamp {
        if row.status == Registered || row.status == Discarded {
          citations := citations[i := row.(cited := change.cited, resolved := change.resolved,
                                           timestamp := change.timestamp)];
          updated := true;
        } else {
          updated := false;
        }
      } else {
        updated := false;
      }
      assert citations == old(citations)[i := ApplyUpdate(old(citations)[i], change)];
    }

    /**
     * mark_citation_as_deleted: accepted from any status when the change is strictly newer.
     * Row existence is required as for UpdateCitation; the rejection branch's undefined
     * `logger` is replaced by the intended `false`.
     */
    method MarkCitationAsDeleted(change: Changes.CitationChange) returns (deleted: bool)
      requires Valid()
      requires CitationAlreadyExists(change)
      modifies this
      ensures Valid()
      ensures targets == old(targets)
      ensures var i := FindCitation(old(citations), change.citing, change.content).value;
              deleted == DeleteAccepted(old(citations)[i], change)
              && citations == old(citations)[i := ApplyDelete(old(citations)[i], change)]
      ensures !deleted ==> citations == old(citations)
      ensures |citations| == |old(citations)|
      ensures forall k :: 0 <= k < |citations| ==> citations[k].timestamp >= old(citations)[k].timestamp
    {
      var i := FindCitation(citations, change.citing, change.content).value;
      var row := citations[i];
      if row.timestamp < change.timestamp {
        citations := citations[i := row.(status := Deleted, timestamp := change.timestamp)];
        deleted := true;
      } else {
        deleted := false;
      }
      assert citations == old(citations)[i := ApplyDelete(old(citations)[i], change)];
    }
  }
}
