# ADSCitationCapture citation ledger and webhook mapper, in Dafny

This project models two parts of ADSCitationCapture.

- **The citation ledger** (`ADSCitationCapture/db.py`) has two tables:
  - citation targets, keyed by `content`;
  - citations, keyed by `(citing, content)`.

  Inserts refuse duplicates. The queries filter on `REGISTERED` status and on the parsed bibcode. Updates and deletions are accepted only when their timestamp is strictly newer than the stored one. An update is also refused on a `DELETED` row.
- **The webhook payload mapper** (`ADSCitationCapture/webhook.py`) turns one citation change into at most one relationship payload, and decides whether `emit_event` posts it.

Files and modules:

- `wrappers.dfy` (`Wrappers`): `Option` and `Result` (a value or the exception raised).
- `changes.dfy` (`Changes`): the citation change message both parts consume.
- `db.dfy` (`Db`):
  - the row types;
  - the key lookups and query filters, as recursive functions over the tables;
  - the row-level check-and-write of an update and of a deletion (`ApplyUpdate`, `ApplyDelete`);
  - the class `Ledger`. It holds both tables as sequences in table order. It has one method per mutating database function and one function per query.
- `db_history.dfy` (`DbHistory`): what the timestamp guards guarantee across any sequence of updates and deletions on one row.
  - Timestamps never move back.
  - A deleted row stays deleted.
  - A stream of updates only is order-independent: the row ends at the latest timestamp, whatever the arrival order or duplication, when timestamps identify the update data.
  - Once deletions are mixed in, arrival order matters. A concrete lemma shows this: on a row at 0, an update at 10 and a deletion at 5 give a row DELETED at 5 when the deletion arrives first, and a row REGISTERED at 10 when the update arrives first.
- `scenarios.dfy` (`LedgerScenarios`): clients of `Ledger` on a fresh database. They show that a repeated insert is refused and that a deleted row refuses later updates but accepts a newer deletion.
- `webhook.dfy` (`Webhook`): `_build_data`, `_target_elements`, `_source_cites_target`, `_source_is_identical_to_target`, `_to_data` and the decision part of `emit_event`.

Behaviours of the code a reader might not expect:

- Every payload carries `RelationshipType` = {`DataCite`, `Cites`, `References`}. `_build_data` receives the event type (`relation_created`/`relation_deleted`) and the relationship name (`Cites`/`IsIdenticalTo`), but it never writes them into the record. A deleted change therefore gives exactly the payload of the same change arriving as new (`Webhook.DeletedPayloadEqualsCreated`).
- `update_citation` changes only `cited`, `resolved` and `timestamp`. It never changes the row's status, so updates cannot move a row between `REGISTERED` and `DISCARDED`.
- `_target_elements` is called only on the branches that build a payload. A change with an unknown content type therefore raises only when it maps to an event. Otherwise it yields no payload and no error.

## Model

| member | source | states |
|---|---|---|
| `Db.Ledger.StoreCitationTarget` | ADSCitationCapture/db.py:6-26 | stored iff no target with that `content` exists; on success exactly one row (content, content type, raw, parsed, status) is appended; otherwise targets unchanged; citations never touched; key uniqueness kept |
| `Db.Ledger.StoreCitation` | ADSCitationCapture/db.py:28-49 | stored iff no citation keyed `(citing, content)` exists; on success one row with cited/resolved/timestamp from the change and status from the argument is appended (content type and metadata ignored); otherwise citations unchanged; targets never touched |
| `Db.RegisteredTargets` | ADSCitationCapture/db.py:56-65 | an entry is in the result iff some REGISTERED row has a bibcode equal to the entry's, with the same content and content type; with unique target keys no two entries share a content, so there is one entry per matching row |
| `Db.Ledger.GetRegisteredCitationTargets` | ADSCitationCapture/db.py:51-66 | an entry is listed iff some REGISTERED target with a non-null bibcode has that bibcode, content and content type; every such target is listed; under the unique key no two entries share a content |
| `Db.FindTarget` | ADSCitationCapture/db.py:78-79 | finds the first target row with that content, and finds none exactly when no row has it |
| `Db.Ledger.GetCitationTargetMetadata` | ADSCitationCapture/db.py:68-84 | nothing iff no target has the content; otherwise the raw, parsed and status of a target with that content |
| `Db.FindRegisteredByBibcode` | ADSCitationCapture/db.py:94 | finds the first REGISTERED target whose parsed bibcode equals the argument, none exactly when no such target exists |
| `Db.Ledger.GetCitationsByBibcode` | ADSCitationCapture/db.py:86-98 | empty when no REGISTERED target has the bibcode; otherwise exactly the citing values of REGISTERED citations of the first such target's content; under the unique keys no value repeats |
| `Db.RegisteredCiting` | ADSCitationCapture/db.py:106 | a value is in the result iff it is the citing of a REGISTERED citation of the content; never longer than the table; with unique `(citing, content)` keys no value repeats, so there is one entry per matching row |
| `Db.Ledger.GetCitations` | ADSCitationCapture/db.py:100-107 | exactly the citing values of the rows with the change's content and status REGISTERED; DISCARDED and DELETED rows are excluded; under the unique keys no value repeats |
| `Db.FindCitation` | ADSCitationCapture/db.py:116-117 | finds a row keyed `(citing, content)`, none exactly when no row has that key |
| `Db.Ledger.CitationAlreadyExists` | ADSCitationCapture/db.py:110-118 | true iff a citation row with the change's `(citing, content)` exists |
| `Db.ApplyUpdate` | ADSCitationCapture/db.py:128-137 | the row changes iff the change is strictly newer and the row is REGISTERED or DISCARDED; then it takes the change's cited, resolved and timestamp, a strictly larger one; citing, content and status never change |
| `Db.Ledger.UpdateCitation` | ADSCitationCapture/db.py:120-142 | returns the acceptance condition of the stored row; the stored row becomes its `ApplyUpdate` image and no other row or table changes; on false nothing changes; no timestamp decreases |
| `Db.ApplyDelete` | ADSCitationCapture/db.py:152-157 | the row changes iff the change is strictly newer, whatever its status; then it is DELETED at the new, larger timestamp; citing, content, cited and resolved never change |
| `Db.Ledger.MarkCitationAsDeleted` | ADSCitationCapture/db.py:144-160 | returns whether the change is strictly newer than the stored row; the stored row becomes its `ApplyDelete` image and nothing else changes; on false nothing changes; no timestamp decreases |
| `Db.DeleteIsTerminalForUpdate` | ADSCitationCapture/db.py:128-154 | after an accepted deletion the row is DELETED and no update is accepted any more, so an update leaves it as it is |
| `DbHistory.ReplayAdvancesTimestamp` | ADSCitationCapture/db.py:128-157 | across any sequence of updates and deletions a row keeps its key, its timestamp grows at least by the number of accepted mutations, and with none accepted the row is unchanged |
| `DbHistory.DeletedRowStaysDeleted` | ADSCitationCapture/db.py:128-157 | a DELETED row stays DELETED with its cited and resolved unchanged under any sequence; under updates only it does not change at all |
| `DbHistory.ReplayUpdatesReachesLatest` | ADSCitationCapture/db.py:128-137 | a non-deleted row under a stream of updates ends at the latest timestamp seen, carrying the cited and resolved of an update with that timestamp, or unchanged when none is newer |
| `DbHistory.ReplayUpdatesOrderIndependent` | ADSCitationCapture/db.py:128-137 | two streams holding the same updates in any order and multiplicity leave a non-deleted row in the same state when timestamps identify the update data |
| `DbHistory.ReplayWithDeletionDependsOnOrder` | ADSCitationCapture/db.py:128-157 | with a deletion among the mutations the outcome depends on arrival order (deletion at 5 then update at 10 ends DELETED at 5; the reverse ends REGISTERED at 10) |
| `LedgerScenarios.StoreCitationTwice` | ADSCitationCapture/db.py:28-49 | storing the same key twice reports true then false and leaves exactly the first row |
| `LedgerScenarios.StoreTargetTwice` | ADSCitationCapture/db.py:6-26 | two target inserts with the same content but different metadata leave one row, the first |
| `LedgerScenarios.DeleteThenUpdate` | ADSCitationCapture/db.py:120-160 | a deletion with an equal timestamp is refused, a newer one accepted; after it a still newer update is refused and a still newer deletion accepted |
| `Webhook.BuildData` | ADSCitationCapture/webhook.py:9-45 | the payload has the fixed envelope (DataCite/Cites/References, `ads` source scheme with the abstract URL of the bibcode, CC0 licence, `software` target, one provider), the given source bibcode, target identifier and date |
| `Webhook.BuildDataIgnoresEventAndRelationship` | ADSCitationCapture/webhook.py:9-45 | the payload is the same whatever event type and relationship name are passed |
| `Webhook.TargetElements` | ADSCitationCapture/webhook.py:47-60 | doi gives (`DOI`, `https://doi.org`), pid gives (`ASCL`, `http://ascl.net/`), url gives (`URL`, the content), each with the content as ID; any other content type raises |
| `Webhook.TargetSchemeIdentifiesContentType` | ADSCitationCapture/webhook.py:49-57 | two known content types with the same identifier scheme are the same content type |
| `Webhook.SourceCitesTarget` | ADSCitationCapture/webhook.py:62-71 | raises iff the target elements raise; otherwise a fixed-envelope payload whose source ID is `citing`, whose target is the target elements and whose publication date is the given one |
| `Webhook.SourceIsIdenticalToTarget` | ADSCitationCapture/webhook.py:73-82 | raises iff the target elements raise; otherwise a fixed-envelope payload whose source ID is `cited`, whose target is the target elements and whose publication date is the given one |
| `Webhook.ToData` | ADSCitationCapture/webhook.py:84-94 | no payload iff the change is not new, deleted, or a resolved update whose cited is not the all-dots placeholder; raises iff it maps to an event with an unknown content type; a payload has the fixed envelope and the target elements, with source `citing` for new/deleted and `cited` for updated |
| `Webhook.DeletedPayloadEqualsCreated` | ADSCitationCapture/webhook.py:62-91 | a deleted change gives the same result as the same change marked new |
| `Webhook.EventBody` | ADSCitationCapture/webhook.py:97-99 | nothing to send iff `_to_data` is empty; otherwise a one-element list holding the payload; errors from `_to_data` pass through |
| `Webhook.EmitEvent` | ADSCitationCapture/webhook.py:96-108 | false iff `_to_data` is empty (nothing posted); true iff there is a payload and the post succeeds; a failed post raises with the one-element body; an unknown content type raises before posting |
| `Webhook.NewDoiChangeExample` | ADSCitationCapture/webhook.py:84-86 | a new DOI change gives the full expected payload with scheme `DOI`, URL `https://doi.org` and the DOI as ID |
| `Webhook.ResolvedUpdateExample` | ADSCitationCapture/webhook.py:87-89 | a resolved update of a pid change has the cited bibcode as source and an `ASCL` target |
| `Webhook.UnresolvedUpdateExample` | ADSCitationCapture/webhook.py:87-94 | an unresolved update yields no payload and `emit_event` returns false |

## Left out

- Sessions, commit/rollback and the `with_for_update` row lock. Each database function is one atomic method on `Ledger`, which is what the lock and the transaction give the source.
- The IntegrityError raised by the unique constraints. It is modelled as an explicit "key already present" lookup before the insert.
- Logging. The `logger` that db.py calls in every rejection branch is never defined or imported there, so those branches would raise NameError. The model returns the intended `false`.
- Timestamp conversion (protobuf `ToDatetime`, `ToJsonString`, `tzutc`). Timestamps are integers compared directly.
- Raw and parsed metadata are opaque documents. The one exception is the parsed `bibcode` entry: an optional string, with absent and JSON null both meaning "none".
- Status and content type values. `ADSCitationCapture/models.py` is not part of this model. The status column is the enum REGISTERED, DISCARDED, DELETED for both tables. The target content type is the enum DOI, PID, URL.
- Db.Ledger.UpdateCitation: requires the row to exist. The source dereferences `None` when the row is missing.
- Db.Ledger.MarkCitationAsDeleted: requires the row to exist, for the same reason.
- Db.Ledger.GetCitationsByBibcode: `get_citations_by_bibcode` builds a change holding only `content` and calls `get_citations`. The model filters the citations of that content directly, which is the same filter.
- Row order. The source's queries (`.all()` at db.py:56 and :106, `.first()` at db.py:78, :94 and :116) have no `order_by`, so the database may return rows in any order, and when two REGISTERED targets share a bibcode it may pick either. The model always uses insertion order, so `FindRegisteredByBibcode` and `GetCitationsByBibcode` pick the first target inserted. What is returned is the same up to order, except for that choice between targets sharing a bibcode.
- The link from a citation to its target. The schema treats `citation.content` as a reference to `citation_target.content`, but `StoreCitation` does not check it: the model stores a citation whose content has no target, where a foreign-key constraint would refuse the insert.
- Network delivery: `requests.post`, JSON serialisation, the headers and the timeout. The outcome of the post is the boolean parameter `postOk` of `Webhook.EmitEvent`.
- The clock. The `datetime.now()` read in `_build_data` and its `strftime` formatting are replaced by the `publicationDate` string parameter.
