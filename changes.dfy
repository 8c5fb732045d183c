/**
 * The citation change message that both the ledger and the webhook mapper consume
 * (adsmsg.CitationChange). Its protobuf timestamp is modelled as an integer instant;
 * the two protobuf enums keep a catch-all alternative for values outside the ones
 * the core tests for.
 */
module Changes {

  /** adsmsg.Status as seen by the core: new, updated, deleted, or any other value. */
  datatype ChangeStatus = New | Updated | Deleted | OtherStatus(code: int)

  /** adsmsg.CitationChangeContentType: doi, pid, url, or any other value. */
  datatype ChangeContentType = Doi | Pid | Url | OtherContentType(code: int)

  datatype CitationChange = CitationChange(
    citing: string,
    cited: string,
    content: string,
    contentType: ChangeContentType,
    resolved: bool,
    timestamp: int,
    status: ChangeStatus)
}
