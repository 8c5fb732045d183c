/**
 * The webhook payload mapper (ADSCitationCapture/webhook.py): a citation change becomes
 * at most one relationship payload for the metadata-exchange hub.
 *
 * The clock read in `_build_data` is the `publicationDate` parameter (already formatted
 * as `YYYY-MM-DD`), and the outcome of the HTTP post in `emit_event` is the `postOk`
 * parameter. A raised exception is an `Err`.
 */
module Webhook {
  import opened Wrappers
  import opened Changes

  /** The `cited` value of a change whose citation has not been resolved. */
  const UnresolvedCited: string := "..................."
  const AdsAbstractUrl: string := "http://adsabs.harvard.edu/abs/"
  const Cc0LicenseUrl: string := "https://creativecommons.org/publicdomain/zero/1.0/"
  const AdsProviderName: string := "SAO/NASA Astrophysics Data System"

  datatype Identifier = Identifier(idScheme: string, idUrl: string, id: string)
  datatype RelationshipType = RelationshipType(subTypeSchema: string, subType: string, name: string)
  /** A `Source` or `Target` object: its identifier and its `Type.Name`. */
  datatype Party = Party(identifier: Identifier, typeName: string)
  datatype Provider = Provider(name: string)

  datatype Payload = Payload(
    relationshipType: RelationshipType,
    source: Party,
    licenseUrl: string,
    target: Party,
    linkPublicationDate: string,
    linkProvider: seq<Provider>)

  /** The two exceptions of the module. */
  datatype Error =
    | UnknownContentType              // "Unknown citation change data type"
    | PostFailed(body: seq<Payload>)  // "HTTP Post to ... failed: <body>"

  /** The fields every payload has, whatever the change: only source, target and date vary. */
  predicate FixedEnvelope(p: Payload) {
    && p.relationshipType == RelationshipType("DataCite", "Cites", "References")
    && p.source.identifier.idScheme == "ads"
    && p.source.identifier.idUrl == AdsAbstractUrl + p.source.identifier.id
    && p.source.typeName == "unknown"
    && p.licenseUrl == Cc0LicenseUrl
    && p.target.typeName == "software"
    && p.linkProvider == [Provider(AdsProviderName)]
  }

  /**
   * _build_data. `eventType` and `originalRelationshipName` are accepted and never
   * written into the payload.
   */
  function BuildData(eventType: string, originalRelationshipName: string, sourceBibcode: string,
                     targetId: string, targetIdSchema: string, targetIdUrl: string,
                     publicationDate: string): (p: Payload)
    ensures FixedEnvelope(p)
    ensures p.source.identifier.id == sourceBibcode
    ensures p.target.identifier == Identifier(targetIdSchema, targetIdUrl, targetId)
    ensures p.linkPublicationDate == publicationDate
  {
    Payload(
      RelationshipType("DataCite", "Cites", "References"),
      Party(Identifier("ads", AdsAbstractUrl + sourceBibcode, sourceBibcode), "unknown"),
      Cc0LicenseUrl,
      Party(Identifier(targetIdSchema, targetIdUrl, targetId), "software"),
      publicationDate,
      [Provider(AdsProviderName)])
  }

  /** The payload does not depend on the event type or on the relationship name. */
  lemma BuildDataIgnoresEventAndRelationship(e1: string, n1: string, e2: string, n2: string,
                                            source: string, id: string, scheme: string, url: string,
                                            date: string)
    ensures BuildData(e1, n1, source, id, scheme, url, date) == BuildData(e2, n2, source, id, scheme, url, date)
  {
  }

  /** _target_elements: the target identifier of the change's content. */
  function TargetElements(change: CitationChange): (r: Result<Identifier, Error>)
    ensures r.Err? <==> change.contentType.OtherContentType?
    ensures r.Err? ==> r.error == UnknownContentType
    ensures r.Ok? ==> r.value.id == change.content
    ensures change.contentType == Doi ==> r == Ok(Identifier("DOI", "https://doi.org", change.content))
    ensures change.contentType == Pid ==> r == Ok(Identifier("ASCL", "http://ascl.net/", change.content))
    ensures change.contentType == Url ==> r == Ok(Identifier("URL", change.content, change.content))
  {
    match change.contentType
    case Doi => Ok(Identifier("DOI", "https://doi.org", change.content))
    case Pid => Ok(Identifier("ASCL", "http://ascl.net/", change.content))
    case Url => Ok(Identifier("URL", change.content, change.content))
    case OtherContentType(_) => Err(UnknownContentType)
  }

  /** Distinct content types get distinct identifier schemes. */
  lemma TargetSchemeIdentifiesContentType(c1: CitationChange, c2: CitationChange)
    requires TargetElements(c1).Ok? && TargetElements(c2).Ok?
    requires TargetElements(c1).value.idScheme == TargetElements(c2).value.idScheme
    ensures c1.contentType == c2.contentType
  {
  }

  /** _source_cites_target: the citing record cites the content. */
  function SourceCitesTarget(change: CitationChange, deleted: bool, publicationDate: string): (r: Result<Payload, Error>)
    ensures r.Err? <==> TargetElements(change).Err?
    ensures r.Ok? ==> FixedEnvelope(r.value) && r.value.source.identifier.id == change.citing
                      && r.value.target.identifier == TargetElements(change).value
                      && r.value.linkPublicationDate == publicationDate
  {
    var eventType := if deleted then "relation_deleted" else "relation_created";
    var target :- TargetElements(change);
    Ok(BuildData(eventType, "Cites", change.citing, target.id, target.idScheme, target.idUrl, publicationDate))
  }

  /** _source_is_identical_to_target: the resolved cited record is the content. */
  function SourceIsIdenticalToTarget(change: CitationChange, deleted: bool, publicationDate: string): (r: Result<Payload, Error>)
    ensures r.Err? <==> TargetElements(change).Err?
    ensures r.Ok? ==> FixedEnvelope(r.value) && r.value.source.identifier.id == change.cited
                      && r.value.target.identifier == TargetElements(change).value
                      && r.value.linkPublicationDate == publicationDate
  {
    var eventType := if deleted then "relation_deleted" else "relation_created";
    var target :- TargetElements(change);
    Ok(BuildData(eventType, "IsIdenticalTo", change.cited, target.id, target.idScheme, target.idUrl, publicationDate))
  }

  /** The changes that give an event: new, deleted, and updates resolved to a real bibcode. */
  predicate MapsToEvent(change: CitationChange) {
    || change.status == New
    || (change.status == Updated && change.cited != UnresolvedCited && change.resolved)
    || change.status == Deleted
  }

  /** _to_data: the payload of the change, none for a change that maps to no event. */
  function ToData(change: CitationChange, publicationDate: string): (r: Result<Option<Payload>, Error>)
    ensures r == Ok(None) <==> !MapsToEvent(change)
    ensures r.Err? <==> MapsToEvent(change) && change.contentType.OtherContentType?
    ensures r.Ok? && r.value.Some? ==>
      && FixedEnvelope(r.value.value)
      && r.value.value.target.identifier == TargetElements(change).value
      && r.value.value.linkPublicationDate == publicationDate
    ensures r.Ok? && r.value.Some? && change.status != Updated ==> r.value.value.source.identifier.id == change.citing
    ensures r.Ok? && r.value.Some? && change.status == Updated ==> r.value.value.source.identifier.id == change.cited
  {
    if change.status == New then
      var p :- SourceCitesTarget(change, false, publicationDate);
      Ok(Some(p))
    else if change.status == Updated && change.cited != UnresolvedCited && change.resolved then
      var p :- SourceIsIdenticalToTarget(change, false, publicationDate);
      Ok(Some(p))
    else if change.status == Deleted then
      var p :- SourceCitesTarget(change, true, publicationDate);
      Ok(Some(p))
    else
      Ok(None)
  }

  /** A deleted change gives exactly the payload of the same change arriving as new. */
  lemma DeletedPayloadEqualsCreated(change: CitationChange, publicationDate: string)
    ensures ToData(change.(status := Deleted), publicationDate) == ToData(change.(status := New), publicationDate)
  {
  }

  /**
   * The body emit_event posts: a one-element list holding the payload, or nothing to
   * send when the change maps to no event.
   */
  function EventBody(change: CitationChange, publicationDate: string): (r: Result<Option<seq<Payload>>, Error>)
    ensures r.Err? <==> ToData(change, publicationDate).Err?
    ensures r == Ok(None) <==> ToData(change, publicationDate) == Ok(None)
    ensures r.Ok? && r.value.Some? ==> |r.value.value| == 1
                                        && ToData(change, publicationDate) == Ok(Some(r.value.value[0]))
  {
    var data :- ToData(change, publicationDate);
    match data
    case None => Ok(None)
    case Some(p) => Ok(Some([p]))
  }

  /**
   * emit_event: `false` when there is nothing to send, `true` after a post that succeeded,
   * and an error carrying the body after a post that did not.
   */
  function EmitEvent(change: CitationChange, publicationDate: string, postOk: bool): (r: Result<bool, Error>)
    ensures r == Ok(false) <==> ToData(change, publicationDate) == Ok(None)
    ensures r == Ok(true) <==> postOk && ToData(change, publicationDate).Ok? && ToData(change, publicationDate).value.Some?
    ensures r.Err? && r.error.PostFailed? ==>
      !postOk && ToData(change, publicationDate).Ok? && ToData(change, publicationDate).value.Some?
      && r.error.body == [ToData(change, publicationDate).value.value]
    ensures r.Err? && r.error == UnknownContentType <==> ToData(change, publicationDate).Err?
  {
    var body :- EventBody(change, publicationDate);
    match body
    case None => Ok(false)
    case Some(b) => if postOk then Ok(true) else Err(PostFailed(b))
  }

  /** A new DOI citation: the citing bibcode cites the DOI, with the fixed relationship type. */
  lemma NewDoiChangeExample()
    ensures
      var change := CitationChange("2020ApJ...1A", UnresolvedCited, "10.5281/zenodo.123", Doi, false, 1, New);
      ToData(change, "2026-10-14") == Ok(Some(Payload(
        RelationshipType("DataCite", "Cites", "References"),
        Party(Identifier("ads", "http://adsabs.harvard.edu/abs/2020ApJ...1A", "2020ApJ...1A"), "unknown"),
        "https://creativecommons.org/publicdomain/zero/1.0/",
        Party(Identifier("DOI", "https://doi.org", "10.5281/zenodo.123"), "software"),
        "2026-10-14",
        [Provider("SAO/NASA Astrophysics Data System")])))
  {
    assert AdsAbstractUrl + "2020ApJ...1A" == "http://adsabs.harvard.edu/abs/2020ApJ...1A";
  }

  /** A resolved update of a software record: the cited bibcode is the source. */
  lemma ResolvedUpdateExample()
    ensures
      var change := CitationChange("2020ApJ...1A", "2019zndo....999Z", "ascl:1234", Pid, true, 2, Updated);
      var r := ToData(change, "2026-10-14");
      r.Ok? && r.value.Some?
      && r.value.value.source.identifier.id == "2019zndo....999Z"
      && r.value.value.target.identifier == Identifier("ASCL", "http://ascl.net/", "ascl:1234")
  {
  }

  /** An unresolved update maps to no event, and so posts nothing. */
  lemma UnresolvedUpdateExample(change: CitationChange, publicationDate: string, postOk: bool)
    requires change.status == Updated && !change.resolved
    ensures ToData(change, publicationDate) == Ok(None)
    ensures EmitEvent(change, publicationDate, postOk) == Ok(false)
  {
  }
}
