/**
 * What the timestamp guards of update_citation and mark_citation_as_deleted
 * (ADSCitationCapture/db.py) guarantee for one citation row that receives any
 * sequence of updates and deletions, in any order and with any repetitions.
 */
module DbHistory {
  import opened Db
  import Changes

  /** One mutation delivered for a row. */
  datatype Mutation = Update(change: Changes.CitationChange) | Delete(change: Changes.CitationChange)

  predicate Accepts(row: Citation, m: Mutation) {
    match m
    case Update(c) => UpdateAccepted(row, c)
    case Delete(c) => DeleteAccepted(row, c)
  }

  function Apply(row: Citation, m: Mutation): (r: Citation) {
    match m
    case Update(c) => ApplyUpdate(row, c)
    case Delete(c) => ApplyDelete(row, c)
  }

  /** The row after the mutations, applied in arrival order. */
  function Replay(row: Citation, ms: seq<Mutation>): (r: Citation)
    decreases |ms|
  {
    if ms == [] then row else Replay(Apply(row, ms[0]), ms[1..])
  }

  /** How many of the mutations the guards let through. */
  function AcceptedCount(row: Citation, ms: seq<Mutation>): (n: nat)
    decreases |ms|
  {
    if ms == [] then 0
    else (if Accepts(row, ms[0]) then 1 else 0) + AcceptedCount(Apply(row, ms[0]), ms[1..])
  }

  /**
   * A row's identity never changes and its timestamp never goes back; every accepted
   * mutation moves it strictly forward.
   */
  lemma {:induction false} ReplayAdvancesTimestamp(row: Citation, ms: seq<Mutation>)
    ensures Replay(row, ms).citing == row.citing && Replay(row, ms).content == row.content
    ensures Replay(row, ms).timestamp >= row.timestamp + AcceptedCount(row, ms)
    ensures AcceptedCount(row, ms) == 0 ==> Replay(row, ms) == row
    decreases |ms|
  {
    if ms != [] {
      ReplayAdvancesTimestamp(Apply(row, ms[0]), ms[1..]);
    }
  }

  /**
   * A DELETED row stays DELETED and keeps its cited and resolved fields whatever
   * arrives later; only a newer deletion can move its timestamp.
   */
  lemma {:induction false} DeletedRowStaysDeleted(row: Citation, ms: seq<Mutation>)
    requires row.status == Deleted
    ensures Replay(row, ms).status == Deleted
    ensures Replay(row, ms).cited == row.cited && Replay(row, ms).resolved == row.resolved
    ensures (forall k :: 0 <= k < |ms| ==> ms[k].Update?) ==> Replay(row, ms) == row
    decreases |ms|
  {
    if ms != [] {
      DeletedRowStaysDeleted(Apply(row, ms[0]), ms[1..]);
    }
  }

  /** The largest of `t` and the timestamps of the mutations. */
  function Latest(t: int, ms: seq<Mutation>): (latest: int)
    decreases |ms|
  {
    if ms == [] then t
    else Latest(if ms[0].change.timestamp > t then ms[0].change.timestamp else t, ms[1..])
  }

  lemma {:induction false} LatestIsMaximum(t: int, ms: seq<Mutation>)
    ensures Latest(t, ms) >= t
    ensures forall m :: m in ms ==> Latest(t, ms) >= m.change.timestamp
    ensures Latest(t, ms) == t || exists m :: m in ms && Latest(t, ms) == m.change.timestamp
    decreases |ms|
  {
    if ms != [] {
      var t' := if ms[0].change.timestamp > t then ms[0].change.timestamp else t;
      LatestIsMaximum(t', ms[1..]);
      assert forall m :: m in ms <==> m == ms[0] || m in ms[1..];
    }
  }

  /**
   * On a row that is not DELETED, a stream of updates leaves the row at the latest
   * timestamp of the stream (or the row's own, if that is newer), carrying the cited
   * and resolved fields of an update with that timestamp.
   */
  lemma {:induction false} ReplayUpdatesReachesLatest(row: Citation, ms: seq<Mutation>)
    requires row.status == Registered || row.status == Discarded
    requires forall k :: 0 <= k < |ms| ==> ms[k].Update?
    ensures Replay(row, ms).citing == row.citing && Replay(row, ms).content == row.content
    ensures Replay(row, ms).status == row.status
    ensures Replay(row, ms).timestamp == Latest(row.timestamp, ms)
    ensures Replay(row, ms).timestamp == row.timestamp ==> Replay(row, ms) == row
    ensures Replay(row, ms).timestamp != row.timestamp ==>
      exists m :: m in ms && m.change.timestamp == Replay(row, ms).timestamp
                  && Replay(row, ms).cited == m.change.cited && Replay(row, ms).resolved == m.change.resolved
    decreases |ms|
  {
    if ms != [] {
      var row' := Apply(row, ms[0]);
      ReplayUpdatesReachesLatest(row', ms[1..]);
      ReplayAdvancesTimestamp(row', ms[1..]);
      assert forall m :: m in ms[1..] ==> m in ms;
      var r := Replay(row, ms);
      if r.timestamp != row.timestamp && r.timestamp == row'.timestamp {
        assert ms[0] in ms;
      }
    }
  }

  /**
   * Out-of-order safety for updates: when timestamps identify the update data, two
   * streams holding the same updates, in any order and with any duplicates, leave a
   * non-deleted row in the same state.
   */
  lemma ReplayUpdatesOrderIndependent(row: Citation, ms: seq<Mutation>, ms': seq<Mutation>)
    requires row.status == Registered || row.status == Discarded
    requires forall k :: 0 <= k < |ms| ==> ms[k].Update?
    requires forall m :: m in ms <==> m in ms'
    requires forall a, b :: a in ms && b in ms && a.change.timestamp == b.change.timestamp ==>
      a.change.cited == b.change.cited && a.change.resolved == b.change.resolved
    ensures Replay(row, ms) == Replay(row, ms')
  {
    assert forall k :: 0 <= k < |ms'| ==> ms'[k].Update? by {
      forall k | 0 <= k < |ms'| ensures ms'[k].Update? {
        assert ms'[k] in ms;
      }
    }
    ReplayUpdatesReachesLatest(row, ms);
    ReplayUpdatesReachesLatest(row, ms');
    LatestIsMaximum(row.timestamp, ms);
    LatestIsMaximum(row.timestamp, ms');
    assert Latest(row.timestamp, ms) == Latest(row.timestamp, ms');
  }

  /**
   * Deletions break that order independence: an update at 10 and a deletion at 5 on a
   * row at 0 leave it DELETED at 5 when the deletion arrives first, and REGISTERED at
   * 10 when the update does.
   */
  lemma ReplayWithDeletionDependsOnOrder()
    ensures
      var row := Citation("2020ApJ...1A", "...................", "10.5281/zenodo.1", false, 0, Registered);
      var upd := Changes.CitationChange("2020ApJ...1A", "2019zndo....1Z", "10.5281/zenodo.1",
                                        Changes.Doi, true, 10, Changes.Updated);
      var del := Changes.CitationChange("2020ApJ...1A", "", "10.5281/zenodo.1",
                                        Changes.Doi, false, 5, Changes.Deleted);
      Replay(row, [Delete(del), Update(upd)]).status == Deleted
      && Replay(row, [Delete(del), Update(upd)]).timestamp == 5
      && Replay(row, [Update(upd), Delete(del)]).status == Registered
      && Replay(row, [Update(upd), Delete(del)]).timestamp == 10
  {
    var row := Citation("2020ApJ...1A", "...................", "10.5281/zenodo.1", false, 0, Registered);
    var upd := Changes.CitationChange("2020ApJ...1A", "2019zndo....1Z", "10.5281/zenodo.1",
                                      Changes.Doi, true, 10, Changes.Updated);
    var del := Changes.CitationChange("2020ApJ...1A", "", "10.5281/zenodo.1",
                                      Changes.Doi, false, 5, Changes.Deleted);
    var deletedFirst := Apply(row, Delete(del));
    assert [Delete(del), Update(upd)][1..] == [Update(upd)];
    assert Replay(deletedFirst, [Update(upd)]) == Apply(deletedFirst, Update(upd));
    var updatedFirst := Apply(row, Update(upd));
    assert [Update(upd), Delete(del)][1..] == [Delete(del)];
    assert Replay(updatedFirst, [Delete(del)]) == Apply(updatedFirst, Delete(del));
  }
}
