/** From acknowledging an event to finding it again after a crash: the publication protocol,
    the reader and recovery put together (apps/server/src/ingest/storage.rs). */
module Acknowledged {
  import opened Wrappers
  import opened FileNames
  import opened Publication
  import opened PublicationWhole
  import opened PublicationDurable
  import PublicationFirst
  import Records = PendingRecords
  import Recovery

  /** Reading the directory finds the record's file with what it holds at the moment. */
  ghost predicate Scans(site: Site, s: State, entries: seq<Recovery.Entry>) {
    Standing(s).Some? ==>
      exists i: nat :: i < |entries| && FileAt(site, s, entries[i])
  }

  ghost predicate FileAt(site: Site, s: State, entry: Recovery.Entry)
    requires Standing(s).Some?
  {
    entry == Recovery.Entry(Some(ProjectPendingName(site.project, site.uuid)),
                            Records.Readable(Standing(s).value.bytes))
  }

  /** The same of opening it by name. */
  ghost predicate Opens(site: Site, s: State, dir: Records.Directory) {
    Standing(s).Some? ==>
      ProjectPendingName(site.project, site.uuid) in dir
      && dir[ProjectPendingName(site.project, site.uuid)] == Records.Readable(Standing(s).value.bytes)
  }

  lemma CompleteIsListed(site: Site, s: State, entries: seq<Recovery.Entry>, owned: Recovery.Key -> bool)
    requires Standing(s).Some? && site.Complete(Standing(s).value) && Scans(site, s, entries)
    requires !owned((site.project, site.uuid))
    ensures (site.project, site.uuid) in Recovery.Keys(Recovery.Listed(site.codec, owned, entries, |entries|))
  {
    hide ParseUuid, Simple, ProjectPendingName, Records.DecodePendingRecord, Recovery.Listed, Recovery.Keys, Standing;
    var i: nat :| i < |entries| && FileAt(site, s, entries[i]);
    ParseUuidUndoesPrinting(site.uuid);
    Recovery.AcceptedIsListed(site.codec, owned, entries, i, site.project, site.uuid, Simple(site.uuid),
                              Standing(s).value.bytes);
  }

  /** What stands is read under every spelling of the event id. */
  lemma CompleteIsRead(site: Site, s: State, dir: Records.Directory, eventId: string)
    requires Standing(s).Some? && site.Complete(Standing(s).value) && Opens(site, s, dir)
    requires ParseUuid(eventId) == Some(site.uuid)
    ensures var data := Records.DecodePendingRecord(site.codec, Standing(s).value.bytes, Simple(site.uuid),
                                                    Some(site.project)).value;
      Records.ReadEventWithLocation(site.codec, dir, site.project, eventId) == Ok((data, Records.Project))
  {
    hide ParseUuid, Simple, ProjectPendingName, ProjectEventName, Standing;
    ParseUuidUndoesPrinting(site.uuid);
    SameDecoding(site, Standing(s).value.bytes, eventId);
  }

  lemma SameDecoding(site: Site, bytes: seq<byte>, eventId: string)
    requires ParseUuid(eventId) == ParseUuid(Simple(site.uuid))
    ensures Records.DecodePendingRecord(site.codec, bytes, eventId, Some(site.project))
         == Records.DecodePendingRecord(site.codec, bytes, Simple(site.uuid), Some(site.project))
  {
    hide ParseUuid, Simple;
  }

  /** Whatever happened before, an event acknowledged by link or rename is listed by recovery after
      every later step and every crash, until it is deleted, unless somebody owns it. */
  lemma AcknowledgedIsListed(site: Site, history: seq<Action>, during: seq<Action>, after: seq<Action>, w: nat,
                             entries: seq<Recovery.Entry>, owned: Recovery.Key -> bool)
    requires site.Valid() && NothingDeleted(during) && NothingDeleted(after)
    requires NotInPlace(Run(site, Start(site), history).Pc(w))
    requires var pc := Run(site, Run(site, Start(site), history), during).Pc(w);
      pc == Stored(ByLink) || pc == Stored(ByRename)
    requires Scans(site, Run(site, Run(site, Run(site, Start(site), history), during), after), entries)
    requires !owned((site.project, site.uuid))
    ensures (site.project, site.uuid) in Recovery.Keys(Recovery.Listed(site.codec, owned, entries, |entries|))
  {
    hide *;
    StoredSurvivesCrashes(site, history, during, after, w);
    CompleteIsListed(site, Run(site, Run(site, Run(site, Start(site), history), during), after), entries, owned);
  }

  /** And from a sound start, the payload acknowledged by link is the payload read, under every
      spelling of its id, after every later step and every crash until it is deleted. */
  lemma AcknowledgedIsRead(site: Site, history: seq<Action>, during: seq<Action>, w: nat, dir: Records.Directory,
                           eventId: string)
    requires site.Valid() && PublicationFirst.StartsSound(site) && NothingDeleted(during)
    requires NotInPlace(Run(site, Start(site), history).Pc(w))
    requires Run(site, Run(site, Start(site), history), during).Pc(w) == Stored(ByLink)
    requires Opens(site, Run(site, Run(site, Start(site), history), during), dir)
    requires ParseUuid(eventId) == Some(site.uuid)
    ensures Records.ReadEventWithLocation(site.codec, dir, site.project, eventId)
        == Ok((site.job(w).data, Records.Project))
  {
    hide *;
    var s := Run(site, Run(site, Start(site), history), during);
    PublicationFirst.LinkedRecordStands(site, history, during, w);
    WrittenIsComplete(site, w);
    WrittenIs(site, w, Standing(s).value);
    CompleteIsRead(site, s, dir, eventId);
  }

  lemma WrittenIs(site: Site, w: nat, c: Content)
    requires WrittenBy(site, w, c)
    ensures c == Content(site.Record(w), true, false)
  {
  }

  /** And the metadata that recovery lists for it is that of the acknowledged call, when no other
      file in the directory offers the event. */
  lemma AcknowledgedMetadataIsListed(site: Site, history: seq<Action>, during: seq<Action>, w: nat,
                                     entries: seq<Recovery.Entry>, i: nat, owned: Recovery.Key -> bool)
    requires site.Valid() && PublicationFirst.StartsSound(site) && NothingDeleted(during)
    requires NotInPlace(Run(site, Start(site), history).Pc(w))
    requires Run(site, Run(site, Start(site), history), during).Pc(w) == Stored(ByLink)
    requires i < |entries| && Standing(Run(site, Run(site, Start(site), history), during)).Some?
    requires FileAt(site, Run(site, Run(site, Start(site), history), during), entries[i])
    requires forall j | 0 <= j < i :: !Recovery.Offers(site.codec, owned, entries[j], (site.project, site.uuid))
    requires !owned((site.project, site.uuid))
    ensures site.job(w).metadata in Recovery.Listed(site.codec, owned, entries, |entries|)
  {
    hide *;
    PublicationFirst.LinkedRecordStands(site, history, during, w);
    WrittenRecordAt(site, Run(site, Run(site, Start(site), history), during), w, entries[i]);
    OwnIdentity(site, w);
    LawfulCodec(site);
    Recovery.OwnMetadataIsListed(site.codec, owned, entries, i, site.uuid, site.job(w).metadata, site.job(w).data);
  }

  lemma WrittenRecordAt(site: Site, s: State, w: nat, entry: Recovery.Entry)
    requires Standing(s).Some? && WrittenBy(site, w, Standing(s).value) && FileAt(site, s, entry)
    ensures entry == Recovery.Entry(Some(ProjectPendingName(site.project, site.uuid)),
      Records.Readable(Records.RecordBytes(site.codec, site.job(w).metadata, site.job(w).data)))
  {
    hide ProjectPendingName, Records.RecordBytes;
  }

  lemma OwnIdentity(site: Site, w: nat)
    requires site.Valid()
    ensures site.job(w).metadata.projectId == site.project
    ensures ParseUuid(site.job(w).metadata.eventId) == Some(site.uuid)
  {
    hide ParseUuid, Records.DecodePendingRecord, Records.RecordBytes, ProjectPendingName;
    WrittenIsComplete(site, w);
    assert site.ForThis(site.job(w));
  }

  lemma LawfulCodec(site: Site)
    requires site.Valid()
    ensures site.codec.Lawful()
  {
  }
}
