/** Sweeping the ingest directory and listing what is left to digest after a restart
    (apps/server/src/ingest/storage.rs). */
module Recovery {
  import opened Wrappers
  import opened FileNames
  import opened PendingRecords
  import Base64

  /** A directory entry; a name may not be text. */
  datatype Entry = Entry(name: Option<string>, file: File)

  /** Reading a directory: it may not be there, may not open, or may break off after some entries. */
  datatype Stream<T> = Missing | Refused | Opened(items: seq<T>, broken: bool)

  type Key = (Int32, Uuid)

  /** The metadata an entry offers for recovery, if it is well-formed, named after its own
      event and, for a project record, not owned by the caller. */
  function Candidate(codec: Codec, owned: Key -> bool, entry: Entry): (r: Option<EventMetadata>)
    ensures r.Some? ==> ParseUuid(r.value.eventId).Some?
  {
    if entry.name.None? then None
    else if !IsPendingRecord(entry.name.value) && !IsLegacyMetadata(entry.name.value) then None
    else if IsPendingRecord(entry.name.value) && OwnedName(owned, entry.name.value) then None
    else match entry.file
      case Unreadable => None
      case Readable(bytes) =>
        if IsPendingRecord(entry.name.value) then FromRecord(codec, entry.name.value, bytes)
        else FromMetadata(codec, bytes)
  }

  predicate OwnedName(owned: Key -> bool, name: string) {
    match ParseProjectPendingName(name)
    case None => false
    case Some(key) => owned(key)
  }

  function FromRecord(codec: Codec, name: string, bytes: seq<byte>): (r: Option<EventMetadata>)
    ensures r.Some? ==> ParseUuid(r.value.eventId).Some?
  {
    match codec.readRecord(bytes)
    case None => None
    case Some(record) =>
      if record.version != PENDING_EVENT_VERSION then None
      else match ParseUuid(record.metadata.eventId)
        case None => None
        case Some(u) => if PendingNameMatches(name, record.metadata.projectId, u) then Some(record.metadata) else None
  }

  function FromMetadata(codec: Codec, bytes: seq<byte>): (r: Option<EventMetadata>)
    ensures r.Some? ==> ParseUuid(r.value.eventId).Some?
  {
    match codec.readMetadata(bytes)
    case None => None
    case Some(metadata) => if ParseUuid(metadata.eventId).Some? then Some(metadata) else None
  }

  function KeyOf(metadata: EventMetadata): Key
    requires ParseUuid(metadata.eventId).Some?
  {
    (metadata.projectId, ParseUuid(metadata.eventId).value)
  }

  predicate Identified(list: seq<EventMetadata>) {
    forall k | 0 <= k < |list| :: ParseUuid(list[k].eventId).Some?
  }

  function Keys(list: seq<EventMetadata>): (keys: set<Key>)
    requires Identified(list)
  {
    set k | 0 <= k < |list| :: KeyOf(list[k])
  }

  /** What the first `n` entries leave pending: the first candidate for each event. */
  function Listed(codec: Codec, owned: Key -> bool, entries: seq<Entry>, n: nat): (r: seq<EventMetadata>)
    requires n <= |entries|
    ensures Identified(r)
  {
    if n == 0 then []
    else
      var before := Listed(codec, owned, entries, n - 1);
      match Candidate(codec, owned, entries[n - 1])
      case None => before
      case Some(metadata) => if KeyOf(metadata) in Keys(before) then before else before + [metadata]
  }

  lemma KeysSnoc(list: seq<EventMetadata>, metadata: EventMetadata)
    requires Identified(list) && ParseUuid(metadata.eventId).Some?
    ensures Identified(list + [metadata])
    ensures Keys(list + [metadata]) == Keys(list) + {KeyOf(metadata)}
  {
    hide ParseUuid, KeyOf;
    var more := list + [metadata];
    assert forall k | 0 <= k < |list| :: more[k] == list[k];
    assert more[|list|] == metadata;
  }

  // ----- what is listed ----------------------------------------------------------------

  ghost predicate Distinct(list: seq<EventMetadata>)
    requires Identified(list)
  {
    forall i, j | 0 <= i < j < |list| :: KeyOf(list[i]) != KeyOf(list[j])
  }

  lemma DistinctSnoc(list: seq<EventMetadata>, metadata: EventMetadata)
    requires Identified(list) && ParseUuid(metadata.eventId).Some?
    requires Distinct(list) && KeyOf(metadata) !in Keys(list)
    ensures Identified(list + [metadata]) && Distinct(list + [metadata])
  {
    hide ParseUuid, KeyOf;
    var more := list + [metadata];
    assert forall k | 0 <= k < |list| :: more[k] == list[k];
    forall i, j | 0 <= i < j < |more| ensures KeyOf(more[i]) != KeyOf(more[j]) {
      if j == |list| { assert KeyOf(list[i]) in Keys(list); }
    }
  }

  /** No event is listed twice. */
  lemma {:induction false} EachListedOnce(codec: Codec, owned: Key -> bool, entries: seq<Entry>, n: nat)
    requires n <= |entries|
    ensures Distinct(Listed(codec, owned, entries, n))
    decreases n
  {
    hide Candidate, KeyOf, ParseUuid, Keys;
    if n > 0 {
      EachListedOnce(codec, owned, entries, n - 1);
      var before, metadata := Listed(codec, owned, entries, n - 1), Candidate(codec, owned, entries[n - 1]);
      if metadata.Some? && KeyOf(metadata.value) !in Keys(before) {
        DistinctSnoc(before, metadata.value);
      }
    }
  }

  ghost predicate Offers(codec: Codec, owned: Key -> bool, entry: Entry, key: Key) {
    var metadata := Candidate(codec, owned, entry);
    metadata.Some? && KeyOf(metadata.value) == key
  }

  ghost predicate Offered(codec: Codec, owned: Key -> bool, entries: seq<Entry>, n: nat, key: Key)
    requires n <= |entries|
  {
    exists i | 0 <= i < n :: Offers(codec, owned, entries[i], key)
  }

  /** An event is listed exactly when some entry offers it. */
  lemma {:induction false} ListedExactly(codec: Codec, owned: Key -> bool, entries: seq<Entry>, n: nat, key: Key)
    requires n <= |entries|
    ensures key in Keys(Listed(codec, owned, entries, n)) <==> Offered(codec, owned, entries, n, key)
    decreases n
  {
    hide Candidate, KeyOf, Keys, Offers;
    if n == 0 {
      NoKeys();
    } else {
      ListedExactly(codec, owned, entries, n - 1, key);
      OneMoreListed(codec, owned, entries, n, key);
      assert Offered(codec, owned, entries, n, key)
        <==> Offered(codec, owned, entries, n - 1, key) || Offers(codec, owned, entries[n - 1], key);
    }
  }

  lemma NoKeys()
    ensures Keys([]) == {}
  {
  }

  lemma OneMoreListed(codec: Codec, owned: Key -> bool, entries: seq<Entry>, n: nat, key: Key)
    requires 0 < n <= |entries|
    ensures key in Keys(Listed(codec, owned, entries, n))
      <==> key in Keys(Listed(codec, owned, entries, n - 1)) || Offers(codec, owned, entries[n - 1], key)
  {
    hide Candidate, KeyOf, Keys, ParseUuid;
    var before := Listed(codec, owned, entries, n - 1);
    var metadata := Candidate(codec, owned, entries[n - 1]);
    if metadata.Some? { KeysSnoc(before, metadata.value); }
  }

  /** The first of the first `n` entries to offer its event offers this. */
  ghost predicate FirstOffers(codec: Codec, owned: Key -> bool, entries: seq<Entry>, n: nat, i: nat, m: EventMetadata)
    requires n <= |entries|
  {
    && i < n && Candidate(codec, owned, entries[i]) == Some(m)
    && forall j | 0 <= j < i :: !Offers(codec, owned, entries[j], KeyOf(m))
  }

  ghost predicate SomeFirstOffers(codec: Codec, owned: Key -> bool, entries: seq<Entry>, n: nat, m: EventMetadata)
    requires n <= |entries|
  {
    exists i: nat :: FirstOffers(codec, owned, entries, n, i, m)
  }

  /** What is listed for each event is what the first entry that offers it holds, and nothing
      else is listed. */
  lemma {:induction false} ListedAreFirst(codec: Codec, owned: Key -> bool, entries: seq<Entry>, n: nat,
                                          m: EventMetadata)
    requires n <= |entries|
    ensures m in Listed(codec, owned, entries, n) <==> SomeFirstOffers(codec, owned, entries, n, m)
    decreases n
  {
    hide Candidate, KeyOf, Keys, ParseUuid, Offers, FirstOffers;
    if n == 0 {
      NothingOffered(codec, owned, entries, m);
    } else {
      ListedAreFirst(codec, owned, entries, n - 1, m);
      OneMoreFirst(codec, owned, entries, n, m);
      LastIsListed(codec, owned, entries, n, m);
    }
  }

  lemma NothingOffered(codec: Codec, owned: Key -> bool, entries: seq<Entry>, m: EventMetadata)
    ensures !SomeFirstOffers(codec, owned, entries, 0, m)
  {
  }

  lemma OneMoreFirst(codec: Codec, owned: Key -> bool, entries: seq<Entry>, n: nat, m: EventMetadata)
    requires 0 < n <= |entries|
    ensures SomeFirstOffers(codec, owned, entries, n, m)
       <==> SomeFirstOffers(codec, owned, entries, n - 1, m) || FirstOffers(codec, owned, entries, n, n - 1, m)
  {
    hide Candidate, KeyOf, ParseUuid, Offers;
    if SomeFirstOffers(codec, owned, entries, n - 1, m) {
      var i: nat :| FirstOffers(codec, owned, entries, n - 1, i, m);
      assert FirstOffers(codec, owned, entries, n, i, m);
    }
    if SomeFirstOffers(codec, owned, entries, n, m) {
      var i: nat :| FirstOffers(codec, owned, entries, n, i, m);
      assert i < n - 1 ==> FirstOffers(codec, owned, entries, n - 1, i, m);
    }
  }

  lemma LastIsListed(codec: Codec, owned: Key -> bool, entries: seq<Entry>, n: nat, m: EventMetadata)
    requires 0 < n <= |entries|
    ensures m in Listed(codec, owned, entries, n)
       <==> m in Listed(codec, owned, entries, n - 1) || FirstOffers(codec, owned, entries, n, n - 1, m)
  {
    hide KeyOf, ParseUuid, Keys, Offers;
    var candidate := Candidate(codec, owned, entries[n - 1]);
    if candidate.Some? {
      ListedExactly(codec, owned, entries, n - 1, KeyOf(candidate.value));
    }
  }

  /** Every record of an event nobody owns that publishers and readers accept is listed, whatever
      it holds beside the event and whatever else is there. */
  lemma AcceptedIsListed(codec: Codec, owned: Key -> bool, entries: seq<Entry>, i: nat,
                         project: Int32, u: Uuid, eventId: string, bytes: seq<byte>)
    requires i < |entries| && !owned((project, u)) && ParseUuid(eventId) == Some(u)
    requires DecodePendingRecord(codec, bytes, eventId, Some(project)).Ok?
    requires entries[i] == Entry(Some(ProjectPendingName(project, u)), Readable(bytes))
    ensures (project, u) in Keys(Listed(codec, owned, entries, |entries|))
  {
    hide ParseUuid, ProjectPendingName, PendingNameMatches, ParseProjectPendingName, IsPendingRecord, Keys, Listed;
    ParsingUndoesNaming(project, u);
    assert Offers(codec, owned, entries[i], (project, u));
    ListedExactly(codec, owned, entries, |entries|, (project, u));
  }

  /** When nothing else offers the event, the metadata listed for it is the record's own. */
  lemma OwnMetadataIsListed(codec: Codec, owned: Key -> bool, entries: seq<Entry>, i: nat,
                            u: Uuid, metadata: EventMetadata, data: seq<byte>)
    requires codec.Lawful() && i < |entries|
    requires ParseUuid(metadata.eventId) == Some(u) && !owned((metadata.projectId, u))
    requires entries[i] == Entry(Some(ProjectPendingName(metadata.projectId, u)),
                                 Readable(RecordBytes(codec, metadata, data)))
    requires forall j | 0 <= j < i :: !Offers(codec, owned, entries[j], (metadata.projectId, u))
    ensures metadata in Listed(codec, owned, entries, |entries|)
  {
    hide ParseUuid, ProjectPendingName, PendingNameMatches, ParseProjectPendingName, IsPendingRecord, Layout,
        Listed, Offers;
    ParsingUndoesNaming(metadata.projectId, u);
    var text := Base64.Encode(data);
    assert codec.readRecord(Layout(codec.printMetadata(metadata), text))
        == Some(PendingRecord(PENDING_EVENT_VERSION, metadata, text));
    assert FirstOffers(codec, owned, entries, |entries|, i, metadata);
    ListedAreFirst(codec, owned, entries, |entries|, metadata);
  }

  /** In particular every record as a call writes it. */
  lemma PublishedIsListed(codec: Codec, owned: Key -> bool, entries: seq<Entry>, i: nat,
                          u: Uuid, metadata: EventMetadata, data: seq<byte>)
    requires codec.Lawful() && i < |entries|
    requires ParseUuid(metadata.eventId) == Some(u) && !owned((metadata.projectId, u))
    requires entries[i] == Entry(Some(ProjectPendingName(metadata.projectId, u)),
                                 Readable(RecordBytes(codec, metadata, data)))
    ensures (metadata.projectId, u) in Keys(Listed(codec, owned, entries, |entries|))
  {
    hide ParseUuid, ProjectPendingName, RecordBytes, DecodePendingRecord, Listed, Keys;
    WrittenRecordDecodes(codec, metadata, data, metadata.eventId, Some(metadata.projectId));
    AcceptedIsListed(codec, owned, entries, i, metadata.projectId, u, metadata.eventId,
                     RecordBytes(codec, metadata, data));
  }

  /** An owned event is listed, if at all, from a file with no project in its name. */
  lemma OwnedOnlyFromLegacy(codec: Codec, owned: Key -> bool, entry: Entry, key: Key)
    requires Offers(codec, owned, entry, key) && owned(key)
    ensures entry.name.Some? && ParseProjectPendingName(entry.name.value) == None
  {
    hide ParseUuid, ParseProjectPendingName, IsPendingRecord, IsLegacyMetadata;
    var name := entry.name.value;
    if !IsPendingRecord(name) { ProjectNamesArePending(name); }
  }

  lemma ProjectNamesArePending(name: string)
    ensures ParseProjectPendingName(name).Some? ==> IsPendingRecord(name)
  {
    hide RSplitOnce, ParseInt32, ParseUuid;
  }

  /** A temporary or quarantined file offers nothing. */
  lemma HiddenOffersNothing(codec: Codec, owned: Key -> bool, fileName: string, u: Uuid, file: File)
    ensures Candidate(codec, owned, Entry(Some(TemporaryName(fileName, u)), file)) == None
    ensures Candidate(codec, owned, Entry(Some(QuarantineName(fileName, u)), file)) == None
  {
    hide TemporaryName, QuarantineName, IsPendingRecord, IsLegacyMetadata;
    HiddenNeverListed(fileName, u);
  }

  /** What listing returns: nothing pending in a missing directory, an error when it cannot be
      read to its end, and otherwise the first candidate of each event. */
  function ScanResult(codec: Codec, owned: Key -> bool, scan: Stream<Entry>): Result<seq<EventMetadata>, StorageError> {
    match scan
    case Missing => Ok([])
    case Refused => Err(Internal)
    case Opened(items, broken) => if broken then Err(Internal) else Ok(Listed(codec, owned, items, |items|))
  }

  /** First the sweep, whose failure is reported, then the scan of what is there by then. */
  method ListPendingEventMetadataExcept(codec: Codec, owned: Key -> bool, dir: Directory, sweep: Stream<string>,
                                        ages: map<string, nat>, stuck: set<string>, scan: Stream<Entry>)
    returns (r: Result<seq<EventMetadata>, StorageError>, after: Directory)
    ensures after.Keys <= dir.Keys && forall name | name in after :: after[name] == dir[name]
    ensures forall name | name in dir :: name !in after <==> Swept(sweep, stuck, ages, name)
    ensures forall name | name in dir && name !in after ::
      StartsWith(name, ".") && Contains(name, ".tmp-") && AtLeast(ages, name, 300)
    ensures r == if Unreadable(sweep) then Err(Internal) else ScanResult(codec, owned, scan)
  {
    var swept;
    swept, after := CleanupOrphanedTemporaryFiles(dir, sweep, ages, stuck);
    if swept.Err? {
      return Err(swept.error), after;
    }
    match scan {
      case Missing => r := Ok([]);
      case Refused => r := Err(Internal);
      case Opened(items, broken) =>
        var pending := ScanEntries(codec, owned, items);
        r := if broken then Err(Internal) else Ok(pending);
    }
  }

  /** The loop over the entries. */
  method ScanEntries(codec: Codec, owned: Key -> bool, entries: seq<Entry>) returns (pending: seq<EventMetadata>)
    ensures pending == Listed(codec, owned, entries, |entries|)
  {
    hide ParseUuid, ParseProjectPendingName, IsPendingRecord, IsLegacyMetadata, PendingNameMatches, KeyOf, Keys;
    pending := [];
    var seenEvents: set<Key> := {};
    NoKeys();
    for i := 0 to |entries|
      invariant pending == Listed(codec, owned, entries, i)
      invariant seenEvents == Keys(pending)
    {
      var entry := entries[i];
      if entry.name.None? {
        continue;
      }
      var fileName := entry.name.value;
      var isPendingRecord := IsPendingRecord(fileName);
      var isLegacyMetadata := IsLegacyMetadata(fileName);
      if !isPendingRecord && !isLegacyMetadata {
        continue;
      }
      if isPendingRecord {
        var parsed := ParseProjectPendingName(fileName);
        if parsed.Some? && owned(parsed.value) {
          continue;
        }
      }
      if entry.file.Unreadable? {
        continue;
      }
      var bytes := entry.file.bytes;
      var metadata: Option<EventMetadata> := None;
      if isPendingRecord {
        var record := codec.readRecord(bytes);
        if record.Some? && record.value.version == PENDING_EVENT_VERSION {
          var id := ParseUuid(record.value.metadata.eventId);
          if id.Some? && PendingNameMatches(fileName, record.value.metadata.projectId, id.value) {
            metadata := Some(record.value.metadata);
          }
        }
      } else {
        metadata := codec.readMetadata(bytes);
        if metadata.Some? && ParseUuid(metadata.value.eventId).None? {
          metadata := None;
        }
      }
      assert metadata == Candidate(codec, owned, entry);
      if metadata.Some? && KeyOf(metadata.value) !in seenEvents {
        KeysSnoc(pending, metadata.value);
        seenEvents := seenEvents + {KeyOf(metadata.value)};
        pending := pending + [metadata.value];
      }
    }
  }

  // ----- sweeping ----------------------------------------------------------------------

  const ORPHANED_TEMPORARY_FILE_GRACE: nat := 300

  /** Hidden temporary files at least as old as the grace period; an age may not be known. */
  predicate Expired(name: string, ages: map<string, nat>) {
    IsOrphanedTemporaryFile(name) && name in ages && ages[name] >= ORPHANED_TEMPORARY_FILE_GRACE
  }

  predicate AtLeast(ages: map<string, nat>, name: string, seconds: nat) {
    name in ages && ages[name] >= seconds
  }

  lemma OrphansAre()
    ensures forall name :: IsOrphanedTemporaryFile(name) <==> StartsWith(name, ".") && Contains(name, ".tmp-")
  {
    hide Contains, StartsWith;
  }

  predicate Unreadable<T>(stream: Stream<T>) {
    stream.Refused? || (stream.Opened? && stream.broken)
  }

  /** The sweep comes to this name, finds it expired and can remove it. */
  predicate Swept(sweep: Stream<string>, stuck: set<string>, ages: map<string, nat>, name: string) {
    sweep.Opened? && name in sweep.items && name !in stuck && Expired(name, ages)
  }

  /** Removing orphans in the order the directory lists them; `stuck` ones fail to be removed, and
      a directory that breaks off has been swept that far. */
  method CleanupOrphanedTemporaryFiles(dir: Directory, sweep: Stream<string>, ages: map<string, nat>,
                                       stuck: set<string>)
    returns (r: Result<(), StorageError>, after: Directory)
    ensures after.Keys <= dir.Keys && forall name | name in after :: after[name] == dir[name]
    ensures forall name | name in dir :: name !in after <==> Swept(sweep, stuck, ages, name)
    ensures forall name | name in dir && name !in after ::
      StartsWith(name, ".") && Contains(name, ".tmp-") && AtLeast(ages, name, 300)
    ensures sweep.Opened? ==>
      forall name | StartsWith(name, ".") && Contains(name, ".tmp-") && AtLeast(ages, name, 300) ::
        name in sweep.items && name !in stuck ==> name !in after
    ensures r == if Unreadable(sweep) then Err(Internal) else Ok(())
  {
    hide IsOrphanedTemporaryFile, Contains, StartsWith;
    OrphansAre();
    after := dir;
    match sweep {
      case Missing => return Ok(()), after;
      case Refused => return Err(Internal), after;
      case Opened(names, broken) =>
        for i := 0 to |names|
          invariant after.Keys <= dir.Keys && forall name | name in after :: after[name] == dir[name]
          invariant forall name | name in dir ::
            name !in after <==> name in names[..i] && name !in stuck && Expired(name, ages)
        {
          assert names[..i + 1] == names[..i] + [names[i]];
          if Expired(names[i], ages) && names[i] !in stuck {
            after := after - {names[i]};
          }
        }
        assert names[..|names|] == names;
        r := if broken then Err(Internal) else Ok(());
    }
  }

  lemma PlacesAreNotHidden(project: Int32, u: Uuid)
    ensures !IsOrphanedTemporaryFile(ProjectPendingName(project, u))
        && !IsOrphanedTemporaryFile(ProjectEventName(project, u))
    ensures !IsOrphanedTemporaryFile(PendingName(u)) && !IsOrphanedTemporaryFile(EventName(u))
  {
    hide Contains, FormatInt;
    PendingNames(project, u);
    assert ProjectPendingName(project, u)[0] == 'p' && ProjectEventName(project, u)[0] == 'p';
    assert PendingName(u)[0] == EventName(u)[0] == HexDigit(u[0]);
  }

  /** Whatever the sweeper removes, every event is read as before. */
  lemma SweepingChangesNoEvent(codec: Codec, dir: Directory, after: Directory, ages: map<string, nat>,
                               project: Int32, eventId: string)
    requires after.Keys <= dir.Keys && forall name | name in after :: after[name] == dir[name]
    requires forall name | name in dir && name !in after :: Expired(name, ages)
    ensures ReadEventWithLocation(codec, after, project, eventId) == ReadEventWithLocation(codec, dir, project, eventId)
  {
    hide ParseUuid, ProjectPendingName, ProjectEventName, PendingName, EventName, IsOrphanedTemporaryFile, Decoded;
    if ParseUuid(eventId).Some? { PlacesAreNotHidden(project, ParseUuid(eventId).value); }
  }
}
