/** Pending event records and where an event is read from (apps/server/src/ingest/storage.rs).
    JSON is an abstract codec; the record's layout around it is the writer's own. */
module PendingRecords {
  import opened Wrappers
  import opened FileNames
  import Base64

  const PENDING_EVENT_VERSION: nat := 1

  datatype EventMetadata = EventMetadata(eventId: string, projectId: Int32, ingestedAt: string,
                                         remoteAddr: Option<string>)

  datatype PendingRecord = PendingRecord(version: nat, metadata: EventMetadata, eventData: seq<byte>)

  datatype StorageError = Validation | Internal | MissingEventFile

  datatype Location = Project | Legacy

  function Ascii(s: string): (r: seq<byte>)
    requires forall i | 0 <= i < |s| :: s[i] < 128 as char
    ensures |r| == |s|
  {
    seq(|s|, i requires 0 <= i < |s| => s[i] as int as byte)
  }

  const OPENING: seq<byte> := Ascii("{\"version\":1,\"metadata\":")
  const EVENT_DATA: seq<byte> := Ascii(",\"event_data\":\"")
  const CLOSING: seq<byte> := Ascii("\"}")

  /** The bytes of a record file. */
  function Layout(metadata: seq<byte>, eventData: seq<byte>): seq<byte> {
    OPENING + metadata + EVENT_DATA + eventData + CLOSING
  }

  datatype Codec = Codec(printMetadata: EventMetadata -> seq<byte>, readMetadata: seq<byte> -> Option<EventMetadata>,
                         readRecord: seq<byte> -> Option<PendingRecord>)
  {
    /** A record laid out around printed metadata and base64 text reads back. */
    ghost predicate Lawful() {
      forall m, data :: readRecord(Layout(printMetadata(m), Base64.Encode(data)))
                     == Some(PendingRecord(PENDING_EVENT_VERSION, m, Base64.Encode(data)))
    }
  }

  function RecordBytes(codec: Codec, metadata: EventMetadata, data: seq<byte>): seq<byte> {
    Layout(codec.printMetadata(metadata), Base64.Encode(data))
  }

  predicate SameEventId(left: string, right: string) {
    ParseUuid(left) == ParseUuid(right)
  }

  function ValidatePendingRecord(record: PendingRecord, eventId: string, project: Option<Int32>)
    : Result<seq<byte>, StorageError>
  {
    if record.version != PENDING_EVENT_VERSION
       || !SameEventId(record.metadata.eventId, eventId)
       || (project.Some? && record.metadata.projectId != project.value)
    then Err(Internal)
    else match Base64.Decode(record.eventData)
      case None => Err(Internal)
      case Some(data) => Ok(data)
  }

  function DecodePendingRecord(codec: Codec, bytes: seq<byte>, eventId: string, project: Option<Int32>)
    : Result<seq<byte>, StorageError>
  {
    match codec.readRecord(bytes)
    case None => Err(Internal)
    case Some(record) => ValidatePendingRecord(record, eventId, project)
  }

  /** A written record decodes to its payload, for its own event and project and no other. */
  lemma WrittenRecordDecodes(codec: Codec, metadata: EventMetadata, data: seq<byte>, eventId: string,
                             project: Option<Int32>)
    requires codec.Lawful()
    ensures DecodePendingRecord(codec, RecordBytes(codec, metadata, data), eventId, project)
         == if SameEventId(metadata.eventId, eventId) && (project.None? || project.value == metadata.projectId)
            then Ok(data) else Err(Internal)
  {
    hide Layout, ParseUuid;
    Base64.DecodeUndoesEncode(data);
  }

  // ----- reading -----------------------------------------------------------------------

  /** A file that is there may still fail to be read. */
  datatype File = Readable(bytes: seq<byte>) | Unreadable

  type Directory = map<string, File>

  function ReadEventWithLocation(codec: Codec, dir: Directory, project: Int32, eventId: string)
    : Result<(seq<byte>, Location), StorageError>
  {
    match ParseUuid(eventId)
    case None => Err(Validation)
    case Some(u) =>
      if ProjectPendingName(project, u) in dir then
        Decoded(codec, dir[ProjectPendingName(project, u)], project, eventId, Project)
      else if ProjectEventName(project, u) in dir then
        (match dir[ProjectEventName(project, u)]
         case Readable(bytes) => Ok((bytes, Project))
         case Unreadable => Err(Internal))
      else ReadLegacy(codec, dir, project, eventId, u)
  }

  function ReadLegacy(codec: Codec, dir: Directory, project: Int32, eventId: string, u: Uuid)
    : Result<(seq<byte>, Location), StorageError>
  {
    if PendingName(u) in dir then
      Decoded(codec, dir[PendingName(u)], project, eventId, Legacy)
    else if EventName(u) in dir then
      (match dir[EventName(u)]
       case Readable(bytes) => Ok((bytes, Legacy))
       case Unreadable => Err(Internal))
    else Err(MissingEventFile)
  }

  function Decoded(codec: Codec, file: File, project: Int32, eventId: string, location: Location)
    : Result<(seq<byte>, Location), StorageError>
  {
    match file
    case Unreadable => Err(Internal)
    case Readable(bytes) =>
      match DecodePendingRecord(codec, bytes, eventId, Some(project))
      case Err(e) => Err(e)
      case Ok(data) => Ok((data, location))
  }

  // ----- storing -----------------------------------------------------------------------

  /** Where `store_event_with_metadata` puts an event, if its metadata is for that event. */
  function StoreTarget(eventId: string, metadata: EventMetadata): Result<string, StorageError> {
    if !SameEventId(metadata.eventId, eventId) then Err(Validation)
    else match ParseUuid(eventId)
      case None => Err(Validation)
      case Some(u) => Ok(ProjectPendingName(metadata.projectId, u))
  }

  /** The directory once the record has been published. */
  function Stored(codec: Codec, dir: Directory, target: string, metadata: EventMetadata, data: seq<byte>): Directory {
    dir[target := Readable(RecordBytes(codec, metadata, data))]
  }

  /** A stored event is read back unchanged, under every spelling of its id. */
  lemma StoreThenRead(codec: Codec, dir: Directory, eventId: string, metadata: EventMetadata, data: seq<byte>,
                      spelled: string)
    requires codec.Lawful()
    requires StoreTarget(eventId, metadata).Ok? && SameEventId(spelled, eventId)
    ensures ReadEventWithLocation(codec, Stored(codec, dir, StoreTarget(eventId, metadata).value, metadata, data),
                                  metadata.projectId, spelled)
         == Ok((data, Project))
  {
    hide ParseUuid, ProjectPendingName, DecodePendingRecord, RecordBytes;
    WrittenRecordDecodes(codec, metadata, data, spelled, Some(metadata.projectId));
  }

  /** Storing one event changes what is read of no other event and no other project. */
  lemma StoringLeavesOthers(codec: Codec, dir: Directory, eventId: string, metadata: EventMetadata, data: seq<byte>,
                            project: Int32, other: string)
    requires StoreTarget(eventId, metadata).Ok?
    requires project != metadata.projectId || !SameEventId(other, eventId)
    ensures ReadEventWithLocation(codec, Stored(codec, dir, StoreTarget(eventId, metadata).value, metadata, data),
                                  project, other)
         == ReadEventWithLocation(codec, dir, project, other)
  {
    hide ParseUuid, ProjectPendingName, ProjectEventName, PendingName, EventName, RecordBytes, Decoded;
    if ParseUuid(other).Some? {
      var u, v := ParseUuid(eventId).value, ParseUuid(other).value;
      ProjectNamesInjective(metadata.projectId, u, project, v);
      PlacesDistinct(metadata.projectId, u, project, v);
    }
  }

  // ----- deleting ----------------------------------------------------------------------

  /** Every name an event's copy may have at a location. */
  function EventPathsAt(project: Int32, u: Uuid, location: Location): seq<string> {
    match location
    case Project => [ProjectEventName(project, u), ProjectPendingName(project, u)]
    case Legacy => [EventName(u), MetadataName(u), PendingName(u)]
  }

  /** Removing files one by one; `stuck` ones fail to be removed, and that is ignored. */
  method DeletePaths(dir: Directory, paths: seq<string>, stuck: set<string>) returns (after: Directory)
    ensures after == dir - (Names(paths) - stuck)
  {
    after := dir;
    for i := 0 to |paths|
      invariant after == dir - (Names(paths[..i]) - stuck)
    {
      NamesSnoc(paths, i);
      if paths[i] !in stuck {
        after := after - {paths[i]};
      }
    }
    assert paths[..|paths|] == paths;
  }

  function Names(paths: seq<string>): set<string> {
    set p | p in paths
  }

  lemma NamesSnoc(paths: seq<string>, i: nat)
    requires i < |paths|
    ensures Names(paths[..i + 1]) == Names(paths[..i]) + {paths[i]}
  {
    assert paths[..i + 1] == paths[..i] + [paths[i]];
  }

  /** Once a location has been cleared its copy is never read again: without its project
      copies an event is read from the legacy places, and without either it is missing. */
  lemma DeletedIsGone(codec: Codec, dir: Directory, project: Int32, eventId: string, u: Uuid)
    requires ParseUuid(eventId) == Some(u)
    ensures var unscoped := dir - Names(EventPathsAt(project, u, Project));
      && ReadEventWithLocation(codec, unscoped, project, eventId) == ReadLegacy(codec, dir, project, eventId, u)
      && ReadEventWithLocation(codec, unscoped - Names(EventPathsAt(project, u, Legacy)), project, eventId)
          == Err(MissingEventFile)
  {
    hide ParseUuid, ProjectPendingName, ProjectEventName, PendingName, EventName, MetadataName, Decoded;
    PlacesDistinct(project, u, project, u);
    ProjectEventIsNotLegacy(project, u);
    var paths := EventPathsAt(project, u, Project);
    assert paths[0] in Names(paths) && paths[1] in Names(paths);
    var legacy := EventPathsAt(project, u, Legacy);
    assert legacy[0] in Names(legacy) && legacy[2] in Names(legacy);
  }

  lemma ProjectEventIsNotLegacy(project: Int32, u: Uuid)
    ensures ProjectEventName(project, u) != PendingName(u) && ProjectEventName(project, u) != EventName(u)
  {
    PendingNames(project, u);
    assert ProjectEventName(project, u)[0] == 'p';
    assert PendingName(u)[0] == EventName(u)[0] == HexDigit(u[0]);
  }
}
