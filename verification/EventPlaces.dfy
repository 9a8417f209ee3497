/** What stands for an event in the ingest directory, and what that makes of reading, deleting and
    recovering it (apps/server/src/ingest/storage.rs). */
module EventPlaces {
  import opened Wrappers
  import opened FileNames
  import opened PendingRecords
  import Base64
  import Recovery

  // ----- the record as JSON ------------------------------------------------------------

  function Quoted(text: seq<byte>): seq<byte> { [34] + text + [34] }

  /** A JSON object without spaces, its members in order. */
  function Object(members: seq<(seq<byte>, seq<byte>)>): seq<byte> { [123] + Members(members) + [125] }

  function Members(members: seq<(seq<byte>, seq<byte>)>): seq<byte> {
    if members == [] then []
    else
      var member := Quoted(members[0].0) + [58] + members[0].1;
      if |members| == 1 then member else member + [44] + Members(members[1..])
  }

  const VERSION: seq<byte> := Ascii("version")
  const METADATA: seq<byte> := Ascii("metadata")
  const DATA: seq<byte> := Ascii("event_data")

  lemma ThreeMembers(a: (seq<byte>, seq<byte>), b: (seq<byte>, seq<byte>), c: (seq<byte>, seq<byte>))
    ensures Members([a, b, c]) == Quoted(a.0) + [58] + a.1 + [44]
      + (Quoted(b.0) + [58] + b.1 + [44] + (Quoted(c.0) + [58] + c.1))
  {
    hide Quoted;
    assert [a, b, c][1..] == [b, c] && [b, c][1..] == [c];
    assert Members([b, c]) == Quoted(b.0) + [58] + b.1 + [44] + Members([c]);
  }

  lemma Constants()
    ensures OPENING == [123] + (Quoted(VERSION) + [58] + [49] + [44]) + (Quoted(METADATA) + [58])
    ensures EVENT_DATA == [44] + (Quoted(DATA) + [58]) + [34]
    ensures CLOSING == [34, 125]
  {
  }

  lemma Assembled(v: seq<byte>, m: seq<byte>, d: seq<byte>, metadata: seq<byte>, text: seq<byte>)
    ensures ([123] + (v + [58] + [49] + [44]) + (m + [58])) + metadata + ([44] + (d + [58]) + [34]) + text + [34, 125]
         == [123] + (v + [58] + [49] + [44] + (m + [58] + metadata + [44] + (d + [58] + ([34] + text + [34])))) + [125]
  {
  }

  /** The record file is the object of its version, its metadata and its text. */
  lemma LayoutIsObject(metadata: seq<byte>, text: seq<byte>)
    ensures Layout(metadata, text) == Object([(VERSION, [49]), (METADATA, metadata), (DATA, Quoted(text))])
  {
    hide Members, Ascii, Quoted;
    ThreeMembers((VERSION, [49]), (METADATA, metadata), (DATA, Quoted(text)));
    Constants();
    Assembled(Quoted(VERSION), Quoted(METADATA), Quoted(DATA), metadata, text);
    assert Quoted(text) == [34] + text + [34] by { QuotedIs(text); }
  }

  lemma QuotedIs(text: seq<byte>)
    ensures Quoted(text) == [34] + text + [34]
  {
  }

  // ----- reading -----------------------------------------------------------------------

  /** A readable file with a version-1 record of this event and project that carries `data`. */
  ghost predicate Carries(codec: Codec, file: File, u: Uuid, project: Int32, data: seq<byte>) {
    match file
    case Unreadable => false
    case Readable(bytes) =>
      exists m ::
        && codec.readRecord(bytes) == Some(PendingRecord(1, m, Base64.Encode(data)))
        && ParseUuid(m.eventId) == Some(u) && m.projectId == project
  }

  lemma DecodesExactly(codec: Codec, file: File, project: Int32, eventId: string, u: Uuid, location: Location,
                       data: seq<byte>)
    requires ParseUuid(eventId) == Some(u)
    ensures Decoded(codec, file, project, eventId, location) == Ok((data, location))
       <==> Carries(codec, file, u, project, data)
    ensures var r := Decoded(codec, file, project, eventId, location);
      r == Err(Internal) || (r.Ok? && r.value.1 == location)
  {
    hide ParseUuid, Base64.Decode, Base64.Encode;
    if file.Readable? && codec.readRecord(file.bytes).Some? {
      var record := codec.readRecord(file.bytes).value;
      Base64.DecodesExactlyEncodings(record.eventData, data);
      assert record == PendingRecord(record.version, record.metadata, record.eventData);
    }
  }

  /** The places of an event, the first that is there being the one that is read. */
  function Places(project: Int32, u: Uuid): seq<string> {
    [ProjectPendingName(project, u), ProjectEventName(project, u), PendingName(u), EventName(u)]
  }

  /** The event is read from its place `k`, the earlier ones not being there. */
  predicate First(dir: Directory, project: Int32, u: Uuid, k: nat)
    requires k < 4
  {
    Places(project, u)[k] in dir && forall j | 0 <= j < k :: Places(project, u)[j] !in dir
  }

  function LocationOf(k: nat): Location { if k < 2 then Project else Legacy }

  /** What is read: the payload of a record of the event, or a whole file, at the first place. */
  ghost predicate Gives(codec: Codec, dir: Directory, project: Int32, u: Uuid, k: nat, data: seq<byte>)
    requires k < 4 && Places(project, u)[k] in dir
  {
    var file := dir[Places(project, u)[k]];
    if k == 0 || k == 2 then Carries(codec, file, u, project, data) else file == Readable(data)
  }

  /** An event is read from the first of its places that is there, and that must be in order; it is
      missing when none is there. */
  lemma ReadsFirstPlace(codec: Codec, dir: Directory, project: Int32, eventId: string, u: Uuid, k: nat,
                        data: seq<byte>, location: Location)
    requires ParseUuid(eventId) == Some(u) && k < 4 && First(dir, project, u, k)
    ensures ReadEventWithLocation(codec, dir, project, eventId) == Ok((data, location))
       <==> Gives(codec, dir, project, u, k, data) && location == LocationOf(k)
    ensures var r := ReadEventWithLocation(codec, dir, project, eventId); r.Ok? || r == Err(Internal)
  {
    hide ParseUuid, ProjectPendingName, ProjectEventName, PendingName, EventName, Decoded, Carries;
    var places := Places(project, u);
    assert k > 0 ==> places[0] !in dir;
    assert k > 1 ==> places[1] !in dir;
    assert k > 2 ==> places[2] !in dir;
    DecodesExactly(codec, dir[places[k]], project, eventId, u, LocationOf(k), data);
  }

  lemma MissingExactly(codec: Codec, dir: Directory, project: Int32, eventId: string)
    ensures ReadEventWithLocation(codec, dir, project, eventId) == Err(Validation) <==> ParseUuid(eventId) == None
    ensures ReadEventWithLocation(codec, dir, project, eventId) == Err(MissingEventFile)
       <==> ParseUuid(eventId).Some? && forall name <- Places(project, ParseUuid(eventId).value) :: name !in dir
  {
    hide ParseUuid, ProjectPendingName, ProjectEventName, PendingName, EventName, Decoded;
    if ParseUuid(eventId).Some? {
      var u := ParseUuid(eventId).value;
      var places := Places(project, u);
      assert places[0] in places && places[1] in places && places[2] in places && places[3] in places;
      if places[0] in dir { DecodedErrs(codec, dir[places[0]], project, eventId, Project); }
      if places[2] in dir { DecodedErrs(codec, dir[places[2]], project, eventId, Legacy); }
    }
  }

  lemma DecodedErrs(codec: Codec, file: File, project: Int32, eventId: string, location: Location)
    ensures var r := Decoded(codec, file, project, eventId, location); r.Ok? || r == Err(Internal)
  {
    hide ParseUuid, Base64.Decode;
  }

  /** An event is stored under its own project's name exactly when its metadata is for it. */
  lemma StoredUnderOwnName(eventId: string, m: EventMetadata, name: string)
    ensures StoreTarget(eventId, m) == Ok(name)
       <==> exists u :: ParseUuid(eventId) == Some(u) && ParseUuid(m.eventId) == Some(u)
              && name == ProjectPendingName(m.projectId, u)
    ensures StoreTarget(eventId, m).Err? ==> StoreTarget(eventId, m).error == Validation
  {
    hide ParseUuid, ProjectPendingName;
  }

  // ----- deleting ----------------------------------------------------------------------

  /** Deleting a copy takes away every name it may have there and nothing else. */
  lemma DeletesExactly(project: Int32, u: Uuid, name: string)
    ensures name in Names(EventPathsAt(project, u, Project))
       <==> name == ProjectPendingName(project, u) || name == ProjectEventName(project, u)
    ensures name in Names(EventPathsAt(project, u, Legacy))
       <==> name == Simple(u) + ".json" || name == Simple(u) + ".meta.json" || name == Simple(u) + ".pending.json"
  {
    hide Simple, ProjectPendingName, ProjectEventName, MetadataName, PendingName;
    PendingNames(project, u);
  }

  // ----- recovering --------------------------------------------------------------------

  ghost predicate HoldsRecord(codec: Codec, bytes: seq<byte>, m: EventMetadata) {
    exists text :: codec.readRecord(bytes) == Some(PendingRecord(1, m, text))
  }

  lemma RecordHeld(codec: Codec, bytes: seq<byte>, m: EventMetadata)
    ensures HoldsRecord(codec, bytes, m)
       <==> var r := codec.readRecord(bytes); r.Some? && r.value.version == 1 && r.value.metadata == m
  {
    var r := codec.readRecord(bytes);
    if r.Some? { assert r.value == PendingRecord(r.value.version, r.value.metadata, r.value.eventData); }
  }

  /** Under a project's name recovery is offered a record of that project and event, unless
      somebody owns the event. */
  lemma ProjectRecordOffers(codec: Codec, owned: Recovery.Key -> bool, project: Int32, u: Uuid, bytes: seq<byte>,
                            m: EventMetadata)
    ensures Recovery.Candidate(codec, owned, Recovery.Entry(Some(ProjectPendingName(project, u)), Readable(bytes)))
              == Some(m)
       <==> !owned((project, u)) && HoldsRecord(codec, bytes, m)
            && m.projectId == project && ParseUuid(m.eventId) == Some(u)
  {
    hide ParseUuid, ProjectPendingName, PendingNameMatches, ParseProjectPendingName, IsPendingRecord, IsLegacyMetadata,
        HoldsRecord;
    ParsingUndoesNaming(project, u);
    RecordHeld(codec, bytes, m);
    if ParseUuid(m.eventId).Some? { OnlyOwnName(project, u, m.projectId, ParseUuid(m.eventId).value); }
  }

  lemma OnlyOwnName(project: Int32, u: Uuid, p: Int32, v: Uuid)
    ensures PendingNameMatches(ProjectPendingName(project, u), p, v) <==> p == project && v == u
  {
    hide ParseProjectPendingName, ProjectPendingName;
    ParsingUndoesNaming(project, u);
  }

  /** Under an event's legacy name, a record of that event for any project. */
  lemma LegacyRecordOffers(codec: Codec, owned: Recovery.Key -> bool, u: Uuid, bytes: seq<byte>, m: EventMetadata)
    ensures Recovery.Candidate(codec, owned, Recovery.Entry(Some(PendingName(u)), Readable(bytes))) == Some(m)
       <==> HoldsRecord(codec, bytes, m) && ParseUuid(m.eventId) == Some(u)
  {
    hide ParseUuid, PendingName, PendingNameMatches, ParseProjectPendingName, IsPendingRecord, IsLegacyMetadata,
        HoldsRecord;
    PendingEnds(u);
    RecordHeld(codec, bytes, m);
    LegacyNameMatches(u, m.projectId, u);
    if ParseUuid(m.eventId).Some? { LegacyNameMatches(u, m.projectId, ParseUuid(m.eventId).value); }
  }

  lemma PendingEnds(u: Uuid)
    ensures IsPendingRecord(PendingName(u)) && IsLegacyMetadata(MetadataName(u)) && !IsPendingRecord(MetadataName(u))
  {
    hide Simple, EndsWith;
    PendingNames(0, u);
    SuffixEnds(Simple(u), ".pending.json");
    SuffixEnds(Simple(u), ".meta.json");
    NotBoth(Simple(u));
  }

  lemma NotBoth(s: string)
    ensures !EndsWith(s + ".meta.json", ".pending.json")
  {
    var name := s + ".meta.json";
    assert name[|name| - 6] == 'a';
  }

  /** A legacy metadata file offers what it says, whatever it is called and whoever owns the event. */
  lemma LegacyMetadataOffers(codec: Codec, owned: Recovery.Key -> bool, u: Uuid, bytes: seq<byte>, m: EventMetadata)
    ensures Recovery.Candidate(codec, owned, Recovery.Entry(Some(MetadataName(u)), Readable(bytes))) == Some(m)
       <==> codec.readMetadata(bytes) == Some(m) && ParseUuid(m.eventId).Some?
  {
    hide ParseUuid, MetadataName, IsPendingRecord, IsLegacyMetadata;
    PendingEnds(u);
  }

  /** Nothing else offers anything. */
  lemma NothingElseOffers(codec: Codec, owned: Recovery.Key -> bool, entry: Recovery.Entry)
    requires entry.name.None? || entry.file.Unreadable?
      || (!EndsWith(entry.name.value, ".pending.json") && !EndsWith(entry.name.value, ".meta.json"))
    ensures Recovery.Candidate(codec, owned, entry) == None
  {
    hide ParseUuid, ParseProjectPendingName, EndsWith;
  }
}
