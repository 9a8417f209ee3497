/** Publishing the pending record of one event (apps/server/src/ingest/storage.rs) as a state
    machine: any number of publishers, deleters, the temp-file sweeper and crashes, one system
    call at a time over one directory. */
module Publication {
  import opened Wrappers
  import opened FileNames
  import Records = PendingRecords

  // ----- the directory -----------------------------------------------------------------

  /** The names publishers of this event use: its own, and two hidden ones for each call. */
  datatype Name = Canonical | Temp(call: nat) | Quarantine(call: nat)

  /** An inode: the one that stood under the canonical name at first, or the file a call made. */
  datatype Object = Initial | Of(call: nat)

  /** What an inode holds, and whether that much has reached the disk. */
  datatype Content = Content(bytes: seq<byte>, synced: bool, symlink: bool)

  type Entries = map<Name, Object>

  /** What one call was asked to store, under its own spelling of the event id. */
  datatype Job = Job(eventId: string, metadata: Records.EventMetadata, data: seq<byte>)

  datatype Site = Site(codec: Records.Codec, project: Int32, uuid: Uuid, job: nat -> Job, initial: Option<Content>)
  {
    /** Every call is for this event of this project, as `store_event_with_metadata` demands,
        and what stood there first is on disk. */
    ghost predicate Valid() {
      && codec.Lawful()
      && (forall w :: ForThis(job(w)))
      && (initial.Some? ==> initial.value.synced)
    }

    ghost predicate ForThis(j: Job) {
      ParseUuid(j.eventId) == Some(uuid)
      && Records.StoreTarget(j.eventId, j.metadata) == Ok(ProjectPendingName(project, uuid))
    }

    /** The bytes call `w` means to publish. */
    function Record(w: nat): seq<byte> {
      Records.RecordBytes(codec, job(w).metadata, job(w).data)
    }

    /** The check a publisher makes of what it finds under the canonical name. */
    predicate AcceptedBy(w: nat, bytes: seq<byte>) {
      Records.DecodePendingRecord(codec, bytes, job(w).eventId, Some(project)).Ok?
    }

    /** A version-1 record of this event and project with a decodable payload, in a regular file. */
    predicate Complete(c: Content) {
      !c.symlink && Records.DecodePendingRecord(codec, c.bytes, Simple(uuid), Some(project)).Ok?
    }
  }

  /** The ways `publish_pending_file` succeeds. */
  datatype Exit = ByLink | ByRename | ByDuplicate

  /** Where a call is. Beyond `Writing` its temporary file is complete and synced. */
  datatype Pc =
    | Idle
    | Writing(written: nat)
    | Ready
    | Linked
    | Exists
    | Regular
    | Malformed
    | Quarantined
    | Syncing(exit: Exit)
    | Duplicate
    | Failing
    | Stored(exit: Exit)
    | Failed
    | Dead

  /** `journal` holds the earlier states of the directory that a crash may still bring back,
      oldest first. */
  datatype State = State(names: Entries, contents: map<Object, Content>, journal: seq<Entries>, pcs: map<nat, Pc>)
  {
    function Pc(w: nat): Pc { if w in pcs then pcs[w] else Idle }

    function Move(w: nat, pc: Pc): State { this.(pcs := pcs[w := pc]) }

    function Rebind(entries: Entries): State { this.(names := entries, journal := journal + [names]) }

    ghost predicate OnDisk(d: Entries) { d == names || d in journal }
  }

  function Start(site: Site): State {
    match site.initial
    case None => State(map[], map[], [], map[])
    case Some(c) => State(map[Canonical := Initial], map[Initial := c], [], map[])
  }

  // ----- steps -------------------------------------------------------------------------

  /** One system call of call `w`, which may fail (`ok`), or something beside it. */
  datatype Action =
    | Create(w: nat, ok: bool)
    | Write(w: nat, count: nat)
    | WriteFails(w: nat)
    | SyncFile(w: nat, ok: bool)
    | Link(w: nat, ok: bool)
    | RemoveTemp(w: nat, ok: bool)
    | Inspect(w: nat, ok: bool)
    | Read(w: nat, ok: bool)
    | LinkQuarantine(w: nat, ok: bool)
    | Rename(w: nat, ok: bool)
    | SyncDir(w: nat, ok: bool)
    | Delete
    | Sweep(call: nat)
    | Crash(survivors: Entries, torn: map<Object, seq<byte>>)

  /** After a crash every name is as it was in some state since the last sync of the directory,
      each on its own. */
  ghost predicate Survivors(s: State, entries: Entries) {
    forall n :: Survives(s, entries, n)
  }

  ghost predicate Survives(s: State, entries: Entries, n: Name) {
    exists d :: s.OnDisk(d) && Agree(d, entries, n)
  }

  predicate Agree(d: Entries, e: Entries, n: Name) {
    (n in d <==> n in e) && (n in d && n in e ==> d[n] == e[n])
  }

  function Torn(c: Content, o: Object, torn: map<Object, seq<byte>>): Content {
    if c.synced || o !in torn then c else c.(bytes := torn[o])
  }

  function Interrupted(pc: Pc): Pc {
    match pc
    case Idle | Stored(_) | Failed => pc
    case _ => Dead
  }

  function Crashed(s: State, survivors: Entries, torn: map<Object, seq<byte>>): State {
    State(survivors,
          map o | o in s.contents :: Torn(s.contents[o], o, torn),
          [],
          map w | w in s.pcs :: Interrupted(s.pcs[w]))
  }

  /** The state after an action; one that is not due changes nothing. */
  ghost function Next(site: Site, s: State, a: Action): State {
    if a.Crash? then
      if Survivors(s, a.survivors) then Crashed(s, a.survivors, a.torn) else s
    else Step(site, s, a)
  }

  function Step(site: Site, s: State, a: Action): State
    requires !a.Crash?
  {
    match a
    case Create(w, ok) => AfterCreate(s, w, ok)
    case Write(w, count) => AfterWrite(site, s, w, count)
    case WriteFails(w) => if s.Pc(w).Writing? then s.Move(w, Failing) else s
    case SyncFile(w, ok) => AfterSyncFile(site, s, w, ok)
    case Link(w, ok) => AfterLink(s, w, ok)
    case RemoveTemp(w, ok) => AfterRemoveTemp(s, w, ok)
    case Inspect(w, ok) => AfterInspect(s, w, ok)
    case Read(w, ok) => AfterRead(site, s, w, ok)
    case LinkQuarantine(w, ok) => AfterLinkQuarantine(s, w, ok)
    case Rename(w, ok) => AfterRename(s, w, ok)
    case SyncDir(w, ok) => AfterSyncDir(s, w, ok)
    case Delete => if Canonical in s.names then s.Rebind(s.names - {Canonical}) else s
    case Sweep(w) => if Temp(w) in s.names then s.Rebind(s.names - {Temp(w)}) else s
  }

  function AfterCreate(s: State, w: nat, ok: bool): State {
    if s.Pc(w) != Idle then s
    else if !ok || Temp(w) in s.names then s.Move(w, Failing)
    else
      var bound := s.Rebind(s.names[Temp(w) := Of(w)]);
      bound.(contents := s.contents[Of(w) := Content([], false, false)]).Move(w, Writing(0))
  }

  /** The next `count` bytes of the record. */
  function AfterWrite(site: Site, s: State, w: nat, count: nat): State {
    if !s.Pc(w).Writing? || s.Pc(w).written + count > |site.Record(w)| then s
    else
      var written := s.Pc(w).written + count;
      s.(contents := s.contents[Of(w) := Content(site.Record(w)[..written], false, false)]).Move(w, Writing(written))
  }

  function AfterSyncFile(site: Site, s: State, w: nat, ok: bool): State {
    if s.Pc(w) != Writing(|site.Record(w)|) then s
    else if !ok then s.Move(w, Failing)
    else s.(contents := s.contents[Of(w) := Content(site.Record(w), true, false)]).Move(w, Ready)
  }

  function AfterLink(s: State, w: nat, ok: bool): State {
    if s.Pc(w) != Ready then s
    else if !ok || Temp(w) !in s.names then s.Move(w, Failing)
    else if Canonical in s.names then s.Move(w, Exists)
    else s.Rebind(s.names[Canonical := s.names[Temp(w)]]).Move(w, Linked)
  }

  /** Removing the temporary file; that it fails is ignored. */
  function AfterRemoveTemp(s: State, w: nat, ok: bool): State {
    var removed := if ok && Temp(w) in s.names then s.Rebind(s.names - {Temp(w)}) else s;
    match s.Pc(w)
    case Linked => removed.Move(w, Syncing(ByLink))
    case Duplicate => removed.Move(w, Stored(ByDuplicate))
    case Failing => removed.Move(w, Failed)
    case _ => s
  }

  function AfterInspect(s: State, w: nat, ok: bool): State {
    if s.Pc(w) != Exists then s
    else if !ok || Canonical !in s.names || s.names[Canonical] !in s.contents then s.Move(w, Failing)
    else s.Move(w, if s.contents[s.names[Canonical]].symlink then Malformed else Regular)
  }

  function AfterRead(site: Site, s: State, w: nat, ok: bool): State {
    if s.Pc(w) != Regular then s
    else if !ok || Canonical !in s.names || s.names[Canonical] !in s.contents then s.Move(w, Failing)
    else s.Move(w, if site.AcceptedBy(w, s.contents[s.names[Canonical]].bytes) then Duplicate else Malformed)
  }

  function AfterLinkQuarantine(s: State, w: nat, ok: bool): State {
    if s.Pc(w) != Malformed then s
    else if !ok || Canonical !in s.names || Quarantine(w) in s.names then s.Move(w, Failing)
    else s.Rebind(s.names[Quarantine(w) := s.names[Canonical]]).Move(w, Quarantined)
  }

  function AfterRename(s: State, w: nat, ok: bool): State {
    if s.Pc(w) != Quarantined then s
    else if !ok || Temp(w) !in s.names then s.Move(w, Failing)
    else s.Rebind((s.names - {Temp(w)})[Canonical := s.names[Temp(w)]]).Move(w, Syncing(ByRename))
  }

  function AfterSyncDir(s: State, w: nat, ok: bool): State {
    if !s.Pc(w).Syncing? then s
    else if !ok then s.Move(w, Failed)
    else s.(journal := []).Move(w, Stored(s.Pc(w).exit))
  }

  ghost function Run(site: Site, s: State, actions: seq<Action>): State
    decreases |actions|
  {
    if actions == [] then s else Run(site, Next(site, s, actions[0]), actions[1..])
  }

  lemma {:induction false} RunConcat(site: Site, s: State, a: seq<Action>, b: seq<Action>)
    ensures Run(site, s, a + b) == Run(site, Run(site, s, a), b)
    decreases |a|
  {
    hide Next;
    if a == [] {
      assert a + b == b;
    } else {
      assert (a + b)[0] == a[0] && (a + b)[1..] == a[1..] + b;
      RunConcat(site, Next(site, s, a[0]), a[1..], b);
    }
  }

  /** A system call of call `w`. */
  predicate By(a: Action, w: nat) {
    !a.Delete? && !a.Sweep? && !a.Crash? && a.w == w
  }

  predicate Writes(a: Action) {
    a.Create? || a.Write? || a.WriteFails? || a.SyncFile?
  }

  predicate SameCall(s: State, t: State, w: nat) {
    && t.Pc(w) == s.Pc(w)
    && (Of(w) in t.contents <==> Of(w) in s.contents)
    && (Of(w) in s.contents && Of(w) in t.contents ==> t.contents[Of(w)] == s.contents[Of(w)])
  }

  lemma OthersDoNotWrite(site: Site, s: State, a: Action, w: nat)
    requires !By(a, w) && Writes(a)
    ensures SameCall(s, Next(site, s, a), w)
  {
    hide Site.Record;
  }

  /** A call is moved on, and its file written, by its own actions only, crashes apart. */
  lemma OthersDoNotMove(site: Site, s: State, a: Action, w: nat)
    requires !By(a, w) && !a.Crash?
    ensures SameCall(s, Next(site, s, a), w)
  {
    hide Site.Record, Site.AcceptedBy, AfterCreate, AfterWrite, AfterSyncFile;
    if Writes(a) { OthersDoNotWrite(site, s, a, w); }
  }

  /** Anything but deleting the record or crashing; the temp-file sweeper may run. */
  predicate Undisturbed(a: Action) { !a.Delete? && !a.Crash? }

  predicate AllUndisturbed(actions: seq<Action>) {
    forall k | 0 <= k < |actions| :: Undisturbed(actions[k])
  }

  predicate NothingDeleted(actions: seq<Action>) {
    forall k | 0 <= k < |actions| :: !actions[k].Delete?
  }

  lemma NothingDeletedTail(actions: seq<Action>)
    requires NothingDeleted(actions) && actions != []
    ensures NothingDeleted(actions[1..])
  {
    forall k | 0 <= k < |actions[1..]| ensures !actions[1..][k].Delete? { assert actions[1..][k] == actions[k + 1]; }
  }

  // ----- complete records --------------------------------------------------------------

  /** Every publisher accepts the same records, however it spells the event id. */
  lemma SpellingIrrelevant(site: Site, w: nat, c: Content)
    requires site.Valid()
    ensures site.Complete(c) <==> !c.symlink && site.AcceptedBy(w, c.bytes)
  {
    hide ParseUuid, Simple, Records.StoreTarget;
    ParseUuidUndoesPrinting(site.uuid);
    assert site.ForThis(site.job(w));
  }

  lemma WrittenIsComplete(site: Site, w: nat)
    requires site.Valid()
    ensures site.Complete(Content(site.Record(w), true, false))
    ensures site.job(w).metadata.projectId == site.project
    ensures Records.DecodePendingRecord(site.codec, site.Record(w), Simple(site.uuid), Some(site.project))
        == Ok(site.job(w).data)
  {
    hide ParseUuid, Simple, Records.RecordBytes, Records.DecodePendingRecord, ProjectPendingName;
    ParseUuidUndoesPrinting(site.uuid);
    var j := site.job(w);
    assert site.ForThis(j);
    ProjectNamesInjective(j.metadata.projectId, site.uuid, site.project, site.uuid);
    Records.WrittenRecordDecodes(site.codec, j.metadata, j.data, Simple(site.uuid), Some(site.project));
  }
}
