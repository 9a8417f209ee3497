/** The publishing call itself (apps/server/src/ingest/storage.rs): which system calls it makes
    and what it does with each answer. Any other actor may run between two of them. */
module Publisher {
  import opened Wrappers
  import opened Publication
  import opened PublicationWhole
  import PublicationDurable
  import PublicationProgress
  import PublicationCleanup
  import Records = PendingRecords
  import Base64
  import opened Base64Chunks

  datatype LinkAnswer = LinkDone | AlreadyExists | LinkError

  lemma RunThenStep(site: Site, s: State, actions: seq<Action>, a: Action)
    requires !a.Crash?
    ensures Run(site, s, actions + [a]) == Step(site, Run(site, s, actions), a)
  {
    hide Step;
    RunConcat(site, s, actions, [a]);
    assert Run(site, Next(site, Run(site, s, actions), a), []) == Next(site, Run(site, s, actions), a);
  }

  // ----- the record's bytes ------------------------------------------------------------

  /** What is left to write once the metadata and the payload up to `offset` are written. */
  function RecordTail(data: seq<byte>, offset: nat): seq<byte>
    requires offset <= |data|
  {
    Base64.Encode(data[offset..]) + Records.CLOSING
  }

  lemma RecordParts(site: Site, w: nat)
    ensures var j := site.job(w);
      site.Record(w)[0..]
        == Records.OPENING + (site.codec.printMetadata(j.metadata) + (Records.EVENT_DATA + RecordTail(j.data, 0)))
  {
    hide Base64.Encode;
    var j := site.job(w);
    var m := site.codec.printMetadata(j.metadata);
    assert j.data[0..] == j.data;
    Regroup(Records.OPENING + m + Records.EVENT_DATA, Base64.Encode(j.data), Records.CLOSING);
    Regroup(Records.OPENING + m, Records.EVENT_DATA, RecordTail(j.data, 0));
    Regroup(Records.OPENING, m, Records.EVENT_DATA + RecordTail(j.data, 0));
  }

  lemma NextChunk(data: seq<byte>, offset: nat)
    requires Boundary(offset, |data|) && offset < |data|
    ensures var end := RangesFrom(offset, |data|)[0].1;
      && offset < end <= |data|
      && RecordTail(data, offset) == Base64.Encode(data[offset..end]) + RecordTail(data, end)
  {
    hide Base64.Encode, RangesFrom;
    RangesCons(offset, |data|);
    var end := RangesFrom(offset, |data|)[0].1;
    assert data[offset..] == data[offset..end] + data[end..];
    if end < |data| {
      Base64.EncodeSplits(data[offset..end], data[end..]);
    } else {
      EncodeNothing();
      assert data[end..] == [] && data[offset..end] == data[offset..];
      assert Base64.Encode(data[offset..]) + [] == Base64.Encode(data[offset..]);
    }
    Regroup(Base64.Encode(data[offset..end]), Base64.Encode(data[end..]), Records.CLOSING);
  }

  lemma LastPiece(data: seq<byte>)
    ensures RecordTail(data, |data|) == Records.CLOSING + []
  {
    EncodeNothing();
    assert data[|data|..] == [];
    assert [] + Records.CLOSING == Records.CLOSING + [];
  }

  /** What the success of a call that started at `earlier` means at `past`, whatever happened
      before it started. */
  lemma StoredSince(site: Site, earlier: seq<Action>, past: seq<Action>, w: nat)
    requires site.Valid() && earlier <= past
    requires Run(site, Start(site), earlier).Pc(w) == Idle && Run(site, Start(site), past).Pc(w).Stored?
    ensures var fs := Run(site, Start(site), past);
      && (AllUndisturbed(past[|earlier|..]) ==> Standing(fs).Some? && site.Complete(Standing(fs).value))
      && (fs.Pc(w).exit != ByDuplicate && NothingDeleted(past[|earlier|..]) ==> PublicationDurable.Durable(site, fs))
  {
    hide Run, Site.Valid, Site.Complete, Standing, PublicationDurable.Durable, AllUndisturbed, NothingDeleted;
    var during := past[|earlier|..];
    assert earlier + during == past;
    RunConcat(site, Start(site), earlier, during);
    if AllUndisturbed(during) { PublicationDurable.StoredMeansComplete(site, earlier, during, w); }
    if Run(site, Start(site), past).Pc(w).exit != ByDuplicate && NothingDeleted(during) {
      NothingMore(site, Run(site, Start(site), past));
      PublicationDurable.StoredSurvivesCrashes(site, earlier, during, [], w);
    }
  }

  /** A call that failed was stopped by something. */
  lemma FailedSince(site: Site, earlier: seq<Action>, past: seq<Action>, w: nat)
    requires site.Valid() && earlier <= past
    requires Run(site, Start(site), earlier).Pc(w) == Idle && Run(site, Start(site), past).Pc(w) == Failed
    ensures var s := Run(site, Start(site), earlier);
      Temp(w) in s.names || Quarantine(w) in s.names || !PublicationProgress.AllKind(past[|earlier|..], w)
  {
    hide Run, Site.Valid, PublicationProgress.AllKind;
    var during := past[|earlier|..];
    var s := Run(site, Start(site), earlier);
    assert earlier + during == past;
    RunConcat(site, Start(site), earlier, during);
    if Temp(w) !in s.names && Quarantine(w) !in s.names && PublicationProgress.AllKind(during, w) {
      PublicationProgress.CallSucceeds(site, earlier, during, w);
    }
  }

  /** A call that returned cleared up, unless a removal of its own failed. */
  lemma ClearedSince(site: Site, earlier: seq<Action>, past: seq<Action>, w: nat)
    requires earlier <= past
    requires Run(site, Start(site), earlier).Pc(w) == Idle && Temp(w) !in Run(site, Start(site), earlier).names
    requires var pc := Run(site, Start(site), past).Pc(w); pc.Stored? || pc.Failed?
    requires PublicationCleanup.AllTidy(past[|earlier|..], w)
    ensures Temp(w) !in Run(site, Start(site), past).names
  {
    hide Run, PublicationCleanup.AllTidy;
    var during := past[|earlier|..];
    assert earlier + during == past;
    RunConcat(site, Start(site), earlier, during);
    PublicationCleanup.NothingLeftBehind(site, earlier, during, w);
  }

  lemma NothingMore(site: Site, s: State)
    ensures Run(site, s, []) == s && NothingDeleted([])
  {
  }

  /** The ingest directory as one event's publishers share it. `past` is all that has happened. */
  class IngestDirectory {
    const site: Site
    var fs: State
    ghost var past: seq<Action>

    ghost predicate Valid()
      reads this
    {
      site.Valid() && fs == Run(site, Start(site), past)
    }

    constructor (site: Site)
      requires site.Valid()
      ensures Valid() && this.site == site && past == []
    {
      this.site := site;
      fs := Start(site);
      past := [];
    }

    /** The hidden names of call `w` are not taken. */
    predicate Fresh(w: nat)
      reads this
    {
      Temp(w) !in fs.names && Quarantine(w) !in fs.names
    }

    /** What the temporary file of call `w` holds at the moment. */
    ghost predicate FileHolds(w: nat, c: Content)
      reads this
    {
      Of(w) in fs.contents && fs.contents[Of(w)] == c
    }

    ghost predicate SameFile(a: Name, b: Name)
      reads this
    {
      a in fs.names && b in fs.names && fs.names[a] == fs.names[b]
    }

    method Act(a: Action)
      requires Valid() && !a.Crash?
      modifies this
      ensures Valid() && past == old(past) + [a]
      ensures fs == Step(site, old(fs), a)
    {
      hide Step, Run, Site.Valid;
      RunThenStep(site, Start(site), past, a);
      fs := Step(site, fs, a);
      past := past + [a];
    }

    /** Whatever other publishers, deleters and the sweeper do in between. */
    method Others(w: nat)
      requires Valid()
      modifies this
      ensures old(past) <= past
      ensures Valid() && fs.Pc(w) == old(fs).Pc(w)
    {
      hide Step, Run, Next, Site.Valid;
      var others: seq<Action> := *;
      for k := 0 to |others|
        invariant Valid() && fs.Pc(w) == old(fs).Pc(w) && old(past) <= past
      {
        if !By(others[k], w) && !others[k].Crash? {
          OthersDoNotMove(site, fs, others[k], w);
          NextIsStep(site, fs, others[k]);
          Act(others[k]);
        }
      }
    }

    // ----- system calls ----------------------------------------------------------------

    method CreateTemporary(w: nat) returns (ok: bool)
      requires Valid() && fs.Pc(w) == Idle
      modifies this
      ensures old(past) <= past
      ensures Valid() && fs.Pc(w) == if ok then Writing(0) else Failing
    {
      hide Run, Site.Valid;
      Others(w);
      var fault: bool := *;
      Act(Create(w, !fault));
      ok := fs.Pc(w).Writing?;
    }

    /** Writing all of `bytes`, or some of them before an error. */
    method WriteAll(w: nat, bytes: seq<byte>, ghost rest: seq<byte>) returns (ok: bool)
      requires Valid() && fs.Pc(w).Writing? && fs.Pc(w).written <= |site.Record(w)|
      requires site.Record(w)[fs.Pc(w).written..] == bytes + rest
      modifies this
      ensures old(past) <= past
      ensures Valid()
      ensures ok ==> fs.Pc(w).Writing? && fs.Pc(w).written == old(fs).Pc(w).written + |bytes| <= |site.Record(w)|
      ensures ok ==> site.Record(w)[fs.Pc(w).written..] == rest
      ensures ok ==> FileHolds(w, Content(site.Record(w)[..fs.Pc(w).written], false, false))
      ensures !ok ==> fs.Pc(w) == Failing
    {
      hide Run, Site.Valid, Site.Record;
      ghost var from := fs.Pc(w).written;
      Suffix(site.Record(w), from, bytes, rest);
      Others(w);
      var accepted: nat := *;
      if accepted < |bytes| {
        Act(Write(w, accepted));
        Others(w);
        Act(WriteFails(w));
        ok := false;
      } else {
        Act(Write(w, |bytes|));
        ok := true;
      }
    }

    method SyncTemporary(w: nat) returns (ok: bool)
      requires Valid() && fs.Pc(w) == Writing(|site.Record(w)|)
      modifies this
      ensures old(past) <= past
      ensures Valid() && fs.Pc(w) == if ok then Ready else Failing
      ensures ok ==> FileHolds(w, Content(site.Record(w), true, false))
    {
      hide Run, Site.Valid, Site.Record;
      Others(w);
      var fault: bool := *;
      Act(SyncFile(w, !fault));
      ok := fs.Pc(w).Ready?;
    }

    method HardLink(w: nat) returns (answer: LinkAnswer)
      requires Valid() && fs.Pc(w) == Ready
      modifies this
      ensures old(past) <= past
      ensures Valid()
      ensures fs.Pc(w) == match answer case LinkDone => Linked case AlreadyExists => Exists case LinkError => Failing
      ensures answer.LinkDone? ==> SameFile(Canonical, Temp(w))
      ensures answer.AlreadyExists? ==> Canonical in fs.names
    {
      hide Run, Site.Valid;
      Others(w);
      var fault: bool := *;
      Act(Link(w, !fault));
      answer := match fs.Pc(w) case Linked => LinkDone case Exists => AlreadyExists case _ => LinkError;
    }

    /** Whatever comes of it, the call goes on; `removed` says whether the file is gone. */
    method RemoveTemporary(w: nat) returns (removed: bool)
      requires Valid() && (fs.Pc(w).Linked? || fs.Pc(w).Duplicate? || fs.Pc(w).Failing?)
      modifies this
      ensures old(past) <= past
      ensures Valid()
      ensures fs.Pc(w) == match old(fs).Pc(w)
        case Linked => Syncing(ByLink)
        case Duplicate => Stored(ByDuplicate)
        case _ => Failed
      ensures removed ==> Temp(w) !in fs.names
      ensures past != [] && past[|past| - 1] == RemoveTemp(w, removed)
    {
      hide Run, Site.Valid;
      Others(w);
      var fault: bool := *;
      Act(RemoveTemp(w, !fault));
      removed := !fault;
    }

    /** Whether the canonical name is a symbolic link, unless that cannot be found out. */
    method SymlinkMetadata(w: nat) returns (isSymlink: Option<bool>)
      requires Valid() && fs.Pc(w) == Exists
      modifies this
      ensures old(past) <= past
      ensures Valid()
      ensures fs.Pc(w) == match isSymlink case None => Failing case Some(link) => if link then Malformed else Regular
      ensures isSymlink.Some? ==> Standing(fs).Some? && isSymlink.value == Standing(fs).value.symlink
    {
      hide Run, Site.Valid;
      Others(w);
      var fault: bool := *;
      Act(Inspect(w, !fault));
      isSymlink := match fs.Pc(w) case Malformed => Some(true) case Regular => Some(false) case _ => None;
    }

    /** The bytes under the canonical name, unless they cannot be read. */
    method ReadCanonical(w: nat) returns (bytes: Option<seq<byte>>)
      requires Valid() && fs.Pc(w) == Regular
      modifies this
      ensures old(past) <= past
      ensures Valid()
      ensures fs.Pc(w) == match bytes
        case None => Failing
        case Some(b) => if site.AcceptedBy(w, b) then Duplicate else Malformed
      ensures bytes.Some? ==> Standing(fs).Some? && bytes.value == Standing(fs).value.bytes
    {
      hide Run, Site.Valid, Site.AcceptedBy;
      Others(w);
      var fault: bool := *;
      var standing := Standing(fs);
      Act(Read(w, !fault));
      bytes := match fs.Pc(w) case Duplicate | Malformed => Some(standing.value.bytes) case _ => None;
    }

    method LinkToQuarantine(w: nat) returns (ok: bool)
      requires Valid() && fs.Pc(w) == Malformed
      modifies this
      ensures old(past) <= past
      ensures Valid() && fs.Pc(w) == if ok then Quarantined else Failing
      ensures ok ==> SameFile(Canonical, Quarantine(w))
    {
      hide Run, Site.Valid;
      Others(w);
      var fault: bool := *;
      Act(LinkQuarantine(w, !fault));
      ok := fs.Pc(w).Quarantined?;
    }

    method RenameTemporary(w: nat) returns (ok: bool)
      requires Valid() && fs.Pc(w) == Quarantined
      modifies this
      ensures old(past) <= past
      ensures Valid() && fs.Pc(w) == if ok then Syncing(ByRename) else Failing
      ensures ok ==> Canonical in fs.names && Temp(w) !in fs.names
    {
      hide Run, Site.Valid;
      Others(w);
      var fault: bool := *;
      Act(Rename(w, !fault));
      ok := fs.Pc(w).Syncing?;
    }

    method SyncParentDirectory(w: nat) returns (ok: bool)
      requires Valid() && fs.Pc(w).Syncing?
      modifies this
      ensures old(past) <= past
      ensures Valid() && fs.Pc(w) == if ok then Stored(old(fs).Pc(w).exit) else Failed
      ensures ok ==> fs.journal == []
    {
      hide Run, Site.Valid;
      Others(w);
      var fault: bool := *;
      Act(SyncDir(w, !fault));
      ok := fs.Pc(w).Stored?;
    }

    // ----- the call --------------------------------------------------------------------

    /** Writes the record in pieces, the payload chunk by chunk, and syncs it. */
    method WritePendingRecord(w: nat) returns (ok: bool)
      requires Valid() && fs.Pc(w) == Writing(0)
      modifies this
      ensures old(past) <= past
      ensures Valid() && fs.Pc(w) == if ok then Ready else Failing
      ensures ok ==> FileHolds(w, Content(site.Record(w), true, false))
    {
      hide Run, Site.Valid, Site.Record, RangesFrom, RecordTail, FileHolds, Base64.Encode;
      var metadata := site.codec.printMetadata(site.job(w).metadata);
      var payload := site.job(w).data;
      RecordParts(site, w);
      ok := WriteAll(w, Records.OPENING, metadata + (Records.EVENT_DATA + RecordTail(payload, 0)));
      if !ok { return; }
      ok := WriteAll(w, metadata, Records.EVENT_DATA + RecordTail(payload, 0));
      if !ok { return; }
      ok := WriteAll(w, Records.EVENT_DATA, RecordTail(payload, 0));
      if !ok { return; }
      var ranges := new ChunkRanges(|payload|);
      var range := ranges.Next();
      ghost var done: nat := 0;
      while range.Some?
        invariant Valid() && old(past) <= past && ranges.Valid() && ranges.dataLength == |payload|
        invariant fs.Pc(w).Writing? && fs.Pc(w).written <= |site.Record(w)|
        invariant Boundary(done, |payload|) && site.Record(w)[fs.Pc(w).written..] == RecordTail(payload, done)
        invariant range.None? ==> done == |payload|
        invariant range.Some? ==> range.value == (done, ranges.offset) && done < ranges.offset
                                  && RangesFrom(done, |payload|) == [range.value] + ranges.Remaining()
        decreases |payload| - done
      {
        NextChunk(payload, done);
        var encoded := Base64.Encode(payload[range.value.0..range.value.1]);
        ok := WriteAll(w, encoded, RecordTail(payload, ranges.offset));
        if !ok { return; }
        done := ranges.offset;
        range := ranges.Next();
      }
      LastPiece(payload);
      ok := WriteAll(w, Records.CLOSING, []);
      if !ok { return; }
      ok := SyncTemporary(w);
    }

    /** The name is taken: a complete record is kept, a malformed one quarantined and replaced. */
    method KeepOrReplace(w: nat) returns (r: Result<Exit, Records.StorageError>)
      requires Valid() && fs.Pc(w) == Exists
      modifies this
      ensures old(past) <= past
      ensures Valid()
      ensures match r
        case Ok(ByDuplicate) => fs.Pc(w) == Stored(ByDuplicate)
        case Ok(exit) => exit == ByRename && fs.Pc(w) == Syncing(ByRename)
        case Err(e) => fs.Pc(w) == Failed && e == Records.Internal
    {
      hide Run, Site.Valid, Standing, SameFile;
      var isSymlink := SymlinkMetadata(w);
      if isSymlink.None? {
        var _ := RemoveTemporary(w);
        return Err(Records.Internal);
      }
      var isComplete := false;
      if !isSymlink.value {
        var existing := ReadCanonical(w);
        if existing.None? {
          var _ := RemoveTemporary(w);
          return Err(Records.Internal);
        }
        match site.codec.readRecord(existing.value) {
          case Some(record) =>
            isComplete := Records.ValidatePendingRecord(record, site.job(w).eventId, Some(site.project)).Ok?;
          case None =>
            isComplete := false;
        }
      }
      if isComplete {
        var _ := RemoveTemporary(w);
        return Ok(ByDuplicate);
      }
      r := Replace(w);
    }

    method Replace(w: nat) returns (r: Result<Exit, Records.StorageError>)
      requires Valid() && fs.Pc(w) == Malformed
      modifies this
      ensures old(past) <= past
      ensures Valid()
      ensures match r
        case Ok(exit) => exit == ByRename && fs.Pc(w) == Syncing(ByRename)
        case Err(e) => fs.Pc(w) == Failed && e == Records.Internal
    {
      hide Run, Site.Valid, SameFile;
      var quarantined := LinkToQuarantine(w);
      if !quarantined {
        var _ := RemoveTemporary(w);
        return Err(Records.Internal);
      }
      var renamed := RenameTemporary(w);
      if !renamed {
        var _ := RemoveTemporary(w);
        return Err(Records.Internal);
      }
      return Ok(ByRename);
    }

    method PublishPendingFile(w: nat) returns (r: Result<Exit, Records.StorageError>)
      requires Valid() && fs.Pc(w) == Ready
      modifies this
      ensures old(past) <= past
      ensures Valid()
      ensures match r
        case Ok(exit) => fs.Pc(w) == Stored(exit)
        case Err(e) => fs.Pc(w) == Failed && e == Records.Internal
      ensures r == Ok(ByLink) || r == Ok(ByRename) ==> fs.journal == []
    {
      hide Run, Site.Valid, SameFile;
      var linked := HardLink(w);
      match linked {
        case LinkDone =>
          var _ := RemoveTemporary(w);
          r := Ok(ByLink);
        case AlreadyExists =>
          r := KeepOrReplace(w);
          if r != Ok(ByRename) { return; }
        case LinkError =>
          var _ := RemoveTemporary(w);
          return Err(Records.Internal);
      }
      var synced := SyncParentDirectory(w);
      if !synced {
        return Err(Records.Internal);
      }
    }

    method WriteAndPublish(w: nat) returns (r: Result<Exit, Records.StorageError>)
      requires Valid() && fs.Pc(w) == Idle
      modifies this
      ensures old(past) <= past
      ensures Valid()
      ensures match r
        case Ok(exit) => fs.Pc(w) == Stored(exit)
        case Err(e) => fs.Pc(w) == Failed && e == Records.Internal
    {
      hide Run, Site.Valid;
      var created := CreateTemporary(w);
      if !created {
        var _ := RemoveTemporary(w);
        return Err(Records.Internal);
      }
      var written := WritePendingRecord(w);
      if !written {
        var _ := RemoveTemporary(w);
        return Err(Records.Internal);
      }
      r := PublishPendingFile(w);
    }

    /** Every way through the call is a run of the state machine, ending stored or failed. */
    method WritePendingRecordAtomically(w: nat) returns (r: Result<Exit, Records.StorageError>)
      requires Valid() && fs.Pc(w) == Idle
      modifies this
      ensures old(past) <= past
      ensures Valid()
      ensures match r
        case Ok(exit) => fs.Pc(w) == Stored(exit)
        case Err(e) => fs.Pc(w) == Failed && e == Records.Internal
      ensures r.Ok? && AllUndisturbed(past[|old(past)|..]) ==> Standing(fs).Some? && site.Complete(Standing(fs).value)
      ensures (r == Ok(ByLink) || r == Ok(ByRename)) && NothingDeleted(past[|old(past)|..])
          ==> PublicationDurable.Durable(site, fs)
      ensures old(Fresh(w)) && PublicationProgress.AllKind(past[|old(past)|..], w) ==> r.Ok?
      ensures old(Fresh(w)) && PublicationCleanup.AllTidy(past[|old(past)|..], w) ==> Temp(w) !in fs.names
    {
      hide Run, Site.Valid, Site.Complete, Standing, PublicationDurable.Durable, AllUndisturbed, NothingDeleted;
      hide PublicationProgress.AllKind, PublicationCleanup.AllTidy;
      r := WriteAndPublish(w);
      if r.Ok? { StoredSince(site, old(past), past, w); } else { FailedSince(site, old(past), past, w); }
      if old(Fresh(w)) && PublicationCleanup.AllTidy(past[|old(past)|..], w) {
        ClearedSince(site, old(past), past, w);
      }
    }
  }

  lemma NextIsStep(site: Site, s: State, a: Action)
    requires !a.Crash?
    ensures Next(site, s, a) == Step(site, s, a)
  {
    hide Step;
  }

  lemma Suffix(s: seq<byte>, from: nat, part: seq<byte>, rest: seq<byte>)
    requires from <= |s| && s[from..] == part + rest
    ensures from + |part| <= |s| && s[from + |part|..] == rest
  {
    assert |s[from..]| == |part| + |rest|;
    assert s[from + |part|..] == s[from..][|part|..];
  }
}
