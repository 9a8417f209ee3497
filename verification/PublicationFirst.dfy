/** The first complete record wins: once a sound record stands and no call is about to replace
    another, it stays; and from a sound start no call ever replaces anything. */
module PublicationFirst {
  import opened Wrappers
  import opened Publication
  import opened PublicationWhole
  import opened PublicationDurable

  ghost predicate StartsSound(site: Site) {
    site.initial.Some? ==> site.Complete(site.initial.value)
  }

  // ----- a standing record is kept -----------------------------------------------------

  /** A call has found a malformed record and is about to replace it. */
  predicate Replacing(pc: Pc) {
    pc.Malformed? || pc.Quarantined?
  }

  ghost predicate NobodyReplacing(s: State) {
    forall w :: !Replacing(s.Pc(w))
  }

  /** No step of a publisher or the sweeper takes a record away or puts another in its place. */
  lemma RecordStays(site: Site, s: State, a: Action)
    requires Whole(site, s) && NobodyReplacing(s) && Undisturbed(a) && Canonical in s.names
    ensures Canonical in Next(site, s, a).names && Next(site, s, a).names[Canonical] == s.names[Canonical]
  {
    hide Next, Whole;
    CanonicalMoves(site, s, a);
    if a.Rename? { assert !Replacing(s.Pc(a.w)); }
  }

  /** A call that looks at a complete record does not set out to replace it. */
  lemma LookFindsComplete(site: Site, s: State, a: Action)
    requires site.Valid() && Standing(s).Some? && site.Complete(Standing(s).value)
    requires (a.Inspect? || a.Read?) && !Replacing(s.Pc(a.w))
    ensures !Replacing(Next(site, s, a).Pc(a.w))
  {
    hide Site.Valid, Site.AcceptedBy, Site.Record;
    SpellingIrrelevant(site, a.w, Standing(s).value);
  }

  lemma OthersDoNotReplace(site: Site, s: State, a: Action, w: nat)
    requires !Replacing(s.Pc(w)) && !a.Inspect? && !a.Read?
    ensures !Replacing(Next(site, s, a).Pc(w))
  {
    hide Site.Record, Survivors;
  }

  lemma OnlyLookingMatters(site: Site, s: State, a: Action, w: nat)
    requires (a.Inspect? || a.Read?) && (!(Canonical in s.names) || a.w != w) && !Replacing(s.Pc(w))
    ensures !Replacing(Next(site, s, a).Pc(w))
  {
    hide Site.Record, Site.AcceptedBy;
  }

  /** Nobody sets out to replace what is complete or absent. */
  lemma NobodyReplacingKept(site: Site, s: State, a: Action)
    requires site.Valid() && NobodyReplacing(s)
    requires Canonical in s.names ==> Standing(s).Some? && site.Complete(Standing(s).value)
    ensures NobodyReplacing(Next(site, s, a))
  {
    hide Next, Site.Valid, Site.Complete, Replacing;
    forall w ensures !Replacing(Next(site, s, a).Pc(w)) {
      assert !Replacing(s.Pc(w));
      if !a.Inspect? && !a.Read? {
        OthersDoNotReplace(site, s, a, w);
      } else if Canonical in s.names && a.w == w {
        LookFindsComplete(site, s, a);
      } else {
        OnlyLookingMatters(site, s, a, w);
      }
    }
  }

  lemma {:induction false} RunKeepsRecord(site: Site, s: State, actions: seq<Action>)
    requires site.Valid() && Whole(site, s) && NobodyReplacing(s) && Holds(site, s.names) && AllUndisturbed(actions)
    ensures var t := Run(site, s, actions);
      Whole(site, t) && NobodyReplacing(t) && Canonical in t.names && t.names[Canonical] == s.names[Canonical]
    decreases |actions|
  {
    hide Next, Whole, NobodyReplacing, Site.Valid, Site.Complete, Undisturbed, Standing;
    if actions != [] {
      HoldsComplete(site, s);
      WholeKept(site, s, actions[0]);
      RecordStays(site, s, actions[0]);
      NobodyReplacingKept(site, s, actions[0]);
      forall k | 0 <= k < |actions[1..]| ensures Undisturbed(actions[1..][k])
      {
        assert actions[1..][k] == actions[k + 1];
      }
      RunKeepsRecord(site, Next(site, s, actions[0]), actions[1..]);
    }
  }

  lemma SameSealed(site: Site, s: State, t: State)
    requires Whole(site, s) && Whole(site, t) && Canonical in s.names && Canonical in t.names
    requires s.names[Canonical] == t.names[Canonical]
    ensures Standing(s).Some? && Standing(s) == Standing(t)
  {
    hide Site.Record, CallOk;
    assert s.OnDisk(s.names) && t.OnDisk(t.names);
    assert SealedEntries(site, s, s.names) && SealedEntries(site, t, t.names);
  }

  /** Whatever happened before, deletes and crashes included: once a complete record stands and
      no call is about to replace a malformed one, no interleaving of publishers and the sweeper
      changes or replaces it. */
  lemma StandingRecordKept(site: Site, history: seq<Action>, after: seq<Action>)
    requires site.Valid() && AllUndisturbed(after)
    requires var s := Run(site, Start(site), history); NobodyReplacing(s) && Holds(site, s.names)
    ensures var early := Run(site, Start(site), history);
      var late := Run(site, early, after);
      && Canonical in late.names && late.names[Canonical] == early.names[Canonical]
      && Standing(early).Some? && Standing(late) == Standing(early)
  {
    hide Whole, NobodyReplacing, Site.Complete, Site.Valid, AllUndisturbed, Run;
    StartWhole(site);
    RunWhole(site, Start(site), history);
    var early := Run(site, Start(site), history);
    RunKeepsRecord(site, early, after);
    SameSealed(site, early, Run(site, early, after));
  }

  // ----- a sound start -----------------------------------------------------------------

  /** From a sound start only sound records ever stand. */
  lemma StandingSound(site: Site, s: State)
    requires site.Valid() && StartsSound(site) && Whole(site, s) && Canonical in s.names
    ensures Holds(site, s.names) && Standing(s).Some? && site.Complete(Standing(s).value)
  {
    hide Site.Valid, Site.Complete, Site.Record, CallOk, Standing;
    assert s.OnDisk(s.names) && SealedEntries(site, s, s.names);
    assert Holds(site, s.names);
    HoldsComplete(site, s);
  }

  predicate NoQuarantine(d: Entries) {
    forall n | n in d :: !n.Quarantine?
  }

  ghost predicate NeverQuarantined(s: State) {
    forall d | s.OnDisk(d) :: NoQuarantine(d)
  }

  lemma NoQuarantineAfter(site: Site, s: State, a: Action)
    requires NobodyReplacing(s) && NoQuarantine(s.names) && !a.Crash?
    ensures NoQuarantine(Next(site, s, a).names)
  {
    hide Site.Record, Site.AcceptedBy;
    if a.LinkQuarantine? { assert !Replacing(s.Pc(a.w)); }
  }

  lemma NoQuarantineSurvives(s: State, survivors: Entries)
    requires NeverQuarantined(s) && Survivors(s, survivors)
    ensures NoQuarantine(survivors)
  {
    forall n | n in survivors ensures !n.Quarantine? {
      assert Survives(s, survivors, n);
      var d :| s.OnDisk(d) && Agree(d, survivors, n);
      assert NoQuarantine(d);
    }
  }

  lemma NeverQuarantinedKept(site: Site, s: State, a: Action)
    requires NobodyReplacing(s) && NeverQuarantined(s)
    ensures NeverQuarantined(Next(site, s, a))
  {
    hide Next, NobodyReplacing, NoQuarantine, Survivors;
    assert s.OnDisk(s.names);
    var t := Next(site, s, a);
    forall d | t.OnDisk(d) ensures NoQuarantine(d) {
      if !s.OnDisk(d) {
        DiskAfter(site, s, a, d);
        if a.Crash? { NoQuarantineSurvives(s, a.survivors); } else { NoQuarantineAfter(site, s, a); }
      }
    }
  }

  predicate ByRenaming(pc: Pc) {
    pc == Syncing(ByRename) || pc == Stored(ByRename)
  }

  ghost predicate NobodyRenamed(s: State) {
    forall w :: !ByRenaming(s.Pc(w))
  }

  lemma NobodyRenamedKept(site: Site, s: State, a: Action)
    requires NobodyReplacing(s) && NobodyRenamed(s)
    ensures NobodyRenamed(Next(site, s, a))
  {
    hide Next, Replacing;
    forall w ensures !ByRenaming(Next(site, s, a).Pc(w)) {
      assert !Replacing(s.Pc(w)) && !ByRenaming(s.Pc(w));
      NotRenamedAfter(site, s, a, w);
    }
  }

  lemma NotRenamedAfter(site: Site, s: State, a: Action, w: nat)
    requires !Replacing(s.Pc(w)) && !ByRenaming(s.Pc(w))
    ensures !ByRenaming(Next(site, s, a).Pc(w))
  {
    hide Site.Record, Site.AcceptedBy, Survivors;
  }

  lemma {:induction false} RunReplacesNothing(site: Site, s: State, actions: seq<Action>)
    requires site.Valid() && StartsSound(site) && Whole(site, s)
    requires NobodyReplacing(s) && NobodyRenamed(s) && NeverQuarantined(s)
    ensures var t := Run(site, s, actions);
      Whole(site, t) && NobodyReplacing(t) && NobodyRenamed(t) && NeverQuarantined(t)
    decreases |actions|
  {
    hide Next, Whole, NobodyReplacing, NobodyRenamed, NeverQuarantined, Site.Valid, StartsSound, Standing, Holds,
        Site.Complete;
    if actions != [] {
      if Canonical in s.names { StandingSound(site, s); }
      WholeKept(site, s, actions[0]);
      NobodyReplacingKept(site, s, actions[0]);
      NobodyRenamedKept(site, s, actions[0]);
      NeverQuarantinedKept(site, s, actions[0]);
      RunReplacesNothing(site, Next(site, s, actions[0]), actions[1..]);
    }
  }

  lemma StartReplacesNothing(site: Site)
    ensures NobodyReplacing(Start(site)) && NobodyRenamed(Start(site)) && NeverQuarantined(Start(site))
  {
  }

  /** From a sound start no call ever finds a malformed record, replaces one, or makes a
      quarantine name, deletes and crashes included; and what stands is always complete. */
  lemma NothingReplaced(site: Site, actions: seq<Action>, w: nat)
    requires site.Valid() && StartsSound(site)
    ensures var s := Run(site, Start(site), actions);
      && NobodyReplacing(s) && !ByRenaming(s.Pc(w)) && Quarantine(w) !in s.names
      && (Canonical in s.names ==> Holds(site, s.names) && Standing(s).Some? && site.Complete(Standing(s).value))
  {
    hide Whole, Site.Valid, StartsSound, Run, Site.Complete, Holds, Standing, ByRenaming;
    StartWhole(site);
    StartReplacesNothing(site);
    RunReplacesNothing(site, Start(site), actions);
    var s := Run(site, Start(site), actions);
    assert s.OnDisk(s.names) && NoQuarantine(s.names);
    if Canonical in s.names { StandingSound(site, s); }
  }

  /** From a sound start a record once present, however it came to be there, is never changed or
      replaced by any interleaving of publishers and the sweeper. */
  lemma FirstRecordWins(site: Site, before: seq<Action>, after: seq<Action>)
    requires site.Valid() && StartsSound(site) && AllUndisturbed(after)
    requires Canonical in Run(site, Start(site), before).names
    ensures var early := Run(site, Start(site), before);
      var late := Run(site, early, after);
      && Canonical in late.names && late.names[Canonical] == early.names[Canonical]
      && Standing(early).Some? && Standing(late) == Standing(early)
  {
    hide Site.Valid, StartsSound, AllUndisturbed, Run, Holds, Standing, Site.Complete, NobodyReplacing;
    NothingReplaced(site, before, 0);
    StandingRecordKept(site, before, after);
  }

  // ----- whose record stands -----------------------------------------------------------

  predicate Bound(d: Entries, o: Object) {
    Canonical in d && d[Canonical] == o
  }

  /** Whatever a crash brings back, this object stands under the canonical name. */
  ghost predicate AlwaysBound(s: State, o: Object) {
    forall d | s.OnDisk(d) :: Bound(d, o)
  }

  lemma BoundSurvives(s: State, survivors: Entries, o: Object)
    requires AlwaysBound(s, o) && Survivors(s, survivors)
    ensures Bound(survivors, o)
  {
    assert Survives(s, survivors, Canonical);
    var d :| s.OnDisk(d) && Agree(d, survivors, Canonical);
    assert Bound(d, o);
  }

  lemma AlwaysBoundKept(site: Site, s: State, a: Action, o: Object)
    requires Whole(site, s) && NobodyReplacing(s) && AlwaysBound(s, o) && !a.Delete?
    ensures AlwaysBound(Next(site, s, a), o)
  {
    hide Next, Whole, NobodyReplacing, Survivors;
    assert s.OnDisk(s.names) && Bound(s.names, o);
    var t := Next(site, s, a);
    forall d | t.OnDisk(d) ensures Bound(d, o) {
      if !s.OnDisk(d) {
        DiskAfter(site, s, a, d);
        if a.Crash? { BoundSurvives(s, a.survivors, o); } else { RecordStays(site, s, a); }
      }
    }
  }

  /** A call that linked its record finds it there, and for good once the directory is synced. */
  ghost predicate CallOwns(s: State, w: nat) {
    match s.Pc(w)
    case Linked => Bound(s.names, Of(w))
    case Syncing(e) => e == ByLink ==> Bound(s.names, Of(w))
    case Stored(e) => e == ByLink ==> AlwaysBound(s, Of(w))
    case _ => true
  }

  lemma OwnStepOwns(site: Site, s: State, a: Action, w: nat)
    requires Whole(site, s) && NobodyReplacing(s) && CallOwns(s, w) && By(a, w)
    ensures CallOwns(Next(site, s, a), w)
  {
    hide Site.Record, Site.AcceptedBy, SealedEntries, CallOk, AlwaysBound, NobodyReplacing;
    if s.Pc(w).Linked? || s.Pc(w).Syncing? {
      if Canonical in s.names { RecordStays(site, s, a); }
      if s.Pc(w) == Syncing(ByLink) { SyncedIsBound(s, w); }
    } else if Temp(w) in s.names {
      TempIsOwn(site, s, w);
    }
  }

  lemma SyncedIsBound(s: State, w: nat)
    requires s.Pc(w) == Syncing(ByLink) && Bound(s.names, Of(w))
    ensures AlwaysBound(AfterSyncDir(s, w, true), Of(w))
  {
  }

  lemma OtherStepOwns(site: Site, s: State, a: Action, w: nat)
    requires Whole(site, s) && NobodyReplacing(s) && CallOwns(s, w) && !By(a, w) && !a.Delete?
    ensures CallOwns(Next(site, s, a), w)
  {
    hide Next, Whole, NobodyReplacing, AlwaysBound;
    if s.Pc(w) == Stored(ByLink) { AlwaysBoundKept(site, s, a, Of(w)); }
    if a.Crash? {
      CrashEndsCalls(site, s, a, w);
    } else {
      OthersDoNotMove(site, s, a, w);
      if Canonical in s.names { RecordStays(site, s, a); }
    }
  }

  lemma {:induction false} RunOwns(site: Site, s: State, actions: seq<Action>, w: nat)
    requires site.Valid() && StartsSound(site) && Whole(site, s) && CallOwns(s, w) && NothingDeleted(actions)
    requires NobodyReplacing(s) && NobodyRenamed(s) && NeverQuarantined(s)
    ensures CallOwns(Run(site, s, actions), w)
    ensures forall o | AlwaysBound(s, o) :: AlwaysBound(Run(site, s, actions), o)
    decreases |actions|
  {
    hide Next, Whole, NobodyReplacing, NobodyRenamed, NeverQuarantined, Site.Valid, StartsSound, CallOwns, AlwaysBound;
    if actions != [] {
      var a := actions[0];
      var t := Next(site, s, a);
      NothingDeletedTail(actions);
      RunReplacesNothing(site, s, [a]);
      assert Run(site, t, []) == t;
      if By(a, w) { OwnStepOwns(site, s, a, w); } else { OtherStepOwns(site, s, a, w); }
      forall o | AlwaysBound(s, o) ensures AlwaysBound(t, o) { AlwaysBoundKept(site, s, a, o); }
      RunOwns(site, t, actions[1..], w);
    }
  }

  lemma BoundIs(site: Site, s: State, o: Object)
    requires Whole(site, s) && AlwaysBound(s, o)
    ensures Standing(s).Some?
    ensures o.Of? ==> WrittenBy(site, o.call, Standing(s).value)
    ensures o == Initial ==> Standing(s) == site.initial
  {
    hide Site.Record, CallOk;
    assert s.OnDisk(s.names) && Bound(s.names, o) && SealedEntries(site, s, s.names);
  }

  /** Whose record stands, after any history from a sound start and until the next delete: that
      of a call which linked its own and returned, through every later step and every crash. */
  lemma LinkedRecordStands(site: Site, history: seq<Action>, during: seq<Action>, w: nat)
    requires site.Valid() && StartsSound(site) && NothingDeleted(during)
    requires NotInPlace(Run(site, Start(site), history).Pc(w))
    requires Run(site, Run(site, Start(site), history), during).Pc(w) == Stored(ByLink)
    ensures var s := Run(site, Run(site, Start(site), history), during);
      AlwaysBound(s, Of(w)) && Standing(s).Some? && WrittenBy(site, w, Standing(s).value)
  {
    hide Run, Whole, NobodyReplacing, NobodyRenamed, NeverQuarantined, Site.Valid, StartsSound, AlwaysBound,
        NothingDeleted, Standing;
    var early := Run(site, Start(site), history);
    var s := Run(site, early, during);
    StartWhole(site);
    StartReplacesNothing(site);
    RunReplacesNothing(site, Start(site), history);
    RunReplacesNothing(site, early, during);
    RunOwns(site, early, during, w);
    BoundIs(site, s, Of(w));
  }

  /** The record already there stays, through every step and every crash, until it is deleted. */
  lemma CompleteStartStands(site: Site, actions: seq<Action>)
    requires site.Valid() && StartsSound(site) && site.initial.Some? && NothingDeleted(actions)
    ensures var s := Run(site, Start(site), actions);
      AlwaysBound(s, Initial) && Standing(s) == site.initial
  {
    hide Run, Whole, NobodyReplacing, NobodyRenamed, NeverQuarantined, Site.Valid, StartsSound, NothingDeleted,
        Standing;
    StartWhole(site);
    StartReplacesNothing(site);
    RunReplacesNothing(site, Start(site), actions);
    RunOwns(site, Start(site), actions, 0);
    assert AlwaysBound(Start(site), Initial);
    BoundIs(site, Run(site, Start(site), actions), Initial);
  }

  /** Two calls cannot both win, crashes included, as long as nothing is deleted. */
  lemma OnlyOneLinks(site: Site, history: seq<Action>, during: seq<Action>, v: nat, w: nat)
    requires site.Valid() && StartsSound(site) && NothingDeleted(during)
    requires var early := Run(site, Start(site), history); NotInPlace(early.Pc(v)) && NotInPlace(early.Pc(w))
    requires var s := Run(site, Run(site, Start(site), history), during); s.Pc(v) == s.Pc(w) == Stored(ByLink)
    ensures v == w
  {
    hide Run, Site.Valid, StartsSound, NothingDeleted, Standing, NotInPlace;
    LinkedRecordStands(site, history, during, v);
    LinkedRecordStands(site, history, during, w);
    var s := Run(site, Run(site, Start(site), history), during);
    assert s.OnDisk(s.names) && Bound(s.names, Of(v)) && Bound(s.names, Of(w));
  }

  /** From a sound start and after any history, every call that looks and succeeds leaves a
      complete record, its own if it linked, and never takes the quarantine branch. */
  lemma OneWinner(site: Site, history: seq<Action>, during: seq<Action>, w: nat)
    requires site.Valid() && StartsSound(site) && AllUndisturbed(during)
    requires NotYetLooked(Run(site, Start(site), history).Pc(w))
    requires Run(site, Run(site, Start(site), history), during).Pc(w).Stored?
    ensures var s := Run(site, Run(site, Start(site), history), during);
      && s.Pc(w).exit != ByRename
      && Standing(s).Some? && site.Complete(Standing(s).value)
      && (s.Pc(w) == Stored(ByLink) ==> WrittenBy(site, w, Standing(s).value))
  {
    hide Run, Site.Valid, StartsSound, AllUndisturbed, NothingDeleted, Standing, Site.Complete, NobodyReplacing,
        AlwaysBound;
    var s := Run(site, Run(site, Start(site), history), during);
    StoredMeansComplete(site, history, during, w);
    RunConcat(site, Start(site), history, during);
    NothingReplaced(site, history + during, w);
    UndisturbedDeletesNothing(during);
    if s.Pc(w) == Stored(ByLink) { LinkedRecordStands(site, history, during, w); }
  }

  lemma UndisturbedDeletesNothing(actions: seq<Action>)
    requires AllUndisturbed(actions)
    ensures NothingDeleted(actions)
  {
    forall k | 0 <= k < |actions| ensures !actions[k].Delete? { assert Undisturbed(actions[k]); }
  }
}
