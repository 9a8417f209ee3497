/** What racing replacements and crashes cannot undo: a record under replacement is never
    missing, every success means a complete record, and a call that synced the directory has
    stored its event for good. */
module PublicationDurable {
  import opened Wrappers
  import opened Publication
  import opened PublicationWhole

  // ----- never missing -----------------------------------------------------------------

  ghost predicate NeverMissing(s: State) {
    forall d | s.OnDisk(d) :: Canonical in d
  }

  lemma PresentAfter(site: Site, s: State, a: Action)
    requires NeverMissing(s) && !a.Delete?
    ensures Canonical in Next(site, s, a).names
  {
    hide Site.Record, Site.AcceptedBy, Survivors;
    assert s.OnDisk(s.names);
    if a.Crash? && Survivors(s, a.survivors) { SurvivorsPresent(s, a.survivors); }
  }

  lemma SurvivorsPresent(s: State, survivors: Entries)
    requires NeverMissing(s) && Survivors(s, survivors)
    ensures Canonical in survivors
  {
    assert Survives(s, survivors, Canonical);
  }

  lemma NeverMissingKept(site: Site, s: State, a: Action)
    requires NeverMissing(s) && !a.Delete?
    ensures NeverMissing(Next(site, s, a))
  {
    hide Next;
    var t := Next(site, s, a);
    PresentAfter(site, s, a);
    forall d | t.OnDisk(d) ensures Canonical in d {
      if !s.OnDisk(d) { DiskAfter(site, s, a, d); }
    }
  }

  lemma {:induction false} RunNeverMissing(site: Site, s: State, actions: seq<Action>)
    requires NeverMissing(s) && NothingDeleted(actions)
    ensures NeverMissing(Run(site, s, actions))
    decreases |actions|
  {
    hide Next, NeverMissing;
    if actions != [] {
      NothingDeletedTail(actions);
      NeverMissingKept(site, s, actions[0]);
      RunNeverMissing(site, Next(site, s, actions[0]), actions[1..]);
    }
  }

  /** Once a record has been there since the directory was last synced, replacing it never
      leaves the name empty, at any step of any number of racing publishers and after any crash,
      whatever happened before. */
  lemma ReplacingNeverLosesTheName(site: Site, history: seq<Action>, actions: seq<Action>)
    requires NeverMissing(Run(site, Start(site), history)) && NothingDeleted(actions)
    ensures NeverMissing(Run(site, Run(site, Start(site), history), actions))
    ensures Canonical in Run(site, Run(site, Start(site), history), actions).names
  {
    hide Run;
    var early := Run(site, Start(site), history);
    RunNeverMissing(site, early, actions);
    var s := Run(site, early, actions);
    assert s.OnDisk(s.names);
  }

  // ----- nothing malformed is lost -----------------------------------------------------

  /** Crashes that bring back one whole state of the directory. */
  ghost predicate OrderedCrashes(site: Site, s: State, actions: seq<Action>)
    decreases |actions|
  {
    actions == []
    || ((actions[0].Crash? ==> s.OnDisk(actions[0].survivors))
        && OrderedCrashes(site, Next(site, s, actions[0]), actions[1..]))
  }

  ghost predicate InQuarantine(d: Entries) {
    exists w :: Quarantine(w) in d && d[Quarantine(w)] == Initial
  }

  /** The first inode stands under the canonical name or is kept in quarantine. */
  ghost predicate Reachable(d: Entries) {
    Canonical in d && (d[Canonical] == Initial || InQuarantine(d))
  }

  ghost predicate SafeToRename(s: State, w: nat) {
    s.Pc(w).Quarantined? && Canonical in s.names && s.names[Canonical] == Initial
    ==> Quarantine(w) in s.names && s.names[Quarantine(w)] == Initial
  }

  ghost predicate Preserved(s: State) {
    (forall d | s.OnDisk(d) :: Reachable(d)) && forall w :: SafeToRename(s, w)
  }

  lemma QuarantineKept(site: Site, s: State, a: Action, w: nat)
    requires !a.Crash? && Quarantine(w) in s.names
    ensures Quarantine(w) in Next(site, s, a).names && Next(site, s, a).names[Quarantine(w)] == s.names[Quarantine(w)]
  {
    hide Site.Record, Site.AcceptedBy;
  }

  /** The canonical name only ever moves on to a call's own file. */
  lemma CanonicalMoves(site: Site, s: State, a: Action)
    requires Whole(site, s) && Canonical in s.names && !a.Crash? && !a.Delete?
    ensures var t := Next(site, s, a);
      && Canonical in t.names
      && (t.names[Canonical] == s.names[Canonical]
          || (a.Rename? && s.Pc(a.w).Quarantined? && t.names[Canonical] == Of(a.w)))
  {
    hide Site.Record, Site.AcceptedBy, Sealed, CallOk;
    assert s.OnDisk(s.names);
  }

  lemma ReachableAfter(site: Site, s: State, a: Action)
    requires Whole(site, s) && Preserved(s) && !a.Delete? && !a.Crash?
    ensures Reachable(Next(site, s, a).names)
  {
    hide Next, Whole;
    assert s.OnDisk(s.names);
    CanonicalMoves(site, s, a);
    if InQuarantine(s.names) {
      var w :| Quarantine(w) in s.names && s.names[Quarantine(w)] == Initial;
      QuarantineKept(site, s, a, w);
    } else if a.Rename? {
      assert SafeToRename(s, a.w);
    }
  }

  lemma SafeAfter(site: Site, s: State, a: Action, w: nat)
    requires Whole(site, s) && Preserved(s) && !a.Delete?
    ensures SafeToRename(Next(site, s, a), w)
  {
    hide Whole, Next, Survivors;
    assert s.OnDisk(s.names);
    var t := Next(site, s, a);
    if a.Crash? {
      CrashStopsRenames(site, s, a, w);
    } else {
      assert SafeToRename(s, w);
      CanonicalMoves(site, s, a);
      if s.Pc(w).Quarantined? {
        if Quarantine(w) in s.names { QuarantineKept(site, s, a, w); }
      } else {
        EnteringQuarantine(site, s, a, w);
      }
    }
  }

  lemma CrashStopsRenames(site: Site, s: State, a: Action, w: nat)
    requires a.Crash? && SafeToRename(s, w)
    ensures SafeToRename(Next(site, s, a), w)
  {
    hide Survivors;
  }

  lemma EnteringQuarantine(site: Site, s: State, a: Action, w: nat)
    requires !a.Crash? && !s.Pc(w).Quarantined?
    ensures SafeToRename(Next(site, s, a), w)
  {
    hide Site.Record, Site.AcceptedBy;
    if !By(a, w) { OthersDoNotMove(site, s, a, w); }
  }

  lemma PreservedKept(site: Site, s: State, a: Action)
    requires Whole(site, s) && Preserved(s) && !a.Delete?
    requires a.Crash? ==> s.OnDisk(a.survivors)
    ensures Preserved(Next(site, s, a))
  {
    hide Next, Whole, Reachable, SafeToRename;
    var t := Next(site, s, a);
    forall w ensures SafeToRename(t, w) { SafeAfter(site, s, a, w); }
    forall d | t.OnDisk(d) ensures Reachable(d) {
      if !s.OnDisk(d) {
        DiskAfter(site, s, a, d);
        if !a.Crash? { ReachableAfter(site, s, a); }
      }
    }
  }

  lemma {:induction false} RunPreserves(site: Site, s: State, actions: seq<Action>)
    requires site.Valid() && Whole(site, s) && Preserved(s)
    requires NothingDeleted(actions) && OrderedCrashes(site, s, actions)
    ensures Preserved(Run(site, s, actions))
    decreases |actions|
  {
    hide Next, Whole, Preserved, Site.Valid;
    if actions != [] {
      NothingDeletedTail(actions);
      WholeKept(site, s, actions[0]);
      PreservedKept(site, s, actions[0]);
      RunPreserves(site, Next(site, s, actions[0]), actions[1..]);
    }
  }

  /** From the moment the first inode loses the canonical name it is in quarantine, even when
      several calls race to replace it, and after every crash of a file system that keeps
      directory operations in order. */
  lemma MalformedIsNeverLost(site: Site, actions: seq<Action>)
    requires site.Valid() && site.initial.Some?
    requires NothingDeleted(actions) && OrderedCrashes(site, Start(site), actions)
    ensures Reachable(Run(site, Start(site), actions).names)
  {
    hide Run, Site.Valid, Whole, Reachable, OrderedCrashes;
    StartWhole(site);
    StartPreserved(site);
    RunPreserves(site, Start(site), actions);
    var s := Run(site, Start(site), actions);
    assert s.OnDisk(s.names);
  }

  lemma StartPreserved(site: Site)
    requires site.initial.Some?
    ensures Preserved(Start(site))
  {
  }

  // ----- durability --------------------------------------------------------------------

  /** A call's file, or the first inode if that was complete. */
  ghost predicate Sound(site: Site, o: Object) {
    o.Of? || (site.initial.Some? && site.Complete(site.initial.value))
  }

  ghost predicate Holds(site: Site, d: Entries) {
    Canonical in d && Sound(site, d[Canonical])
  }

  /** The record would survive any crash. */
  ghost predicate Durable(site: Site, s: State) {
    forall d | s.OnDisk(d) :: Holds(site, d)
  }

  ghost predicate CallDurable(site: Site, s: State, w: nat) {
    match s.Pc(w)
    case Linked | Syncing(_) => Holds(site, s.names)
    case Stored(ByLink) | Stored(ByRename) => Durable(site, s)
    case _ => true
  }

  lemma HoldsKept(site: Site, s: State, a: Action)
    requires Whole(site, s) && Holds(site, s.names) && !a.Delete? && !a.Crash?
    ensures Holds(site, Next(site, s, a).names)
  {
    hide Next, Whole, Site.Complete;
    CanonicalMoves(site, s, a);
  }

  lemma DurableKept(site: Site, s: State, a: Action)
    requires Whole(site, s) && Durable(site, s) && !a.Delete?
    ensures Durable(site, Next(site, s, a))
  {
    hide Next, Whole, Holds, Survivors;
    assert s.OnDisk(s.names);
    var t := Next(site, s, a);
    forall d | t.OnDisk(d) ensures Holds(site, d) {
      if !s.OnDisk(d) {
        DiskAfter(site, s, a, d);
        if a.Crash? { DurableSurvives(site, s, a.survivors); } else { HoldsKept(site, s, a); }
      }
    }
  }

  lemma DurableSurvives(site: Site, s: State, survivors: Entries)
    requires Durable(site, s) && Survivors(s, survivors)
    ensures Holds(site, survivors)
  {
    hide Site.Complete;
    assert Survives(s, survivors, Canonical);
    var d :| s.OnDisk(d) && Agree(d, survivors, Canonical);
    assert Holds(site, d);
  }

  lemma OwnStepDurable(site: Site, s: State, a: Action, w: nat)
    requires Whole(site, s) && CallDurable(site, s, w) && By(a, w)
    ensures CallDurable(site, Next(site, s, a), w)
  {
    hide Site.Record, Site.AcceptedBy, Site.Complete, SealedEntries, CallOk, Durable;
    if s.Pc(w).Linked? || s.Pc(w).Syncing? {
      HoldsKept(site, s, a);
      if s.Pc(w).Syncing? { SyncedIsDurable(site, s, w); }
    } else if Temp(w) in s.names {
      TempIsOwn(site, s, w);
    }
  }

  /** Once the directory has been synced only its present state can come back. */
  lemma SyncedIsDurable(site: Site, s: State, w: nat)
    requires Holds(site, s.names) && s.Pc(w).Syncing?
    ensures Durable(site, AfterSyncDir(s, w, true))
  {
    hide Holds;
  }

  lemma OtherStepDurable(site: Site, s: State, a: Action, w: nat)
    requires Whole(site, s) && CallDurable(site, s, w) && !By(a, w) && !a.Delete?
    ensures CallDurable(site, Next(site, s, a), w)
  {
    hide Next, Whole, Holds, Durable;
    if s.Pc(w).Stored? && s.Pc(w).exit != ByDuplicate { DurableKept(site, s, a); }
    if a.Crash? {
      CrashEndsCalls(site, s, a, w);
    } else {
      OthersDoNotMove(site, s, a, w);
      if s.Pc(w).Linked? || s.Pc(w).Syncing? { HoldsKept(site, s, a); }
    }
  }

  lemma CrashEndsCalls(site: Site, s: State, a: Action, w: nat)
    requires a.Crash?
    ensures var pc := Next(site, s, a).Pc(w); pc == s.Pc(w) || (pc == Dead && !s.Pc(w).Stored?)
    ensures s.Pc(w).Linked? || s.Pc(w).Syncing? ==> Next(site, s, a) == s || Next(site, s, a).Pc(w) == Dead
  {
    hide Survivors;
  }

  lemma CallDurableKept(site: Site, s: State, a: Action, w: nat)
    requires Whole(site, s) && CallDurable(site, s, w) && !a.Delete?
    ensures CallDurable(site, Next(site, s, a), w)
  {
    hide Next, Whole, CallDurable;
    if By(a, w) { OwnStepDurable(site, s, a, w); } else { OtherStepDurable(site, s, a, w); }
  }

  lemma {:induction false} RunDurable(site: Site, s: State, actions: seq<Action>, w: nat)
    requires site.Valid() && Whole(site, s) && CallDurable(site, s, w) && NothingDeleted(actions)
    ensures Whole(site, Run(site, s, actions)) && CallDurable(site, Run(site, s, actions), w)
    ensures Durable(site, s) ==> Durable(site, Run(site, s, actions))
    decreases |actions|
  {
    hide Next, Whole, CallDurable, Durable, Site.Valid;
    if actions != [] {
      NothingDeletedTail(actions);
      WholeKept(site, s, actions[0]);
      CallDurableKept(site, s, actions[0], w);
      if Durable(site, s) { DurableKept(site, s, actions[0]); }
      RunDurable(site, Next(site, s, actions[0]), actions[1..], w);
    }
  }

  lemma HoldsComplete(site: Site, s: State)
    requires site.Valid() && Whole(site, s) && Holds(site, s.names)
    ensures Standing(s).Some? && site.Complete(Standing(s).value)
  {
    hide Site.Valid, Site.Complete, Site.Record, CallOk;
    assert s.OnDisk(s.names) && SealedEntries(site, s, s.names);
    if s.names[Canonical].Of? { WrittenIsComplete(site, s.names[Canonical].call); }
  }

  /** A call has not put its record in place yet. */
  predicate NotInPlace(pc: Pc) {
    !pc.Linked? && !pc.Syncing? && pc != Stored(ByLink) && pc != Stored(ByRename)
  }

  /** Whatever happened before, a call that puts its record in place and returns from linking or
      renaming leaves a complete record that stays through every later step and every crash,
      until it is deleted. */
  lemma StoredSurvivesCrashes(site: Site, history: seq<Action>, during: seq<Action>, after: seq<Action>, w: nat)
    requires site.Valid() && NothingDeleted(during) && NothingDeleted(after)
    requires NotInPlace(Run(site, Start(site), history).Pc(w))
    requires var pc := Run(site, Run(site, Start(site), history), during).Pc(w);
        pc == Stored(ByLink) || pc == Stored(ByRename)
    ensures var s := Run(site, Run(site, Run(site, Start(site), history), during), after);
      Durable(site, s) && Standing(s).Some? && site.Complete(Standing(s).value)
  {
    hide Run, Whole, Durable, Site.Valid, Site.Complete, NothingDeleted, Holds;
    var early := Run(site, Start(site), history);
    StartWhole(site);
    RunWhole(site, Start(site), history);
    RunDurable(site, early, during, w);
    var late := Run(site, early, during);
    RunDurable(site, late, after, w);
    var s := Run(site, late, after);
    DurableNow(site, s);
    HoldsComplete(site, s);
  }

  lemma DurableNow(site: Site, s: State)
    requires Durable(site, s)
    ensures Holds(site, s.names)
  {
    assert s.OnDisk(s.names);
  }

  // ----- the duplicate exit ------------------------------------------------------------

  /** The oldest state of the directory that a crash may bring back. */
  function Oldest(s: State): Entries {
    if s.journal == [] then s.names else s.journal[0]
  }

  /** Once there, a sound record is there in every later state. */
  ghost predicate StaysOnceThere(site: Site, s: State) {
    && (forall i, j | 0 <= i < j < |s.journal| && Holds(site, s.journal[i]) :: Holds(site, s.journal[j]))
    && (forall i | 0 <= i < |s.journal| && Holds(site, s.journal[i]) :: Holds(site, s.names))
  }

  lemma StaysKept(site: Site, s: State, a: Action)
    requires Whole(site, s) && StaysOnceThere(site, s) && !a.Delete?
    ensures StaysOnceThere(site, Next(site, s, a))
  {
    hide Next, Whole, Holds;
    JournalAfter(site, s, a);
    if !a.Crash? && Holds(site, s.names) { HoldsKept(site, s, a); }
  }

  lemma JournalAfter(site: Site, s: State, a: Action)
    ensures var t := Next(site, s, a);
      || (t.journal == [] && (t.names == s.names || a.Crash?))
      || (t.journal == s.journal && t.names == s.names)
      || (t.journal == s.journal + [s.names] && !a.Crash?)
  {
    hide Site.Record, Site.AcceptedBy, Survivors;
  }

  lemma {:induction false} RunStays(site: Site, s: State, actions: seq<Action>)
    requires site.Valid() && Whole(site, s) && StaysOnceThere(site, s) && NothingDeleted(actions)
    ensures StaysOnceThere(site, Run(site, s, actions))
    decreases |actions|
  {
    hide Next, Whole, StaysOnceThere, Site.Valid;
    if actions != [] {
      NothingDeletedTail(actions);
      WholeKept(site, s, actions[0]);
      StaysKept(site, s, actions[0]);
      RunStays(site, Next(site, s, actions[0]), actions[1..]);
    }
  }

  lemma OldestHolds(site: Site, s: State)
    requires StaysOnceThere(site, s)
    ensures Durable(site, s) <==> Holds(site, Oldest(s))
  {
    hide Holds;
    assert s.OnDisk(Oldest(s));
    if Holds(site, Oldest(s)) {
      forall d | s.OnDisk(d) ensures Holds(site, d) {
        if d in s.journal {
          var i :| 0 <= i < |s.journal| && s.journal[i] == d;
          if i > 0 { assert Holds(site, s.journal[0]); }
        }
      }
    }
  }

  lemma WholeStateSurvives(s: State, d: Entries)
    requires s.OnDisk(d)
    ensures Survivors(s, d)
  {
    forall n ensures Survives(s, d, n) { assert Agree(d, d, n); }
  }

  /** Exactly when every crash at this moment would leave a sound record, in every run: when it
      is in every state of the directory since the last sync. */
  lemma SurvivesExactly(site: Site, s: State)
    ensures (forall survivors | Survivors(s, survivors) :: Holds(site, survivors)) <==> Durable(site, s)
  {
    hide Holds, Survivors;
    forall d | s.OnDisk(d) ensures Survivors(s, d) { WholeStateSurvives(s, d); }
    forall survivors | Survivors(s, survivors) && Durable(site, s) ensures Holds(site, survivors) {
      DurableSurvives(site, s, survivors);
    }
  }

  /** With nothing deleted since some sync, the oldest state since the last one decides. */
  lemma OldestDecides(site: Site, history: seq<Action>, actions: seq<Action>)
    requires site.Valid() && NothingDeleted(actions)
    requires Run(site, Start(site), history).journal == []
    ensures var s := Run(site, Run(site, Start(site), history), actions);
      Durable(site, s) <==> Holds(site, Oldest(s))
  {
    hide Run, Whole, Site.Valid, NothingDeleted, Holds, Durable;
    var early := Run(site, Start(site), history);
    StartWhole(site);
    RunWhole(site, Start(site), history);
    RunStays(site, early, actions);
    OldestHolds(site, Run(site, early, actions));
  }

  // ----- every success means a complete record -----------------------------------------

  ghost predicate CallFound(site: Site, s: State, w: nat) {
    s.Pc(w).Linked? || s.Pc(w).Syncing? || s.Pc(w).Duplicate? || s.Pc(w).Stored? ==> Holds(site, s.names)
  }

  lemma ReadFinds(site: Site, s: State, w: nat, ok: bool)
    requires site.Valid() && Whole(site, s) && AfterRead(site, s, w, ok).Pc(w) == Duplicate && s.Pc(w) == Regular
    requires CallNotSymlink(s, w)
    ensures Holds(site, s.names)
  {
    hide Site.Valid, Site.AcceptedBy, Site.Complete, Site.Record, CallOk;
    assert s.OnDisk(s.names) && SealedEntries(site, s, s.names);
    SpellingIrrelevant(site, w, Standing(s).value);
  }

  /** A call reads only what it has found not to be a link; the object may have been replaced
      since, but only by a call's own file. */
  ghost predicate CallNotSymlink(s: State, w: nat) {
    s.Pc(w).Regular? && Standing(s).Some? ==> !Standing(s).value.symlink
  }

  lemma FoundAfter(site: Site, s: State, a: Action, w: nat)
    requires site.Valid() && Whole(site, s) && CallFound(site, s, w) && CallNotSymlink(s, w) && Undisturbed(a)
    ensures CallFound(site, Next(site, s, a), w)
  {
    hide Whole, Site.Valid, Next, Site.Complete, Holds;
    if Holds(site, s.names) {
      HoldsKept(site, s, a);
    } else if By(a, w) {
      FirstFound(site, s, a, w);
    } else {
      OthersDoNotMove(site, s, a, w);
    }
  }

  lemma FirstFound(site: Site, s: State, a: Action, w: nat)
    requires site.Valid() && Whole(site, s) && By(a, w) && !Holds(site, s.names)
    requires CallFound(site, s, w) && CallNotSymlink(s, w)
    ensures CallFound(site, Next(site, s, a), w)
  {
    hide Whole, Site.Valid, Site.Complete, Site.AcceptedBy, Site.Record, AfterRead;
    if a.Read? {
      if s.Pc(w).Regular? && AfterRead(site, s, w, a.ok).Pc(w) == Duplicate { ReadFinds(site, s, w, a.ok); }
      ReadMoves(site, s, w, a.ok);
    } else if Temp(w) in s.names {
      TempIsOwn(site, s, w);
    }
  }

  lemma ReadMoves(site: Site, s: State, w: nat, ok: bool)
    ensures var t := AfterRead(site, s, w, ok);
      t.names == s.names && (t == s || (s.Pc(w).Regular? && t.Pc(w) in {Failing, Duplicate, Malformed}))
  {
    hide Site.AcceptedBy;
  }

  lemma StandingMoves(site: Site, s: State, a: Action)
    requires site.Valid() && Whole(site, s) && Undisturbed(a)
    requires Standing(Next(site, s, a)).Some?
    ensures var t := Next(site, s, a);
      !Standing(t).value.symlink || (Standing(s).Some? && Standing(s) == Standing(t))
  {
    hide Next, Site.Valid, Site.Record, CallOk, SealedEntries;
    var t := Next(site, s, a);
    WholeKept(site, s, a);
    assert s.OnDisk(s.names) && t.OnDisk(t.names);
    assert SealedEntries(site, s, s.names) && SealedEntries(site, t, t.names);
    StandingSealed(site, t);
    if t.names[Canonical] == Initial {
      InitialStays(site, s, a);
      StandingSealed(site, s);
    }
  }

  lemma StandingSealed(site: Site, s: State)
    requires SealedEntries(site, s, s.names) && Canonical in s.names
    ensures Standing(s).Some?
    ensures s.names[Canonical] == Initial ==> Standing(s) == site.initial
    ensures s.names[Canonical].Of? ==> !Standing(s).value.symlink
  {
    hide Site.Record;
  }

  /** The first inode never comes back to the canonical name. */
  lemma InitialStays(site: Site, s: State, a: Action)
    requires Whole(site, s) && Undisturbed(a)
    requires Canonical in Next(site, s, a).names && Next(site, s, a).names[Canonical] == Initial
    ensures Canonical in s.names && s.names[Canonical] == Initial
  {
    hide Site.Record, Site.AcceptedBy, CallOk;
    assert s.OnDisk(s.names);
  }

  lemma RegularAfter(site: Site, s: State, a: Action, w: nat)
    requires site.Valid() && Whole(site, s) && CallNotSymlink(s, w) && Undisturbed(a)
    ensures CallNotSymlink(Next(site, s, a), w)
  {
    hide Next, Whole, Site.Valid;
    var t := Next(site, s, a);
    if t.Pc(w).Regular? && Standing(t).Some? {
      StandingMoves(site, s, a);
      if !s.Pc(w).Regular? {
        if By(a, w) { InspectFinds(site, s, a, w); } else { OthersDoNotMove(site, s, a, w); }
      }
    }
  }

  lemma InspectFinds(site: Site, s: State, a: Action, w: nat)
    requires By(a, w) && !s.Pc(w).Regular? && Next(site, s, a).Pc(w).Regular?
    ensures Standing(Next(site, s, a)).Some? && !Standing(Next(site, s, a)).value.symlink
  {
    hide Site.Record, Site.AcceptedBy;
  }

  lemma {:induction false} RunFound(site: Site, s: State, actions: seq<Action>, w: nat)
    requires site.Valid() && Whole(site, s) && AllUndisturbed(actions)
    requires CallFound(site, s, w) && CallNotSymlink(s, w)
    ensures Whole(site, Run(site, s, actions)) && CallFound(site, Run(site, s, actions), w)
    decreases |actions|
  {
    hide Next, Whole, Site.Valid, CallFound, CallNotSymlink, Undisturbed;
    if actions != [] {
      var t := Next(site, s, actions[0]);
      WholeKept(site, s, actions[0]);
      FoundAfter(site, s, actions[0], w);
      RegularAfter(site, s, actions[0], w);
      forall k | 0 <= k < |actions[1..]| ensures Undisturbed(actions[1..][k])
      {
        assert actions[1..][k] == actions[k + 1];
      }
      RunFound(site, t, actions[1..], w);
    }
  }

  /** A call has not yet looked at what stands under the name, nor put its own record there. */
  predicate NotYetLooked(pc: Pc) {
    NotInPlace(pc) && !pc.Regular? && !pc.Duplicate? && !pc.Stored?
  }

  /** Whatever happened before, and whatever stood there, once a call has looked and succeeded a
      complete record stands there, and the racing calls still under way do not take it away. */
  lemma StoredMeansComplete(site: Site, history: seq<Action>, during: seq<Action>, w: nat)
    requires site.Valid() && AllUndisturbed(during)
    requires NotYetLooked(Run(site, Start(site), history).Pc(w))
    requires Run(site, Run(site, Start(site), history), during).Pc(w).Stored?
    ensures var s := Run(site, Run(site, Start(site), history), during);
      Standing(s).Some? && site.Complete(Standing(s).value)
  {
    hide Run, Whole, Site.Valid, Site.Complete, Holds, AllUndisturbed;
    var early := Run(site, Start(site), history);
    StartWhole(site);
    RunWhole(site, Start(site), history);
    RunFound(site, early, during, w);
    HoldsComplete(site, Run(site, early, during));
  }
}
