/** Runs that show where the guarantees of publication end. */
module PublicationLimits {
  import opened Wrappers
  import opened Publication
  import opened PublicationWhole
  import PublicationDurable
  import PublicationFirst

  /** A call writes and syncs its temporary file. */
  function Prepare(site: Site, w: nat): seq<Action> {
    [Create(w, true), Write(w, |site.Record(w)|), SyncFile(w, true)]
  }

  lemma Prepared(site: Site, s: State, w: nat)
    requires s.Pc(w) == Idle && Temp(w) !in s.names
    ensures var t := Run(site, s, Prepare(site, w));
      && t.names == s.names[Temp(w) := Of(w)] && t.journal == s.journal + [s.names]
      && t.contents == s.contents[Of(w) := Content(site.Record(w), true, false)]
      && t.pcs == s.pcs[w := Ready]
  {
    hide Site.Record, Site.AcceptedBy;
    var a := AfterCreate(s, w, true);
    var b := AfterWrite(site, a, w, |site.Record(w)|);
    var c := AfterSyncFile(site, b, w, true);
    assert site.Record(w)[..|site.Record(w)|] == site.Record(w);
    Stepped(site, s, Prepare(site, w), a);
    Stepped(site, a, Prepare(site, w)[1..], b);
    Stepped(site, b, Prepare(site, w)[2..], c);
    assert Run(site, c, []) == c;
  }

  lemma Stepped(site: Site, s: State, actions: seq<Action>, t: State)
    requires actions != [] && t == Next(site, s, actions[0])
    ensures Run(site, s, actions) == Run(site, t, actions[1..])
  {
  }

  // ----- the duplicate exit does not sync ----------------------------------------------

  function FirstLinks(site: Site): seq<Action> { Prepare(site, 0) + [Link(0, true)] }

  function SecondFindsIt(site: Site): seq<Action> {
    Prepare(site, 1) + LooksAndReturns(1)
  }

  lemma FirstLinked(site: Site)
    requires site.initial.None?
    ensures var t := Run(site, Start(site), FirstLinks(site));
      && t.names == map[Temp(0) := Of(0), Canonical := Of(0)]
      && t.journal == [map[], map[Temp(0) := Of(0)]]
      && t.contents == map[Of(0) := Content(site.Record(0), true, false)]
      && t.pcs == map[0 := Linked]
  {
    hide Site.Record, Site.AcceptedBy;
    var s := Start(site);
    Prepared(site, s, 0);
    RunConcat(site, s, Prepare(site, 0), [Link(0, true)]);
    var t := Run(site, s, Prepare(site, 0));
    Stepped(site, t, [Link(0, true)], AfterLink(t, 0, true));
    assert Run(site, AfterLink(t, 0, true), []) == AfterLink(t, 0, true);
  }

  /** Four steps one after another. */
  lemma FourSteps(site: Site, s: State, a: Action, b: Action, c: Action, d: Action)
    ensures Run(site, s, [a, b, c, d]) == Next(site, Next(site, Next(site, Next(site, s, a), b), c), d)
  {
    hide Next;
    Stepped(site, s, [a, b, c, d], Next(site, s, a));
    Stepped(site, Next(site, s, a), [b, c, d], Next(site, Next(site, s, a), b));
    Stepped(site, Next(site, Next(site, s, a), b), [c, d], Next(site, Next(site, Next(site, s, a), b), c));
    assert [c, d][1..] == [d];
    OneStep(site, Next(site, Next(site, Next(site, s, a), b), c), d);
  }

  lemma OneStep(site: Site, s: State, a: Action)
    ensures Run(site, s, [a]) == Next(site, s, a)
  {
    hide Next;
    Stepped(site, s, [a], Next(site, s, a));
    assert Run(site, Next(site, s, a), []) == Next(site, s, a);
  }

  /** A call that finds a record, from its link on. */
  function LooksAndReturns(w: nat): seq<Action> {
    [Link(w, true), Inspect(w, true), Read(w, true), RemoveTemp(w, true)]
  }

  lemma LooksRun(site: Site, s: State, w: nat)
    ensures Run(site, s, LooksAndReturns(w))
         == AfterRemoveTemp(AfterRead(site, AfterInspect(AfterLink(s, w, true), w, true), w, true), w, true)
  {
    hide Run, AfterLink, AfterInspect, AfterRead, AfterRemoveTemp;
    FourSteps(site, s, Link(w, true), Inspect(w, true), Read(w, true), RemoveTemp(w, true));
  }

  lemma FindsIt(site: Site, s: State)
    requires site.Valid() && s.Pc(1) == Ready && Temp(1) in s.names
    requires Canonical in s.names && s.names[Canonical] == Of(0)
    requires Of(0) in s.contents && s.contents[Of(0)] == Content(site.Record(0), true, false)
    ensures AfterRead(site, AfterInspect(AfterLink(s, 1, true), 1, true), 1, true) == s.Move(1, Duplicate)
  {
    hide Site.Record, Site.AcceptedBy, Site.Valid, Site.Complete;
    WrittenIsComplete(site, 0);
    SpellingIrrelevant(site, 1, Content(site.Record(0), true, false));
    assert s.Move(1, Exists).Move(1, Regular).Move(1, Duplicate) == s.Move(1, Duplicate);
  }

  lemma Removed(s: State)
    requires Temp(1) in s.names && Canonical in s.names
    ensures var t := AfterRemoveTemp(s.Move(1, Duplicate), 1, true);
      t.Pc(1) == Stored(ByDuplicate) && Canonical in t.names && s.journal <= t.journal
  {
  }

  lemma SecondReturns(site: Site, s: State)
    requires site.Valid() && s.Pc(1) == Idle && Temp(1) !in s.names
    requires Canonical in s.names && s.names[Canonical] == Of(0)
    requires Of(0) in s.contents && s.contents[Of(0)] == Content(site.Record(0), true, false)
    ensures var t := Run(site, s, SecondFindsIt(site));
      && t.Pc(1) == Stored(ByDuplicate) && Canonical in t.names
      && s.journal <= t.journal
  {
    hide Site.Record, Site.Valid, Run, AfterLink, AfterInspect, AfterRead, AfterRemoveTemp, Prepare, LooksAndReturns;
    var t := Run(site, s, Prepare(site, 1));
    Prepared(site, s, 1);
    RunConcat(site, s, Prepare(site, 1), LooksAndReturns(1));
    LooksRun(site, t, 1);
    FindsIt(site, t);
    Removed(t);
  }

  lemma EmptyIsOnDisk(site: Site)
    requires site.Valid() && site.initial.None?
    ensures var s := Run(site, Start(site), FirstLinks(site) + SecondFindsIt(site));
      && s.Pc(1) == Stored(ByDuplicate) && Canonical in s.names && s.OnDisk(map[])
  {
    hide Site.Record, Site.AcceptedBy, Site.Valid, Run;
    var start := Start(site);
    RunConcat(site, start, FirstLinks(site), SecondFindsIt(site));
    FirstLinked(site);
    var linked := Run(site, start, FirstLinks(site));
    SecondReturns(site, linked);
    var s := Run(site, linked, SecondFindsIt(site));
    assert s.journal[0] == linked.journal[0] == map[];
  }

  /** A call that returns because another has linked the event may see it lost in a crash: the
      directory has not been synced. */
  lemma DuplicateMayBeLost(site: Site)
    requires site.Valid() && site.initial.None?
    ensures var s := Run(site, Start(site), FirstLinks(site) + SecondFindsIt(site));
      && s.Pc(1) == Stored(ByDuplicate) && Canonical in s.names
      && Canonical !in Next(site, s, Crash(map[], map[])).names
  {
    hide Site.Valid, Run, Survivors, FirstLinks, SecondFindsIt;
    EmptyIsOnDisk(site);
    PublicationDurable.WholeStateSurvives(Run(site, Start(site), FirstLinks(site) + SecondFindsIt(site)), map[]);
  }

  // ----- replacing a malformed record --------------------------------------------------

  /** A call finds what stands under the canonical name malformed. */
  function Looks(w: nat): seq<Action> { [Link(w, true), Inspect(w, true), Read(w, true)] }

  function Swaps(w: nat): seq<Action> { [LinkQuarantine(w, true), Rename(w, true)] }

  lemma TwoSteps(site: Site, s: State, a: Action, b: Action)
    ensures Run(site, s, [a, b]) == Next(site, Next(site, s, a), b)
  {
    hide Next;
    Stepped(site, s, [a, b], Next(site, s, a));
    assert [a, b][1..] == [b];
    OneStep(site, Next(site, s, a), b);
  }

  lemma ThreeSteps(site: Site, s: State, a: Action, b: Action, c: Action)
    ensures Run(site, s, [a, b, c]) == Next(site, Next(site, Next(site, s, a), b), c)
  {
    hide Next;
    Stepped(site, s, [a, b, c], Next(site, s, a));
    assert [a, b, c][1..] == [b, c];
    TwoSteps(site, Next(site, s, a), b, c);
  }

  ghost predicate StillMalformed(site: Site, s: State) {
    && site.initial.Some? && !site.Complete(site.initial.value)
    && Canonical in s.names && s.names[Canonical] == Initial
    && Initial in s.contents && s.contents[Initial] == site.initial.value
  }

  lemma Rejected(site: Site, s: State, w: nat)
    requires site.Valid() && StillMalformed(site, s) && s.Pc(w) == Ready && Temp(w) in s.names
    ensures AfterRead(site, AfterInspect(AfterLink(s, w, true), w, true), w, true) == s.Move(w, Malformed)
  {
    hide Site.Record, Site.AcceptedBy, Site.Valid, Site.Complete;
    SpellingIrrelevant(site, w, site.initial.value);
    assert s.Move(w, Exists).Move(w, Regular).Move(w, Malformed) == s.Move(w, Malformed);
    assert s.Move(w, Exists).Move(w, Malformed) == s.Move(w, Malformed);
  }

  lemma Looked(site: Site, s: State, w: nat)
    requires site.Valid() && StillMalformed(site, s) && s.Pc(w) == Ready && Temp(w) in s.names
    ensures Run(site, s, Looks(w)) == s.Move(w, Malformed)
  {
    hide Site.Valid, StillMalformed, Run, AfterLink, AfterInspect, AfterRead;
    ThreeSteps(site, s, Link(w, true), Inspect(w, true), Read(w, true));
    Rejected(site, s, w);
  }

  lemma Swapped(site: Site, s: State, w: nat)
    requires s.Pc(w) == Malformed && Canonical in s.names && Quarantine(w) !in s.names
    requires Temp(w) in s.names && s.names[Temp(w)] == Of(w)
    ensures var t := Run(site, s, Swaps(w));
      && t.names == (s.names - {Temp(w)})[Quarantine(w) := s.names[Canonical]][Canonical := Of(w)]
      && t.pcs == s.pcs[w := Syncing(ByRename)] && t.contents == s.contents
      && s.journal + [s.names] <= t.journal
  {
    hide Run;
    TwoSteps(site, s, LinkQuarantine(w, true), Rename(w, true));
    var a := AfterLinkQuarantine(s, w, true);
    assert a == s.Rebind(s.names[Quarantine(w) := s.names[Canonical]]).Move(w, Quarantined);
  }

  /** A call, from its start to having found the record malformed. */
  function ReadyToReplace(site: Site, w: nat): seq<Action> { Prepare(site, w) + Looks(w) }

  lemma AboutToReplace(site: Site, s: State, w: nat)
    requires site.Valid() && StillMalformed(site, s) && s.Pc(w) == Idle && Temp(w) !in s.names
    ensures var t := Run(site, s, ReadyToReplace(site, w));
      && t.names == s.names[Temp(w) := Of(w)] && t.journal == s.journal + [s.names]
      && t.pcs == s.pcs[w := Malformed] && StillMalformed(site, t)
  {
    hide Site.Valid, Site.Record, Site.Complete, Run, Prepare, Looks;
    Prepared(site, s, w);
    RunConcat(site, s, Prepare(site, w), Looks(w));
    var t := Run(site, s, Prepare(site, w));
    Looked(site, t, w);
    assert s.pcs[w := Ready][w := Malformed] == s.pcs[w := Malformed];
  }

  // ----- quarantine before the sync ----------------------------------------------------

  function Replace(site: Site): seq<Action> { ReadyToReplace(site, 0) + Swaps(0) }

  lemma Replaced(site: Site)
    requires site.Valid() && site.initial.Some? && !site.Complete(site.initial.value)
    ensures var t := Run(site, Start(site), Replace(site));
      && t.names == map[Canonical := Of(0), Quarantine(0) := Initial]
      && |t.journal| > 0 && t.journal[0] == map[Canonical := Initial]
      && t.pcs == map[0 := Syncing(ByRename)]
  {
    hide Site.Valid, Site.Complete, Run, ReadyToReplace, Swaps;
    AboutToReplace(site, Start(site), 0);
    var s := Run(site, Start(site), ReadyToReplace(site, 0));
    RunConcat(site, Start(site), ReadyToReplace(site, 0), Swaps(0));
    Swapped(site, s, 0);
    assert (s.journal + [s.names])[0] == map[Canonical := Initial];
  }

  /** Without that order a crash between the rename and the sync may keep the new record and
      lose the quarantined one. */
  lemma QuarantineMayBeLost(site: Site)
    requires site.Valid() && site.initial.Some? && !site.Complete(site.initial.value)
    ensures var s := Next(site, Run(site, Start(site), Replace(site)), Crash(map[Canonical := Of(0)], map[]));
      && s.names == map[Canonical := Of(0)] && !PublicationDurable.Reachable(s.names)
  {
    hide Site.Valid, Run, Site.Complete, Replace;
    Replaced(site);
    var s := Run(site, Start(site), Replace(site));
    var survivors := map[Canonical := Of(0)];
    forall n ensures Survives(s, survivors, n) {
      assert s.OnDisk(s.names) && s.OnDisk(s.journal[0]);
      if n == Quarantine(0) { assert Agree(s.journal[0], survivors, n); } else { assert Agree(s.names, survivors, n); }
    }
  }

  lemma ReplaceDeletesNothing(site: Site, survivors: Entries)
    ensures NothingDeleted(Replace(site) + [Crash(survivors, map[])])
  {
    hide Site.Record;
  }

  /** Under crashes that restore names independently, the first inode stays reachable in every
      delete-free run exactly when it was complete to begin with. */
  lemma ReachableExactly(site: Site)
    requires site.Valid() && site.initial.Some?
    ensures site.Complete(site.initial.value)
       <==> forall actions | NothingDeleted(actions)
           :: PublicationDurable.Reachable(Run(site, Start(site), actions).names)
  {
    hide Site.Valid, Site.Complete, Run, Replace, NothingDeleted, Standing;
    if site.Complete(site.initial.value) {
      forall actions | NothingDeleted(actions)
        ensures PublicationDurable.Reachable(Run(site, Start(site), actions).names)
      {
        PublicationFirst.CompleteStartStands(site, actions);
        var s := Run(site, Start(site), actions);
        assert s.OnDisk(s.names) && PublicationFirst.Bound(s.names, Initial);
      }
    } else {
      var crash := Crash(map[Canonical := Of(0)], map[]);
      QuarantineMayBeLost(site);
      ReplaceDeletesNothing(site, crash.survivors);
      RunConcat(site, Start(site), Replace(site), [crash]);
      OneStep(site, Run(site, Start(site), Replace(site)), crash);
    }
  }

  ghost predicate HasOrigin(d: Entries, n: Name) {
    n in d && d[n] == Initial
  }

  ghost predicate KeptBy(s: State, n: Name) {
    forall d | s.OnDisk(d) :: HasOrigin(d, n)
  }

  /** The first inode keeps the canonical name, or one quarantine name, in every state of the
      directory that a crash may bring back. */
  ghost predicate KeptUnderOneName(s: State) {
    KeptBy(s, Canonical) || exists w :: KeptBy(s, Quarantine(w))
  }

  /** A state of the directory in which `n` is not the first inode, if there is one. */
  ghost function Losing(s: State, n: Name): (d: Entries)
    ensures s.OnDisk(d)
    ensures HasOrigin(d, n) ==> forall e | s.OnDisk(e) :: HasOrigin(e, n)
  {
    if d :| s.OnDisk(d) && !HasOrigin(d, n) then d else s.names
  }

  ghost function AllNames(states: seq<Entries>): (names: set<Name>)
    ensures forall d, n | d in states && n in d :: n in names
  {
    if states == [] then {} else states[0].Keys + AllNames(states[1..])
  }

  /** What the worst crash leaves of the first inode's names. */
  ghost function WorstSurvivors(s: State): Entries {
    map n | n in AllNames(s.journal + [s.names]) && n in Losing(s, n) :: Losing(s, n)[n]
  }

  lemma WorstIsPossible(s: State)
    ensures Survivors(s, WorstSurvivors(s))
  {
    forall n ensures Survives(s, WorstSurvivors(s), n) {
      var d := Losing(s, n);
      assert d in s.journal + [s.names];
      assert Agree(d, WorstSurvivors(s), n);
    }
  }

  /** In any state: every possible crash leaves the first inode reachable, and the name bound,
      exactly when the name is bound in every state that may come back and one and the same name
      keeps the inode in all of them. */
  lemma ReachableAfterCrashExactly(s: State)
    ensures (forall survivors | Survivors(s, survivors) :: PublicationDurable.Reachable(survivors))
       <==> PublicationDurable.NeverMissing(s) && KeptUnderOneName(s)
  {
    hide Survivors, WorstSurvivors, KeptUnderOneName;
    if !PublicationDurable.NeverMissing(s) {
      var d :| s.OnDisk(d) && Canonical !in d;
      PublicationDurable.WholeStateSurvives(s, d);
    } else if KeptUnderOneName(s) {
      forall survivors | Survivors(s, survivors) ensures PublicationDurable.Reachable(survivors) {
        KeptNameSurvives(s, survivors);
      }
    } else {
      WorstIsPossible(s);
      WorstLoses(s);
    }
  }

  lemma KeptSurvives(s: State, survivors: Entries, n: Name)
    requires KeptBy(s, n) && Survivors(s, survivors)
    ensures HasOrigin(survivors, n)
  {
    assert Survives(s, survivors, n);
    var d :| s.OnDisk(d) && Agree(d, survivors, n);
    assert HasOrigin(d, n);
  }

  lemma KeptNameSurvives(s: State, survivors: Entries)
    requires PublicationDurable.NeverMissing(s) && KeptUnderOneName(s) && Survivors(s, survivors)
    ensures PublicationDurable.Reachable(survivors)
  {
    hide Survivors, KeptBy;
    PublicationDurable.SurvivorsPresent(s, survivors);
    if KeptBy(s, Canonical) {
      KeptSurvives(s, survivors, Canonical);
    } else {
      var w :| KeptBy(s, Quarantine(w));
      KeptSurvives(s, survivors, Quarantine(w));
    }
  }

  lemma WorstKeeps(s: State, n: Name)
    ensures HasOrigin(WorstSurvivors(s), n) ==> KeptBy(s, n)
  {
    hide AllNames, Losing;
  }

  lemma WorstLoses(s: State)
    requires !KeptUnderOneName(s)
    ensures !PublicationDurable.Reachable(WorstSurvivors(s))
  {
    hide WorstSurvivors, KeptBy;
    WorstKeeps(s, Canonical);
    forall w ensures !HasOrigin(WorstSurvivors(s), Quarantine(w)) { WorstKeeps(s, Quarantine(w)); }
  }

  // ----- two replacements --------------------------------------------------------------

  /** Both calls find the malformed record; then the first replaces it and returns. */
  function FirstReplaces(site: Site): seq<Action> {
    ReadyToReplace(site, 0) + (ReadyToReplace(site, 1) + (Swaps(0) + [SyncDir(0, true)]))
  }

  function SecondReplaces(): seq<Action> { Swaps(1) + [SyncDir(1, true)] }

  lemma SwappedAndSynced(site: Site, s: State, w: nat)
    requires s.Pc(w) == Malformed && Canonical in s.names && Quarantine(w) !in s.names
    requires Temp(w) in s.names && s.names[Temp(w)] == Of(w)
    ensures var t := Run(site, s, Swaps(w) + [SyncDir(w, true)]);
      && t.names == (s.names - {Temp(w)})[Quarantine(w) := s.names[Canonical]][Canonical := Of(w)]
      && t.Pc(w) == Stored(ByRename) && forall v | v != w :: t.Pc(v) == s.Pc(v)
  {
    hide Run, Swaps;
    Swapped(site, s, w);
    RunConcat(site, s, Swaps(w), [SyncDir(w, true)]);
    OneStep(site, Run(site, s, Swaps(w)), SyncDir(w, true));
  }

  /** From a malformed start the first record does not always win: two calls that have both seen
      it replace it one after the other, and both succeed. */
  lemma MalformedStartMayReplaceTwice(site: Site)
    requires site.Valid() && site.initial.Some? && !site.Complete(site.initial.value)
    ensures var early := Run(site, Start(site), FirstReplaces(site));
      var late := Run(site, early, SecondReplaces());
      && early.Pc(0) == Stored(ByRename) && Canonical in early.names && early.names[Canonical] == Of(0)
      && late.Pc(1) == Stored(ByRename) && Canonical in late.names && late.names[Canonical] == Of(1)
  {
    hide Site.Valid, Site.Complete, Run, ReadyToReplace, Swaps;
    var start := Start(site);
    var rest := Swaps(0) + [SyncDir(0, true)];
    RunConcat(site, start, ReadyToReplace(site, 0), ReadyToReplace(site, 1) + rest);
    AboutToReplace(site, start, 0);
    var one := Run(site, start, ReadyToReplace(site, 0));
    RunConcat(site, one, ReadyToReplace(site, 1), rest);
    AboutToReplace(site, one, 1);
    var two := Run(site, one, ReadyToReplace(site, 1));
    SwappedAndSynced(site, two, 0);
    SwappedAndSynced(site, Run(site, two, rest), 1);
  }

  /** A complete record, however it came to be there, is not replaced until it is deleted or a
      crash intervenes. */
  ghost predicate KeepsFirst(site: Site, before: seq<Action>, after: seq<Action>) {
    var early := Run(site, Start(site), before);
    var late := Run(site, early, after);
    AllUndisturbed(after) && PublicationDurable.Holds(site, early.names)
    ==> Canonical in late.names && early.names[Canonical] == late.names[Canonical]
  }

  lemma SoundStartKeepsFirst(site: Site, before: seq<Action>, after: seq<Action>)
    requires site.Valid() && PublicationFirst.StartsSound(site)
    ensures KeepsFirst(site, before, after)
  {
    hide Site.Valid, Run, AllUndisturbed, PublicationFirst.StartsSound, Standing, Site.Complete;
    if AllUndisturbed(after) && PublicationDurable.Holds(site, Run(site, Start(site), before).names) {
      PublicationFirst.FirstRecordWins(site, before, after);
    }
  }

  lemma ReplacementsUndisturbed(site: Site)
    ensures AllUndisturbed(FirstReplaces(site)) && AllUndisturbed(SecondReplaces())
  {
    hide Site.Record;
  }

  /** A complete record is kept after every history and in every interleaving exactly when the
      name starts absent or with a complete record. */
  lemma FirstWinsExactly(site: Site)
    requires site.Valid()
    ensures PublicationFirst.StartsSound(site) <==> forall before, after :: KeepsFirst(site, before, after)
  {
    if PublicationFirst.StartsSound(site) {
      hide KeepsFirst, PublicationFirst.StartsSound, Site.Valid;
      forall before, after ensures KeepsFirst(site, before, after) { SoundStartKeepsFirst(site, before, after); }
    } else {
      hide Run, FirstReplaces, SecondReplaces, Site.Valid, AllUndisturbed, Site.Complete;
      MalformedStartMayReplaceTwice(site);
      ReplacementsUndisturbed(site);
      assert !KeepsFirst(site, FirstReplaces(site), SecondReplaces());
    }
  }

  // ----- what a duplicate may rely on --------------------------------------------------

  /** A call that finds another's replacement before the directory is synced succeeds too. */
  lemma DuplicateOfReplacement(site: Site)
    requires site.Valid() && site.initial.Some? && !site.Complete(site.initial.value)
    ensures var s := Run(site, Start(site), Replace(site) + SecondFindsIt(site));
      && s.Pc(1) == Stored(ByDuplicate) && s.OnDisk(map[Canonical := Initial])
  {
    hide Site.Valid, Site.Complete, Run, Replace, SecondFindsIt, Site.Record;
    Replaced(site);
    RunConcat(site, Start(site), Replace(site), SecondFindsIt(site));
    var t := Run(site, Start(site), Replace(site));
    StartWhole(site);
    RunWhole(site, Start(site), Replace(site));
    RecordSealed(site, t);
    SecondReturns(site, t);
    var s := Run(site, t, SecondFindsIt(site));
    assert s.journal[0] == t.journal[0];
  }

  lemma RecordSealed(site: Site, s: State)
    requires Whole(site, s) && Canonical in s.names && s.names[Canonical] == Of(0)
    ensures Of(0) in s.contents && s.contents[Of(0)] == Content(site.Record(0), true, false)
  {
    hide CallOk;
    assert s.OnDisk(s.names) && SealedEntries(site, s, s.names);
  }

  lemma RunsDeleteNothing(site: Site)
    ensures NothingDeleted(FirstLinks(site) + SecondFindsIt(site))
    ensures NothingDeleted(Replace(site) + SecondFindsIt(site))
  {
    hide Site.Record;
  }

  /** Every success of the duplicate exit is safe from every crash. */
  ghost predicate DuplicatesAreDurable(site: Site) {
    forall actions, w | NothingDeleted(actions) && Run(site, Start(site), actions).Pc(w) == Stored(ByDuplicate)
      :: PublicationDurable.Durable(site, Run(site, Start(site), actions))
  }

  /** A call that returns because the event is already there can rely on it exactly when a
      complete record was on disk before any of them started. */
  lemma DuplicateSafeExactly(site: Site)
    requires site.Valid()
    ensures site.initial.Some? && site.Complete(site.initial.value) <==> DuplicatesAreDurable(site)
  {
    hide Site.Valid, Site.Complete, Run, Replace, FirstLinks, SecondFindsIt, NothingDeleted, Standing;
    RunsDeleteNothing(site);
    if site.initial.None? {
      DuplicateMayBeLost(site);
      var s := Run(site, Start(site), FirstLinks(site) + SecondFindsIt(site));
      EmptyIsOnDisk(site);
      assert !PublicationDurable.Holds(site, map[]);
      assert !PublicationDurable.Durable(site, s);
    } else if !site.Complete(site.initial.value) {
      DuplicateOfReplacement(site);
      assert !PublicationDurable.Holds(site, map[Canonical := Initial]);
    } else {
      forall actions | NothingDeleted(actions)
        ensures PublicationDurable.Durable(site, Run(site, Start(site), actions))
      {
        PublicationFirst.CompleteStartStands(site, actions);
        BoundIsDurable(site, Run(site, Start(site), actions));
      }
    }
  }

  lemma BoundIsDurable(site: Site, s: State)
    requires site.initial.Some? && site.Complete(site.initial.value) && PublicationFirst.AlwaysBound(s, Initial)
    ensures PublicationDurable.Durable(site, s)
  {
    hide Site.Complete;
    forall d | s.OnDisk(d) ensures PublicationDurable.Holds(site, d) { assert PublicationFirst.Bound(d, Initial); }
  }
}
