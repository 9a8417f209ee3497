/** When a call that returns because the event is already there may rely on it
    (apps/server/src/ingest/storage.rs), after any history. */
module PublicationDuplicates {
  import opened Wrappers
  import opened Publication
  import opened PublicationWhole
  import opened PublicationDurable
  import opened PublicationLimits

  /** Every state of the directory that a crash could bring back still can. */
  ghost predicate KeepsOnDisk(s: State, t: State) {
    forall d | s.OnDisk(d) :: t.OnDisk(d)
  }

  lemma LongerJournal(s: State, t: State)
    requires s.journal + [s.names] <= t.journal
    ensures KeepsOnDisk(s, t)
  {
    forall d | s.OnDisk(d) ensures t.OnDisk(d) {
      assert d in s.journal + [s.names];
      var i :| 0 <= i < |s.journal + [s.names]| && (s.journal + [s.names])[i] == d;
      assert t.journal[i] == d;
    }
  }

  // ----- calls not used yet ------------------------------------------------------------

  function CallsIn(names: set<Name>): set<nat> {
    set n | n in names && !n.Canonical? :: n.call
  }

  lemma CallCounts(names: set<Name>, n: Name)
    requires !n.Canonical?
    ensures n in names ==> n.call in CallsIn(names)
  {
  }

  lemma {:induction false} AboveAll(calls: set<nat>) returns (w: nat)
    ensures forall v | v in calls :: v < w
    decreases |calls|
  {
    if calls == {} {
      w := 0;
    } else {
      var v := Pick(calls);
      assert calls == {v} + (calls - {v});
      w := AboveAll(calls - {v});
      if w <= v { w := v + 1; }
    }
  }

  predicate Unused(s: State, w: nat) {
    w !in s.pcs && Temp(w) !in s.names && Quarantine(w) !in s.names
  }

  lemma UnusedCall(s: State) returns (w: nat)
    ensures Unused(s, w)
  {
    w := AboveAll(s.pcs.Keys + CallsIn(s.names.Keys));
    CallCounts(s.names.Keys, Temp(w));
    CallCounts(s.names.Keys, Quarantine(w));
  }

  // ----- a call that finds a record ----------------------------------------------------

  function FindsIt(site: Site, w: nat): seq<Action> {
    Prepare(site, w) + LooksAndReturns(w)
  }

  lemma Accepts(site: Site, s: State, w: nat)
    requires site.Valid() && s.Pc(w) == Ready && Temp(w) in s.names && Canonical in s.names
    requires Standing(s).Some? && site.Complete(Standing(s).value)
    ensures AfterRead(site, AfterInspect(AfterLink(s, w, true), w, true), w, true) == s.Move(w, Duplicate)
  {
    hide Site.Record, Site.AcceptedBy, Site.Valid;
    SpellingIrrelevant(site, w, Standing(s).value);
    assert s.Move(w, Exists).Move(w, Regular).Move(w, Duplicate) == s.Move(w, Duplicate);
  }

  lemma Returns(s: State, w: nat)
    ensures var t := AfterRemoveTemp(s.Move(w, Duplicate), w, true);
      t.Pc(w) == Stored(ByDuplicate) && s.journal <= t.journal
  {
  }

  lemma DuplicateReturns(site: Site, s: State, w: nat)
    requires site.Valid() && Whole(site, s) && Holds(site, s.names) && Unused(s, w)
    ensures var t := Run(site, s, FindsIt(site, w)); t.Pc(w) == Stored(ByDuplicate) && KeepsOnDisk(s, t)
  {
    hide Site.Record, Site.Valid, Site.Complete, Run, AfterLink, AfterInspect, AfterRead, AfterRemoveTemp, Prepare,
        Whole, Standing, LooksAndReturns;
    var t := Run(site, s, Prepare(site, w));
    Prepared(site, s, w);
    RunWhole(site, s, Prepare(site, w));
    HoldsComplete(site, t);
    RunConcat(site, s, Prepare(site, w), LooksAndReturns(w));
    LooksRun(site, t, w);
    Accepts(site, t, w);
    Returns(t, w);
    LongerJournal(s, Run(site, t, LooksAndReturns(w)));
  }

  // ----- putting a sound record there --------------------------------------------------

  /** A state reached by one more call, which put its record in place and has not synced. */
  ghost predicate PutInPlace(s: State, t: State, v: nat) {
    && Canonical in t.names && t.names[Canonical] == Of(v)
    && KeepsOnDisk(s, t) && forall w | w != v :: t.Pc(w) == s.Pc(w)
  }

  lemma LinksFirst(site: Site, s: State, v: nat)
    requires Unused(s, v) && Canonical !in s.names
    ensures PutInPlace(s, Run(site, s, Prepare(site, v) + [Link(v, true)]), v)
  {
    hide Site.Record, Run, Prepare;
    var t := Run(site, s, Prepare(site, v));
    Prepared(site, s, v);
    RunConcat(site, s, Prepare(site, v), [Link(v, true)]);
    OneStep(site, t, Link(v, true));
    LongerJournal(s, AfterLink(t, v, true));
  }

  lemma ReplacesFirst(site: Site, s: State, v: nat)
    requires site.Valid() && StillMalformed(site, s) && Unused(s, v)
    ensures PutInPlace(s, Run(site, s, ReadyToReplace(site, v) + Swaps(v)), v)
  {
    hide Site.Valid, Run, ReadyToReplace, Swaps, Site.Complete;
    var t := Run(site, s, ReadyToReplace(site, v));
    AboutToReplace(site, s, v);
    RunConcat(site, s, ReadyToReplace(site, v), Swaps(v));
    Swapped(site, t, v);
    var u := Run(site, t, Swaps(v));
    assert t.journal <= u.journal;
    LongerJournal(s, u);
  }

  lemma MalformedStands(site: Site, s: State)
    requires Whole(site, s) && Canonical in s.names && !Sound(site, s.names[Canonical])
    ensures StillMalformed(site, s)
  {
    hide CallOk, Site.Complete;
    assert s.OnDisk(s.names) && SealedEntries(site, s, s.names);
  }

  lemma RunsDeleteNothing(site: Site, v: nat)
    ensures NothingDeleted(FindsIt(site, v))
    ensures NothingDeleted(Prepare(site, v) + [Link(v, true)])
    ensures NothingDeleted(ReadyToReplace(site, v) + Swaps(v))
  {
    hide Site.Record;
  }

  lemma NothingDeletedConcat(a: seq<Action>, b: seq<Action>)
    requires NothingDeleted(a) && NothingDeleted(b)
    ensures NothingDeleted(a + b)
  {
  }

  /** From any state some delete-free run makes a sound record stand, whatever it needs. */
  lemma SomebodyStores(site: Site, s: State) returns (actions: seq<Action>)
    requires site.Valid() && Whole(site, s)
    ensures NothingDeleted(actions)
    ensures var t := Run(site, s, actions);
      Whole(site, t) && Holds(site, t.names) && KeepsOnDisk(s, t) && s.pcs.Keys <= t.pcs.Keys
  {
    hide Site.Valid, Whole, Run, Site.Complete, NothingDeleted, Prepare, ReadyToReplace, Swaps;
    var v := UnusedCall(s);
    RunsDeleteNothing(site, v);
    if Holds(site, s.names) {
      actions := [];
      NothingToRun(site, s);
    } else if Canonical !in s.names {
      actions := Prepare(site, v) + [Link(v, true)];
      LinksFirst(site, s, v);
    } else {
      actions := ReadyToReplace(site, v) + Swaps(v);
      MalformedStands(site, s);
      ReplacesFirst(site, s, v);
    }
    RunWhole(site, s, actions);
    RunKeepsCalls(site, s, actions);
  }

  lemma NothingToRun(site: Site, s: State)
    ensures Run(site, s, []) == s && NothingDeleted([])
  {
  }

  lemma {:induction false} RunKeepsCalls(site: Site, s: State, actions: seq<Action>)
    ensures s.pcs.Keys <= Run(site, s, actions).pcs.Keys
    decreases |actions|
  {
    hide Next;
    if actions != [] {
      StepKeepsCalls(site, s, actions[0]);
      RunKeepsCalls(site, Next(site, s, actions[0]), actions[1..]);
    }
  }

  lemma StepKeepsCalls(site: Site, s: State, a: Action)
    ensures s.pcs.Keys <= Next(site, s, a).pcs.Keys
  {
    hide Site.Record, Site.AcceptedBy, Survivors;
  }

  // ----- exactly when ------------------------------------------------------------------

  lemma LossyRun(site: Site, s: State) returns (actions: seq<Action>, w: nat)
    requires site.Valid() && Whole(site, s) && !Durable(site, s)
    ensures NothingDeleted(actions) && s.Pc(w) == Idle
    ensures Run(site, s, actions).Pc(w) == Stored(ByDuplicate) && !Durable(site, Run(site, s, actions))
  {
    hide Site.Valid, Whole, Run, NothingDeleted, FindsIt, Holds;
    var first := SomebodyStores(site, s);
    var t := Run(site, s, first);
    w := UnusedCall(t);
    DuplicateReturns(site, t, w);
    RunsDeleteNothing(site, w);
    actions := first + FindsIt(site, w);
    NothingDeletedConcat(first, FindsIt(site, w));
    RunConcat(site, s, first, FindsIt(site, w));
  }

  /** Every call that from here on returns through the duplicate exit may rely on the record:
      no crash can lose it until it is deleted. */
  ghost predicate DuplicatesSafe(site: Site, s: State) {
    forall during, w | NothingDeleted(during) && s.Pc(w) == Idle && Run(site, s, during).Pc(w) == Stored(ByDuplicate)
      :: Durable(site, Run(site, s, during))
  }

  /** After any history, deletes and crashes included: they may exactly when the record is already
      safe from every crash. */
  lemma DuplicatesSafeExactly(site: Site, history: seq<Action>)
    requires site.Valid()
    ensures var s := Run(site, Start(site), history); DuplicatesSafe(site, s) <==> Durable(site, s)
  {
    hide Site.Valid, Whole, Run, NothingDeleted, Durable, CallDurable;
    var s := Run(site, Start(site), history);
    StartWhole(site);
    RunWhole(site, Start(site), history);
    if Durable(site, s) {
      forall during, w | NothingDeleted(during) && s.Pc(w) == Idle ensures Durable(site, Run(site, s, during)) {
        IdleIsDurable(site, s, w);
        RunDurable(site, s, during, w);
      }
    } else {
      var during, w := LossyRun(site, s);
    }
  }

  lemma IdleIsDurable(site: Site, s: State, w: nat)
    requires s.Pc(w) == Idle
    ensures CallDurable(site, s, w)
  {
  }
}
