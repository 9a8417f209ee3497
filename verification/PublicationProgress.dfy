/** When publishing succeeds (apps/server/src/ingest/storage.rs): a call fails only for a failing
    system call of its own, a swept temporary file, a delete or a crash. */
module PublicationProgress {
  import opened Publication
  import opened PublicationWhole

  /** Nothing here stops call `w`: its own system calls succeed, its temporary file is not swept,
      and nothing is deleted and nothing crashes. Removing the temporary file may fail. */
  predicate Kind(a: Action, w: nat) {
    match a
    case Create(v, ok) => v == w ==> ok
    case WriteFails(v) => v != w
    case SyncFile(v, ok) => v == w ==> ok
    case Link(v, ok) => v == w ==> ok
    case Inspect(v, ok) => v == w ==> ok
    case Read(v, ok) => v == w ==> ok
    case LinkQuarantine(v, ok) => v == w ==> ok
    case Rename(v, ok) => v == w ==> ok
    case SyncDir(v, ok) => v == w ==> ok
    case Sweep(v) => v != w
    case Delete | Crash(_, _) => false
    case _ => true
  }

  predicate AllKind(actions: seq<Action>, w: nat) {
    forall k | 0 <= k < |actions| :: Kind(actions[k], w)
  }

  /** The call has not failed, and finds what its next system call needs. */
  ghost predicate Going(s: State, w: nat) {
    match s.Pc(w)
    case Idle => Temp(w) !in s.names && Quarantine(w) !in s.names
    case Writing(_) | Ready => Temp(w) in s.names && Quarantine(w) !in s.names
    case Exists | Regular | Malformed =>
      Temp(w) in s.names && Quarantine(w) !in s.names && Canonical in s.names
    case Quarantined => Temp(w) in s.names
    case Failing | Failed | Dead => false
    case _ => true
  }

  ghost predicate NamesKept(s: State, t: State, w: nat) {
    && (Temp(w) in t.names <==> Temp(w) in s.names)
    && (Quarantine(w) in t.names <==> Quarantine(w) in s.names)
    && (Canonical in s.names ==> Canonical in t.names)
  }

  lemma WritingLeavesNames(site: Site, s: State, a: Action, w: nat)
    requires Writes(a) && !By(a, w)
    ensures NamesKept(s, Next(site, s, a), w)
  {
    hide Site.Record;
  }

  /** What other actors leave a call. */
  lemma NamesLeft(site: Site, s: State, a: Action, w: nat)
    requires Kind(a, w) && !By(a, w)
    ensures NamesKept(s, Next(site, s, a), w)
  {
    hide Site.Record, Site.AcceptedBy, AfterCreate, AfterWrite, AfterSyncFile;
    if Writes(a) { WritingLeavesNames(site, s, a, w); }
  }

  lemma StandingIsThere(site: Site, s: State)
    requires Whole(site, s) && Canonical in s.names
    ensures s.names[Canonical] in s.contents
  {
    hide CallOk, Site.Record;
    assert s.OnDisk(s.names) && SealedEntries(site, s, s.names);
  }

  lemma OwnStepGoes(site: Site, s: State, a: Action, w: nat)
    requires Whole(site, s) && Going(s, w) && Kind(a, w) && By(a, w)
    ensures Going(Next(site, s, a), w)
  {
    hide Site.Record, Site.AcceptedBy, Whole;
    if Canonical in s.names { StandingIsThere(site, s); }
  }

  lemma StepGoes(site: Site, s: State, a: Action, w: nat)
    requires Whole(site, s) && Going(s, w) && Kind(a, w)
    ensures Going(Next(site, s, a), w)
  {
    hide Next, Whole, Kind;
    if By(a, w) {
      OwnStepGoes(site, s, a, w);
    } else {
      KindIsNoCrash(a, w);
      OthersDoNotMove(site, s, a, w);
      NamesLeft(site, s, a, w);
    }
  }

  lemma KindIsNoCrash(a: Action, w: nat)
    requires Kind(a, w)
    ensures !a.Crash? && !a.Delete?
  {
  }

  lemma {:induction false} RunGoes(site: Site, s: State, actions: seq<Action>, w: nat)
    requires site.Valid() && Whole(site, s) && Going(s, w) && AllKind(actions, w)
    ensures Going(Run(site, s, actions), w)
    decreases |actions|
  {
    hide Next, Whole, Going, Kind, Site.Valid;
    if actions != [] {
      var rest := actions[1..];
      forall k | 0 <= k < |rest| ensures Kind(rest[k], w) { assert rest[k] == actions[k + 1]; }
      StepGoes(site, s, actions[0], w);
      WholeKept(site, s, actions[0]);
      RunGoes(site, Next(site, s, actions[0]), rest, w);
    }
  }

  /** A call whose hidden names are fresh never fails, whatever happened before it and whatever
      other publishers do meanwhile, as long as nothing stops it. */
  lemma CallSucceeds(site: Site, history: seq<Action>, during: seq<Action>, w: nat)
    requires site.Valid() && AllKind(during, w)
    requires var s := Run(site, Start(site), history);
      s.Pc(w) == Idle && Temp(w) !in s.names && Quarantine(w) !in s.names
    ensures var pc := Run(site, Run(site, Start(site), history), during).Pc(w);
      !pc.Failing? && !pc.Failed? && !pc.Dead?
  {
    hide Run, Whole, AllKind, Site.Valid;
    var s := Run(site, Start(site), history);
    StartWhole(site);
    RunWhole(site, Start(site), history);
    RunGoes(site, s, during, w);
  }

  // ----- enough steps ------------------------------------------------------------------

  /** The system call that a call makes next. */
  function NextOf(site: Site, s: State, w: nat): Action {
    match s.Pc(w)
    case Idle => Create(w, true)
    case Writing(n) =>
      if n < |site.Record(w)| then Write(w, |site.Record(w)| - n) else SyncFile(w, true)
    case Ready => Link(w, true)
    case Linked | Duplicate | Failing => RemoveTemp(w, true)
    case Exists => Inspect(w, true)
    case Regular => Read(w, true)
    case Malformed => LinkQuarantine(w, true)
    case Quarantined => Rename(w, true)
    case _ => SyncDir(w, true)
  }

  /** How many system calls it may still make, counting what is left to write as one. */
  function Left(site: Site, s: State, w: nat): nat {
    match s.Pc(w)
    case Idle => 11
    case Writing(n) => if n < |site.Record(w)| then 10 else 9
    case Ready => 8
    case Exists => 7
    case Regular => 6
    case Malformed => 5
    case Quarantined => 4
    case Linked | Duplicate | Failing => 3
    case Syncing(_) => 2
    case _ => 0
  }

  lemma NextAdvances(site: Site, s: State, w: nat)
    requires Left(site, s, w) > 0 && CallOk(site, s, w)
    ensures Left(site, Next(site, s, NextOf(site, s, w)), w) < Left(site, s, w)
  {
    hide Site.Record, Site.AcceptedBy, Sealed;
  }

  lemma NextIsKind(site: Site, s: State, w: nat)
    ensures Kind(NextOf(site, s, w), w)
  {
    hide Site.Record;
  }

  lemma NothingLeft(site: Site, s: State, w: nat)
    requires Going(s, w) && Left(site, s, w) == 0
    ensures s.Pc(w).Stored?
  {
  }

  lemma {:induction false} Finishes(site: Site, s: State, w: nat) returns (rest: seq<Action>)
    requires site.Valid() && Whole(site, s) && Going(s, w)
    ensures |rest| <= Left(site, s, w) && AllKind(rest, w) && Run(site, s, rest).Pc(w).Stored?
    decreases Left(site, s, w)
  {
    hide Next, Whole, Going, Kind, Site.Valid, Left, NextOf;
    if Left(site, s, w) == 0 {
      NothingLeft(site, s, w);
      rest := [];
    } else {
      var a := NextOf(site, s, w);
      var t := Next(site, s, a);
      WholeCall(site, s, w);
      NextIsKind(site, s, w);
      NextAdvances(site, s, w);
      StepGoes(site, s, a, w);
      WholeKept(site, s, a);
      var more := Finishes(site, t, w);
      rest := [a] + more;
      assert rest[0] == a && rest[1..] == more;
    }
  }

  lemma WholeCall(site: Site, s: State, w: nat)
    requires Whole(site, s)
    ensures CallOk(site, s, w)
  {
    hide CallOk, SealedEntries;
  }

  /** And at every moment of that it needs at most eleven more system calls of its own to return
      successfully. */
  lemma CallFinishes(site: Site, history: seq<Action>, during: seq<Action>, w: nat) returns (rest: seq<Action>)
    requires site.Valid() && AllKind(during, w)
    requires var s := Run(site, Start(site), history);
      s.Pc(w) == Idle && Temp(w) !in s.names && Quarantine(w) !in s.names
    ensures |rest| <= 11 && AllKind(rest, w)
    ensures Run(site, Run(site, Run(site, Start(site), history), during), rest).Pc(w).Stored?
  {
    hide Run, Whole, AllKind, Site.Valid, Left;
    var s := Run(site, Start(site), history);
    StartWhole(site);
    RunWhole(site, Start(site), history);
    RunGoes(site, s, during, w);
    RunWhole(site, s, during);
    rest := Finishes(site, Run(site, s, during), w);
    AtMostEleven(site, Run(site, s, during), w);
  }

  lemma AtMostEleven(site: Site, s: State, w: nat)
    ensures Left(site, s, w) <= 11
  {
  }
}
