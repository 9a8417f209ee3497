/** What a call leaves behind, and what other actors take away (apps/server/src/ingest/storage.rs). */
module PublicationCleanup {
  import opened Wrappers
  import opened Publication
  import opened PublicationWhole

  /** Nothing here keeps call `w` from clearing up: no removal of its own fails and nothing crashes. */
  predicate Tidy(a: Action, w: nat) {
    !a.Crash? && a != RemoveTemp(w, false)
  }

  predicate AllTidy(actions: seq<Action>, w: nat) {
    forall k | 0 <= k < |actions| :: Tidy(actions[k], w)
  }

  /** A call has no temporary file before it has made one, and none once it is done with it. */
  ghost predicate Clean(s: State, w: nat) {
    match s.Pc(w)
    case Idle | Syncing(_) | Stored(_) | Failed => Temp(w) !in s.names
    case _ => true
  }

  lemma OwnStepClean(site: Site, s: State, a: Action, w: nat)
    requires Clean(s, w) && Tidy(a, w) && By(a, w)
    ensures Clean(Next(site, s, a), w)
  {
    hide Site.Record, Site.AcceptedBy;
  }

  lemma OtherStepClean(site: Site, s: State, a: Action, w: nat)
    requires Clean(s, w) && Tidy(a, w) && !By(a, w)
    ensures Clean(Next(site, s, a), w)
  {
    hide Site.Record, Site.AcceptedBy, AfterCreate, AfterWrite, AfterSyncFile;
    OthersDoNotMove(site, s, a, w);
    if Writes(a) { WritingMakesNoOther(site, s, a, w); }
  }

  lemma WritingMakesNoOther(site: Site, s: State, a: Action, w: nat)
    requires Writes(a) && !By(a, w)
    ensures Temp(w) in Next(site, s, a).names ==> Temp(w) in s.names
  {
    hide Site.Record;
  }

  lemma {:induction false} RunClean(site: Site, s: State, actions: seq<Action>, w: nat)
    requires Clean(s, w) && AllTidy(actions, w)
    ensures Clean(Run(site, s, actions), w)
    decreases |actions|
  {
    hide Next, Clean, Tidy;
    if actions != [] {
      var rest := actions[1..];
      forall k | 0 <= k < |rest| ensures Tidy(rest[k], w) { assert rest[k] == actions[k + 1]; }
      if By(actions[0], w) { OwnStepClean(site, s, actions[0], w); } else { OtherStepClean(site, s, actions[0], w); }
      RunClean(site, Next(site, s, actions[0]), rest, w);
    }
  }

  /** Whatever happened before and whatever others do meanwhile, a call that returns, successfully
      or not, leaves no temporary file, unless removing it failed or a crash intervened. */
  lemma NothingLeftBehind(site: Site, history: seq<Action>, during: seq<Action>, w: nat)
    requires AllTidy(during, w)
    requires var s := Run(site, Start(site), history); s.Pc(w) == Idle && Temp(w) !in s.names
    ensures var s := Run(site, Run(site, Start(site), history), during);
      s.Pc(w).Stored? || s.Pc(w).Failed? ==> Temp(w) !in s.names
  {
    hide Run, AllTidy;
    RunClean(site, Run(site, Start(site), history), during, w);
  }

  // ----- system calls that fail --------------------------------------------------------

  /** A system call that fails. */
  predicate Fails(a: Action) {
    match a
    case WriteFails(_) => true
    case Write(_, _) | Delete | Sweep(_) | Crash(_, _) => false
    case _ => !a.ok
  }

  /** It leaves the directory and every file as they were, and takes its call no further unless it
      was only to remove the temporary file. */
  lemma FailureChangesNothing(site: Site, s: State, a: Action)
    requires Fails(a)
    ensures var t := Next(site, s, a); t.names == s.names && t.contents == s.contents && t.journal == s.journal
    ensures var pc := Next(site, s, a).Pc(a.w);
      a.RemoveTemp? || pc == s.Pc(a.w) || pc == Failing || pc == Failed
  {
    hide Site.Record, Site.AcceptedBy;
  }

  /** A temporary file is made only where there is none, and starts empty. */
  lemma CreatesOnlyNew(site: Site, s: State, w: nat, ok: bool)
    requires s.Pc(w) == Idle
    ensures var t := Next(site, s, Create(w, ok));
      && t.Pc(w) == (if ok && Temp(w) !in s.names then Writing(0) else Failing)
      && (t.Pc(w).Failing? ==> t.names == s.names && t.contents == s.contents)
      && (t.Pc(w).Writing? ==> t.names == s.names[Temp(w) := Of(w)]
                               && t.contents == s.contents[Of(w) := Content([], false, false)])
  {
  }

  // ----- what others take away ---------------------------------------------------------

  /** A deleter leaves no record, the sweeper no temporary file; neither touches anything else, and
      calls go on as they were. */
  lemma TakenAway(site: Site, s: State, w: nat, n: Name)
    ensures var t := Next(site, s, Delete);
      Canonical !in t.names && t.pcs == s.pcs
      && (n != Canonical ==> (n in t.names <==> n in s.names) && (n in s.names ==> t.names[n] == s.names[n]))
    ensures var t := Next(site, s, Sweep(w));
      Temp(w) !in t.names && t.pcs == s.pcs
      && (n != Temp(w) ==> (n in t.names <==> n in s.names) && (n in s.names ==> t.names[n] == s.names[n]))
  {
  }

  /** What a crash may leave of a file that has not been synced is anything at all, and of one that
      has, what it held. */
  lemma CrashTears(site: Site, s: State, o: Object, bytes: seq<byte>)
    requires o in s.contents
    ensures var c := Next(site, s, Crash(s.names, map[o := bytes])).contents;
      o in c && c[o].bytes == if s.contents[o].synced then s.contents[o].bytes else bytes
  {
    KeepingIsPossible(s);
  }

  lemma KeepingIsPossible(s: State)
    ensures Survivors(s, s.names)
  {
    forall n ensures Survives(s, s.names, n) { assert s.OnDisk(s.names) && Agree(s.names, s.names, n); }
  }

  /** No call goes on over a crash: one that had not returned never does. */
  lemma CrashEndsAll(site: Site, s: State, survivors: Entries, w: nat)
    requires Survivors(s, survivors)
    ensures var pc := Next(site, s, Crash(survivors, map[])).Pc(w);
      if s.Pc(w).Idle? || s.Pc(w).Stored? || s.Pc(w).Failed? then pc == s.Pc(w) else pc == Dead
  {
    hide Survivors;
  }
}
