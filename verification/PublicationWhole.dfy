/** No half-written record is ever visible, in any run of publishers, deleters, the sweeper and
    crashes (apps/server/src/ingest/storage.rs). */
module PublicationWhole {
  import opened Wrappers
  import opened Publication

  /** The first inode as it was, or a call's whole record, on disk. */
  ghost predicate Sealed(site: Site, s: State, o: Object) {
    match o
    case Initial => site.initial.Some? && o in s.contents && s.contents[o] == site.initial.value
    case Of(w) => o in s.contents && s.contents[o] == Content(site.Record(w), true, false)
  }

  ghost predicate SealedEntries(site: Site, s: State, d: Entries) {
    forall n | n in d :: if n.Temp? then d[n] == Of(n.call) else Sealed(site, s, d[n])
  }

  ghost predicate CallOk(site: Site, s: State, w: nat) {
    match s.Pc(w)
    case Idle => Of(w) !in s.contents
    case Writing(n) =>
      && n <= |site.Record(w)| && Of(w) in s.contents
      && s.contents[Of(w)] == Content(site.Record(w)[..n], false, false)
    case Failing | Duplicate | Stored(_) | Failed | Dead => true
    case _ => Sealed(site, s, Of(w))
  }

  ghost predicate Whole(site: Site, s: State) {
    && (forall d | s.OnDisk(d) :: SealedEntries(site, s, d))
    && (forall w :: CallOk(site, s, w))
  }

  lemma StartWhole(site: Site)
    requires site.Valid()
    ensures Whole(site, Start(site))
  {
  }

  /** What is sealed stays as it is. */
  lemma SealedKept(site: Site, s: State, a: Action, o: Object)
    requires site.Valid() && (forall w :: CallOk(site, s, w)) && Sealed(site, s, o)
    ensures Sealed(site, Next(site, s, a), o)
  {
    hide Site.Record, Site.ForThis, Survivors;
    if o.Of? { assert CallOk(site, s, o.call); }
  }

  lemma SealedEntriesKept(site: Site, s: State, a: Action, d: Entries)
    requires site.Valid() && (forall w :: CallOk(site, s, w)) && SealedEntries(site, s, d)
    ensures SealedEntries(site, Next(site, s, a), d)
  {
    hide Next, Sealed, CallOk, Site.Valid;
    forall n | n in d && !n.Temp? ensures Sealed(site, Next(site, s, a), d[n]) {
      SealedKept(site, s, a, d[n]);
    }
  }

  lemma OwnCallKept(site: Site, s: State, a: Action, w: nat)
    requires CallOk(site, s, w) && By(a, w)
    ensures CallOk(site, Next(site, s, a), w)
  {
    hide Site.Record, Site.AcceptedBy;
  }

  lemma CallKept(site: Site, s: State, a: Action, w: nat)
    requires site.Valid() && CallOk(site, s, w)
    ensures CallOk(site, Next(site, s, a), w)
  {
    hide Site.Record, Site.Valid, Next, Survivors, Site.AcceptedBy;
    if a.Crash? {
      CallKeptInCrash(site, s, a, w);
    } else if By(a, w) {
      OwnCallKept(site, s, a, w);
    } else {
      OthersDoNotMove(site, s, a, w);
    }
  }

  lemma CallKeptInCrash(site: Site, s: State, a: Action, w: nat)
    requires CallOk(site, s, w) && a.Crash?
    ensures CallOk(site, Next(site, s, a), w)
  {
    hide Site.Record, Survivors;
  }

  lemma NewEntriesSealed(site: Site, s: State, a: Action)
    requires site.Valid() && Whole(site, s) && !a.Crash?
    ensures SealedEntries(site, Next(site, s, a), Next(site, s, a).names)
  {
    hide Site.Record, Site.ForThis, Survivors, Sealed;
    var t := Next(site, s, a);
    SealedEntriesKept(site, s, a, s.names);
    if a.Link? || a.Rename? {
      assert CallOk(site, s, a.w);
      if s.Pc(a.w).Ready? || s.Pc(a.w).Quarantined? { SealedKept(site, s, a, Of(a.w)); }
    }
  }

  lemma CrashEntriesSealed(site: Site, s: State, survivors: Entries, torn: map<Object, seq<byte>>)
    requires site.Valid() && Whole(site, s) && Survivors(s, survivors)
    ensures SealedEntries(site, Crashed(s, survivors, torn), survivors)
  {
    hide Sealed, CallOk, Site.Valid, Crashed;
    var a := Crash(survivors, torn);
    forall n | n in survivors
      ensures if n.Temp? then survivors[n] == Of(n.call) else Sealed(site, Crashed(s, survivors, torn), survivors[n])
    {
      assert Survives(s, survivors, n);
      var d :| s.OnDisk(d) && Agree(d, survivors, n);
      assert SealedEntries(site, s, d);
      if !n.Temp? { SealedKept(site, s, a, survivors[n]); }
    }
  }

  lemma WholeKept(site: Site, s: State, a: Action)
    requires site.Valid() && Whole(site, s)
    ensures Whole(site, Next(site, s, a))
  {
    hide Next, SealedEntries, CallOk, Site.Valid;
    var t := Next(site, s, a);
    forall w ensures CallOk(site, t, w) { CallKept(site, s, a, w); }
    forall d | t.OnDisk(d) ensures SealedEntries(site, t, d) {
      if s.OnDisk(d) {
        SealedEntriesKept(site, s, a, d);
      } else {
        DiskAfter(site, s, a, d);
        if a.Crash? {
          CrashEntriesSealed(site, s, a.survivors, a.torn);
        } else {
          NewEntriesSealed(site, s, a);
        }
      }
    }
  }

  /** A step adds no other state to the disk than the one it leads to. */
  lemma DiskAfter(site: Site, s: State, a: Action, d: Entries)
    requires Next(site, s, a).OnDisk(d) && !s.OnDisk(d)
    ensures d == Next(site, s, a).names
    ensures a.Crash? ==> Survivors(s, a.survivors) && d == a.survivors
    ensures a.Crash? ==> Next(site, s, a) == Crashed(s, a.survivors, a.torn)
  {
    hide Site.Record, Survivors;
  }

  lemma {:induction false} RunWhole(site: Site, s: State, actions: seq<Action>)
    requires site.Valid() && Whole(site, s)
    ensures Whole(site, Run(site, s, actions))
    decreases |actions|
  {
    hide Next, Whole, Site.Valid;
    if actions != [] {
      WholeKept(site, s, actions[0]);
      RunWhole(site, Next(site, s, actions[0]), actions[1..]);
    }
  }

  lemma TempIsOwn(site: Site, s: State, w: nat)
    requires Whole(site, s) && Temp(w) in s.names
    ensures s.names[Temp(w)] == Of(w)
  {
    assert s.OnDisk(s.names);
  }

  /** What stands under the canonical name. */
  function Standing(s: State): Option<Content> {
    if Canonical in s.names && s.names[Canonical] in s.contents then Some(s.contents[s.names[Canonical]]) else None
  }

  ghost predicate WrittenBy(site: Site, w: nat, c: Content) {
    c == Content(site.Record(w), true, false)
  }

  /** In every run, crashes, deleters and sweeper included, the canonical name is absent, or
      holds what it held at first, or one call's whole record, which is complete. */
  lemma NeverHalfWritten(site: Site, actions: seq<Action>)
    requires site.Valid()
    ensures var s := Run(site, Start(site), actions);
      || Canonical !in s.names
      || (Standing(s).Some? && Standing(s) == site.initial)
      || (Standing(s).Some? && site.Complete(Standing(s).value) && exists w :: WrittenBy(site, w, Standing(s).value))
  {
    hide CallOk, Site.Valid, Site.Complete, Site.Record, Run;
    StartWhole(site);
    RunWhole(site, Start(site), actions);
    var s := Run(site, Start(site), actions);
    if Canonical in s.names {
      assert s.OnDisk(s.names) && SealedEntries(site, s, s.names);
      if s.names[Canonical].Of? {
        WrittenIsComplete(site, s.names[Canonical].call);
        assert WrittenBy(site, s.names[Canonical].call, Standing(s).value);
      }
    }
  }
}
