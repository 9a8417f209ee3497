/** The publishers and the sweeper on one clock (apps/server/src/ingest/storage.rs): the grace
    period of orphaned temporary files keeps the files of calls that are still at work. */
module PublicationTiming {
  import opened Wrappers
  import opened FileNames
  import opened Publication
  import opened PublicationWhole
  import opened PublicationProgress
  import Recovery

  /** An action and when it happened, in seconds. */
  datatype Event = Event(action: Action, at: nat)

  predicate InOrder(events: seq<Event>) {
    forall i, j | 0 <= i <= j < |events| :: events[i].at <= events[j].at
  }

  function Actions(events: seq<Event>): (r: seq<Action>)
    ensures |r| == |events| && forall k | 0 <= k < |r| :: r[k] == events[k].action
  {
    seq(|events|, k requires 0 <= k < |events| => events[k].action)
  }

  /** The state before event `n`. */
  ghost function Before(site: Site, events: seq<Event>, n: nat): State
    requires n <= |events|
  {
    Run(site, Start(site), Actions(events)[..n])
  }

  predicate Changes(s: State, t: State, w: nat) {
    Of(w) in t.contents && (Of(w) !in s.contents || s.contents[Of(w)].bytes != t.contents[Of(w)].bytes)
  }

  /** When the file that call `w` made was last changed before event `n`. */
  ghost function Modified(site: Site, events: seq<Event>, n: nat, w: nat): Option<nat>
    requires n <= |events|
  {
    if n == 0 then None
    else if Changes(Before(site, events, n - 1), Before(site, events, n), w) then Some(events[n - 1].at)
    else Modified(site, events, n - 1, w)
  }

  /** The sweeper takes a temporary file only when it finds it older than the grace period. */
  ghost predicate SweepsOrphans(site: Site, ids: nat -> Uuid, events: seq<Event>) {
    forall k | 0 <= k < |events| && events[k].action.Sweep? :: FoundExpired(site, ids, events, k)
  }

  ghost predicate FoundExpired(site: Site, ids: nat -> Uuid, events: seq<Event>, k: nat)
    requires k < |events| && events[k].action.Sweep?
  {
    var w := events[k].action.call;
    var name := TemporaryName(ProjectPendingName(site.project, site.uuid), ids(w));
    var modified := Modified(site, events, k, w);
    && modified.Some? && modified.value <= events[k].at
    && Recovery.Expired(name, map[name := events[k].at - modified.value])
  }

  lemma BeforeNext(site: Site, events: seq<Event>, n: nat)
    requires n < |events|
    ensures Before(site, events, n + 1) == Next(site, Before(site, events, n), events[n].action)
  {
    hide Next;
    var actions := Actions(events);
    assert actions[..n + 1] == actions[..n] + [actions[n]];
    RunConcat(site, Start(site), actions[..n], [actions[n]]);
    assert Run(site, Next(site, Before(site, events, n), actions[n]), []) == Before(site, events, n + 1);
  }

  /** A call that has not begun has made no file. */
  ghost predicate Untouched(s: State, w: nat) {
    s.Pc(w) == Idle ==> Of(w) !in s.contents
  }

  lemma StaysBegun(site: Site, s: State, a: Action, w: nat)
    requires Untouched(s, w)
    ensures Untouched(Next(site, s, a), w)
    ensures Next(site, s, a).Pc(w) == Idle ==> s.Pc(w) == Idle
  {
    hide Site.Record, Site.AcceptedBy, Survivors;
    if !By(a, w) && !a.Crash? { OthersDoNotMove(site, s, a, w); }
  }

  lemma {:induction false} IdleUnmodified(site: Site, events: seq<Event>, n: nat, w: nat)
    requires n <= |events|
    ensures Untouched(Before(site, events, n), w)
    ensures Before(site, events, n).Pc(w) == Idle ==> Modified(site, events, n, w) == None
    decreases n
  {
    hide Before, Next;
    if n == 0 {
      NothingBefore(site, events, w);
    } else {
      IdleUnmodified(site, events, n - 1, w);
      BeforeNext(site, events, n - 1);
      StaysBegun(site, Before(site, events, n - 1), events[n - 1].action, w);
    }
  }

  lemma NothingBefore(site: Site, events: seq<Event>, w: nat)
    ensures Untouched(Before(site, events, 0), w)
  {
  }

  /** What was last changed after event `from` was not changed before it. */
  lemma {:induction false} ModifiedSince(site: Site, events: seq<Event>, from: nat, n: nat, w: nat)
    requires from <= n <= |events| && InOrder(events)
    requires Modified(site, events, from, w) == None
    ensures var m := Modified(site, events, n, w);
      m.Some? ==> from < |events| && events[from].at <= m.value
    decreases n
  {
    hide Before;
    if n > from { ModifiedSince(site, events, from, n - 1, w); }
  }

  /** What is swept has not been written to for at least five minutes. */
  lemma SweptIsOld(site: Site, ids: nat -> Uuid, events: seq<Event>, k: nat)
    requires SweepsOrphans(site, ids, events)
    requires k < |events| && events[k].action.Sweep?
    ensures var modified := Modified(site, events, k, events[k].action.call);
      modified.Some? && modified.value + 300 <= events[k].at
  {
    hide Modified, TemporaryName, ProjectPendingName, IsOrphanedTemporaryFile;
    assert FoundExpired(site, ids, events, k);
  }

  /** Within the grace period of a call's first action its temporary file is not swept. */
  lemma QuickCallIsNotSwept(site: Site, ids: nat -> Uuid, events: seq<Event>, from: nat, k: nat, w: nat)
    requires InOrder(events) && SweepsOrphans(site, ids, events)
    requires from <= k < |events| && Before(site, events, from).Pc(w) == Idle
    requires events[k].at - events[from].at < 300
    ensures events[k].action != Sweep(w)
  {
    hide Before, Modified, SweepsOrphans;
    IdleUnmodified(site, events, from, w);
    ModifiedSince(site, events, from, k, w);
    if events[k].action == Sweep(w) { SweptIsOld(site, ids, events, k); }
  }

  /** Nothing but the sweeper stops call `w`. */
  predicate KindApartFromSweeps(events: seq<Event>, from: nat, w: nat) {
    forall k | from <= k < |events| :: events[k].action == Sweep(w) || Kind(events[k].action, w)
  }

  /** A call that is done within the grace period never fails, if no system call of its own does
      and nothing is deleted and nothing crashes: the sweeper may run at any time. */
  lemma QuickCallSucceeds(site: Site, ids: nat -> Uuid, events: seq<Event>, from: nat, w: nat)
    requires site.Valid() && InOrder(events) && SweepsOrphans(site, ids, events) && from <= |events|
    requires var s := Before(site, events, from);
      s.Pc(w) == Idle && Temp(w) !in s.names && Quarantine(w) !in s.names
    requires KindApartFromSweeps(events, from, w)
    requires forall k | from <= k < |events| :: events[k].at - events[from].at < 300
    ensures var pc := Before(site, events, |events|).Pc(w);
      !pc.Failing? && !pc.Failed? && !pc.Dead?
  {
    hide Run, Site.Valid, SweepsOrphans, Kind;
    var actions := Actions(events);
    var history, during := actions[..from], actions[from..];
    forall k | 0 <= k < |during| ensures Kind(during[k], w) {
      QuickCallIsNotSwept(site, ids, events, from, from + k, w);
      assert during[k] == events[from + k].action;
    }
    assert actions[..|events|] == history + during;
    RunConcat(site, Start(site), history, during);
    CallSucceeds(site, history, during, w);
  }
}
