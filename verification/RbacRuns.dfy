/** Runs of changes, seen from any group of actors: what they hand out among themselves never lets
    them do more than they could, but on projects they create, and there only what they could on
    another (apps/server/src/auth/rbac.rs). */
module RbacRuns {
  import opened Wrappers
  import opened Rbac
  import opened RbacWorkspace
  import opened RbacOrigins
  import opened RbacCreation

  type Group = iset<Actor>

  /** Some actor of the group can, or some open invitation lets its receiver. */
  ghost predicate GroupCan(ws: Workspace, group: Group, r: Resource, a: Action, q: Option<int>) {
    || (exists actor :: actor in group && AccessOf(ws, actor).Can(r, a, q))
    || InvitationCan(ws, r, a, q)
  }

  ghost predicate InvitationCan(ws: Workspace, r: Resource, a: Action, q: Option<int>) {
    exists i :: i in ws.invitations && HolderAccess(ws, ws.invitations[i]).Can(r, a, q)
  }

  ghost predicate GroupSomewhere(ws: Workspace, group: Group, r: Resource, a: Action) {
    exists q :: GroupCan(ws, group, r, a, Some(q))
  }

  ghost predicate MadeBy(group: Group, c: Change) {
    MakerOf(c).Some? ==> MakerOf(c).value.0 in group
  }

  ghost predicate AllMadeBy(group: Group, changes: seq<Change>) {
    forall k | 0 <= k < |changes| :: MadeBy(group, changes[k])
  }

  function CreatedBy(c: Change): set<int> {
    if c.CreateProject? then {c.id} else {}
  }

  function Created(changes: seq<Change>): set<int> {
    if changes == [] then {} else CreatedBy(changes[0]) + Created(changes[1..])
  }

  /** The power is one on a created project, of a kind the group had on another. */
  ghost predicate OnCreated(ws: Workspace, group: Group, created: set<int>, r: Resource, a: Action, q: Option<int>) {
    q.Some? && q.value in created && r.ScopeOf() == Scope.Project && GroupSomewhere(ws, group, r, a)
  }

  // ----- one change ------------------------------------------------------------------

  lemma UserAfter(ws: Workspace, c: Change, user: nat, r: Resource, a: Action, q: Option<int>)
    requires RolesCatalogued(ws) && !c.CreateProject? && AccessOf(Apply(ws, c), Some(user)).Can(r, a, q)
    ensures AccessOf(ws, Some(user)).Can(r, a, q) || MakerCan(ws, c, r, a, q)
         || (Accepts(ws, c, user) && HolderAccess(ws, ws.invitations[c.invitation]).Can(r, a, q))
  {
    hide Apply, RolesCatalogued, HolderAccess, Access.Can, Derived, MakerCan;
    OutsidersCannot(Apply(ws, c), Some(user), r, a, q);
    UserDerived(ws, c, user);
    DerivedCan(ws, c, UserBefore(ws, c, user), Apply(ws, c).holders[user], r, a, q);
  }

  lemma OwnerlessAfter(ws: Workspace, c: Change, r: Resource, a: Action, q: Option<int>)
    requires AccessOf(Apply(ws, c), None).Can(r, a, q)
    ensures AccessOf(ws, None).Can(r, a, q)
  {
    hide HolderAccess, Access.Can, MayGive, MayOwn, MayCreate;
    var after := Apply(ws, c);
    OutsidersCannot(after, None, r, a, q);
    UseHasPlace(AccessOf(after, None), r, a, q);
    AdminCan(ws, OWNERLESS, r, a, q);
  }

  /** What an actor can do after a change they could do before, or its maker could, through the
      token they used, or the invitation that they accepted let them, or it is on the project
      they created by it and they could do it on another. */
  lemma NoEscalationByOneChange(ws: Workspace, c: Change, actor: Actor, r: Resource, a: Action, q: Option<int>)
    requires RolesCatalogued(ws)
    ensures RolesCatalogued(Apply(ws, c))
    ensures AccessOf(Apply(ws, c), actor).Can(r, a, q) ==>
      || AccessOf(ws, actor).Can(r, a, q)
      || MakerCan(ws, c, r, a, q)
      || (actor.Some? && Accepts(ws, c, actor.value) && HolderAccess(ws, ws.invitations[c.invitation]).Can(r, a, q))
      || (c.CreateProject? && actor == c.creator
          && q == Some(c.id) && r.ScopeOf() == Scope.Project && CreatorCan(ws, actor, r, a))
  {
    hide Apply, RolesCatalogued, HolderAccess, AccessOf, Access.Can, Extends, MakerCan, Accepts, CreatorCan;
    RolesStayCatalogued(ws, c);
    if AccessOf(Apply(ws, c), actor).Can(r, a, q) {
      if c.CreateProject? {
        CreationAddsExactly(ws, c.creator, c.cap, c.id, actor, r, a, q);
      } else if actor.Some? {
        UserAfter(ws, c, actor.value, r, a, q);
      } else {
        OwnerlessAfter(ws, c, r, a, q);
      }
    }
  }

  lemma InvitationAfter(ws: Workspace, c: Change, r: Resource, a: Action, q: Option<int>)
    requires RolesCatalogued(ws) && InvitationCan(Apply(ws, c), r, a, q)
    ensures InvitationCan(ws, r, a, q) || MakerCan(ws, c, r, a, q)
  {
    hide Apply, RolesCatalogued, HolderAccess, Access.Can, Derived, MakerCan;
    var i :| i in Apply(ws, c).invitations && HolderAccess(Apply(ws, c), Apply(ws, c).invitations[i]).Can(r, a, q);
    InvitationDerived(ws, c, i);
    DerivedCan(ws, c, InvitationBefore(ws, i), Apply(ws, c).invitations[i], r, a, q);
  }

  lemma MakerInGroup(ws: Workspace, group: Group, c: Change, r: Resource, a: Action, q: Option<int>)
    requires MadeBy(group, c) && MakerCan(ws, c, r, a, q)
    ensures GroupCan(ws, group, r, a, q)
  {
    hide Access.Can, AccessOf, InvitationCan;
    ThroughIsLess(ws, MakerOf(c).value.0, MakerOf(c).value.1, r, a, q);
  }

  lemma CreatorInGroup(ws: Workspace, group: Group, actor: Actor, r: Resource, a: Action)
    requires actor in group && CreatorCan(ws, actor, r, a)
    ensures GroupSomewhere(ws, group, r, a)
  {
    hide Access.Can, AccessOf, InvitationCan;
    var q :| AccessOf(ws, actor).Can(r, a, Some(q));
    assert GroupCan(ws, group, r, a, Some(q));
  }

  lemma GroupByOneChange(ws: Workspace, group: Group, c: Change, r: Resource, a: Action, q: Option<int>)
    requires RolesCatalogued(ws) && MadeBy(group, c) && GroupCan(Apply(ws, c), group, r, a, q)
    ensures GroupCan(ws, group, r, a, q) || OnCreated(ws, group, CreatedBy(c), r, a, q)
  {
    hide Apply, RolesCatalogued, HolderAccess, AccessOf, Access.Can, MadeBy, MakerCan, CreatorCan, GroupSomewhere;
    if InvitationCan(Apply(ws, c), r, a, q) {
      InvitationAfter(ws, c, r, a, q);
    } else {
      var actor :| actor in group && AccessOf(Apply(ws, c), actor).Can(r, a, q);
      NoEscalationByOneChange(ws, c, actor, r, a, q);
      if c.CreateProject? && actor == c.creator && CreatorCan(ws, actor, r, a) {
        CreatorInGroup(ws, group, actor, r, a);
      }
    }
    if MakerCan(ws, c, r, a, q) { MakerInGroup(ws, group, c, r, a, q); }
  }

  lemma SomewhereByOneChange(ws: Workspace, group: Group, c: Change, r: Resource, a: Action)
    requires RolesCatalogued(ws) && MadeBy(group, c)
    ensures GroupSomewhere(Apply(ws, c), group, r, a) ==> GroupSomewhere(ws, group, r, a)
  {
    hide Apply, RolesCatalogued, GroupCan, MadeBy;
    if GroupSomewhere(Apply(ws, c), group, r, a) {
      var q :| GroupCan(Apply(ws, c), group, r, a, Some(q));
      GroupByOneChange(ws, group, c, r, a, Some(q));
    }
  }

  // ----- runs ------------------------------------------------------------------------

  /** Over every run of changes whose makers are all in a group, acting directly or through any
      token: what the group and open invitations can do at the end they could at the start, but on
      projects created in the run only that they could do it on some project. With the owners left
      out of the group this bounds what members can do for each other, with one user added what
      they can do for that user. */
  lemma {:induction false} NoEscalation(ws: Workspace, group: Group, changes: seq<Change>, r: Resource, a: Action,
                                        q: Option<int>)
    requires RolesCatalogued(ws)
    ensures AllMadeBy(group, changes) && GroupCan(Run(ws, changes), group, r, a, q)
        ==> GroupCan(ws, group, r, a, q) || OnCreated(ws, group, Created(changes), r, a, q)
    decreases |changes|
  {
    hide Apply, RolesCatalogued, GroupCan, GroupSomewhere, MadeBy;
    if changes != [] && AllMadeBy(group, changes) {
      var c, next, rest := changes[0], Apply(ws, changes[0]), changes[1..];
      forall k | 0 <= k < |rest| ensures MadeBy(group, rest[k]) { assert rest[k] == changes[k + 1]; }
      AfterIsCatalogued(ws, c);
      NoEscalation(next, group, rest, r, a, q);
      if GroupCan(next, group, r, a, q) { GroupByOneChange(ws, group, c, r, a, q); }
      SomewhereByOneChange(ws, group, c, r, a);
    }
  }

  lemma AfterIsCatalogued(ws: Workspace, c: Change)
    requires RolesCatalogued(ws)
    ensures RolesCatalogued(Apply(ws, c))
  {
    RolesStayCatalogued(ws, c);
  }

  // ----- owners ----------------------------------------------------------------------

  ghost predicate ActorOwns(ws: Workspace, actor: Actor) {
    HolderOf(ws, actor).Some? && HolderOf(ws, actor).value.admin
  }

  /** Some actor of the group, or some open invitation, is an owner's. */
  ghost predicate GroupOwns(ws: Workspace, group: Group) {
    || (exists actor :: actor in group && ActorOwns(ws, actor))
    || (exists i :: i in ws.invitations && ws.invitations[i].admin)
  }

  lemma MakerOwnsInGroup(ws: Workspace, group: Group, c: Change)
    requires MadeBy(group, c) && MakerOwns(ws, c)
    ensures GroupOwns(ws, group)
  {
    hide MayOwn;
    var (maker, cap) := MakerOf(c).value;
    MakerOfOwnersIsOne(ws, maker, cap);
    assert maker in group && ActorOwns(ws, maker);
  }

  lemma CreationMakesNoOwner(ws: Workspace, c: Change, actor: Actor)
    requires c.CreateProject? && ActorOwns(Apply(ws, c), actor)
    ensures ActorOwns(ws, actor)
  {
    hide MayCreate;
  }

  lemma OwnersByOneChange(ws: Workspace, group: Group, c: Change)
    requires MadeBy(group, c) && GroupOwns(Apply(ws, c), group)
    ensures GroupOwns(ws, group)
  {
    hide Apply, MadeBy, MakerOwns, Derived;
    var after := Apply(ws, c);
    if i :| i in after.invitations && after.invitations[i].admin {
      InvitationDerived(ws, c, i);
      DerivedOwner(ws, c, InvitationBefore(ws, i), after.invitations[i]);
    } else {
      var actor :| actor in group && ActorOwns(after, actor);
      if c.CreateProject? {
        CreationMakesNoOwner(ws, c, actor);
      } else if actor.None? {
        OwnerlessStays(ws, c);
      } else {
        UserDerived(ws, c, actor.value);
        DerivedOwner(ws, c, UserBefore(ws, c, actor.value), after.holders[actor.value]);
        assert actor.value in ws.holders ==> ActorOwns(ws, actor) || MakerOwns(ws, c);
      }
    }
    if MakerOwns(ws, c) { MakerOwnsInGroup(ws, group, c); }
  }

  lemma DerivedOwner(ws: Workspace, c: Change, before: Option<Holder>, h: Holder)
    requires Derived(ws, c, before, h) && h.admin
    ensures (before.Some? && before.value.admin) || MakerOwns(ws, c)
  {
    hide MakerOwns, MakerGives, MakerGivesRole;
  }

  lemma OwnerlessStays(ws: Workspace, c: Change)
    ensures Apply(ws, c).ownerless ==> ws.ownerless
  {
    hide MayGive, MayOwn, MayCreate;
  }

  /** A group that makes all the changes itself has an owner, or an owner's invitation is open, at
      the end of a run only if that was so at the start: owners are only made by owners. */
  lemma {:induction false} OwnersFromOwners(ws: Workspace, group: Group, changes: seq<Change>)
    requires AllMadeBy(group, changes) && GroupOwns(Run(ws, changes), group)
    ensures GroupOwns(ws, group)
    decreases |changes|
  {
    hide Apply, GroupOwns, MadeBy;
    if changes != [] {
      var rest := changes[1..];
      forall k | 0 <= k < |rest| ensures MadeBy(group, rest[k]) { assert rest[k] == changes[k + 1]; }
      OwnersFromOwners(Apply(ws, changes[0]), group, rest);
      OwnersByOneChange(ws, group, changes[0]);
    }
  }
}
