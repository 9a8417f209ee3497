/** What each change does to those it is about, and that it leaves everybody else alone
    (apps/server/src/routes/roles.rs, members.rs, invitations.rs and team.rs). */
module RbacEffects {
  import opened Wrappers
  import opened Rbac
  import opened RbacWorkspace
  import opened RbacOrigins
  import opened RbacHandouts
  import opened RbacCreation
  import opened RbacMeaning
  import opened RbacQueries

  /** This user has this permission at this place. */
  ghost predicate UserHas(ws: Workspace, user: nat, p: Permission, place: Option<int>) {
    user in ws.holders && Has(ws, ws.holders[user], p, place)
  }

  /** By a role other than this one at this place, or personally. */
  ghost predicate HasOtherwise(ws: Workspace, user: nat, p: Permission, place: Option<int>, role: nat,
                               at: Option<int>) {
    && user in ws.holders
    && ((p, place) in ws.holders[user].personal
        || exists other: nat :: HasByRole(ws, ws.holders[user], other, p, place) && (other, place) != (role, at))
  }

  // ----- what having a permission comes to -----------------------------------------------

  /** One permission of the catalog, had at `place`, allows this: itself and reading the same
      resource, unless that is API tokens; and, for a permission on projects, seeing the project. A
      workspace permission counts wherever it is had. */
  predicate Powers(p: Permission, place: Option<int>, r: Resource, a: Action, q: Option<int>) {
    && p.0.Accepts(p.1)
    && (p.0.ScopeOf() == Scope.Instance || (q.Some? && (place.None? || place == q)))
    && (if r == Resource.Project && a == Read then p.0.ScopeOf() == Scope.Project
        else r == p.0 && (a == p.1 || (a == Read && r != Resource.ApiTokens)))
  }

  lemma SingleNames(p: Permission, r: Resource, a: Action)
    ensures Names(Grants.Of({p}), r, a)
       <==> p.0.Accepts(p.1) && r == p.0 && (a == p.1 || (a == Read && r != Resource.ApiTokens))
    ensures NamesOnProjects(Grants.Of({p})) <==> p.0.Accepts(p.1) && p.0.ScopeOf() == Scope.Project
  {
    assert forall q: Permission :: q in Grants.Of({p}).pairs <==> q == p && p.0.Accepts(p.1);
    assert (p.0, p.1) == p;
  }

  lemma LiftMeans(p: Permission, place: Option<int>, r: Resource, a: Action, q: Option<int>)
    ensures PartCan(Lift(p, place), None, r, a, q) <==> Powers(p, place, r, a, q)
  {
    hide PartCan, Names, NamesOnProjects, Grants.Of;
    PartMeans(Lift(p, place), r, a, q);
    SingleNames(p, r, a);
  }

  /** What a user who is no owner can do is what some permission they have allows. */
  lemma MemberCanExactly(ws: Workspace, h: Holder, r: Resource, a: Action, q: Option<int>)
    requires !h.admin
    ensures HolderAccess(ws, h).Can(r, a, q) <==> exists p, place :: Has(ws, h, p, place) && Powers(p, place, r, a, q)
  {
    hide PartCan, Access.Can, HolderAccess, Lift, Has, Powers;
    MemberCanThrough(ws, h, None, r, a, q);
    AccessCatalogued(ws, h);
    assert Through(HolderAccess(ws, h), None) == HolderAccess(ws, h);
    forall p, place ensures PartCan(Lift(p, place), None, r, a, q) <==> Powers(p, place, r, a, q) {
      LiftMeans(p, place, r, a, q);
    }
  }

  // ----- roles -------------------------------------------------------------------------

  /** Assigning a role gives its receiver its permissions at that place, and nobody anything else. */
  lemma AssignGives(ws: Workspace, giver: Actor, cap: Option<TokenScope>, user: nat, role: nat, at: Option<int>,
                    u: nat, p: Permission, place: Option<int>)
    ensures UserHas(Apply(ws, Assign(giver, cap, user, role, at)), u, p, place)
       <==> UserHas(ws, u, p, place)
            || (&& u == user && user in ws.holders && place == at
                && role in ws.roles && p in ws.roles[role] && MayGive(ws, giver, cap, ws.roles[role], at))
  {
    hide MayGive;
    var after := Apply(ws, Assign(giver, cap, user, role, at));
    assert after.roles == ws.roles;
    if u in ws.holders {
      forall other: nat ensures HasByRole(after, after.holders[u], other, p, place)
        <==> HasByRole(ws, ws.holders[u], other, p, place)
             || (after != ws && u == user && other == role && place == at && p in ws.roles[role])
      {
      }
      if u == user && place == at && role in ws.roles && p in ws.roles[role]
         && MayGive(ws, giver, cap, ws.roles[role], at) {
        assert HasByRole(after, after.holders[u], role, p, place);
      }
    }
  }

  /** Taking it back leaves what they have otherwise. */
  lemma UnassignTakes(ws: Workspace, user: nat, role: nat, at: Option<int>, u: nat, p: Permission, place: Option<int>)
    ensures UserHas(Apply(ws, Unassign(user, role, at)), u, p, place)
       <==> if u == user then HasOtherwise(ws, u, p, place, role, at) else UserHas(ws, u, p, place)
  {
    var after := Apply(ws, Unassign(user, role, at));
    if u in ws.holders {
      forall other: nat ensures HasByRole(after, after.holders[u], other, p, place)
        <==> HasByRole(ws, ws.holders[u], other, p, place) && (u != user || (other, place) != (role, at))
      {
      }
    }
  }

  /** Deleting a role takes it from everybody, wherever they hold it. */
  lemma DropRoleTakes(ws: Workspace, role: nat, u: nat, p: Permission, place: Option<int>)
    ensures UserHas(Apply(ws, DropRole(role)), u, p, place) <==> HasOtherwise(ws, u, p, place, role, place)
  {
    var after := Apply(ws, DropRole(role));
    if u in ws.holders {
      forall other: nat ensures HasByRole(after, after.holders[u], other, p, place)
        <==> HasByRole(ws, ws.holders[u], other, p, place) && (other, place) != (role, place)
      {
      }
    }
  }

  /** The writer may hand out the role both as it was and as it will be. */
  ghost predicate MayWrite(ws: Workspace, giver: Actor, cap: Option<TokenScope>, role: nat,
                           permissions: set<Permission>) {
    && MayGive(ws, giver, cap, permissions, None)
    && (role in ws.roles ==> MayGive(ws, giver, cap, ws.roles[role], None))
  }

  /** Rewriting a role changes what its holders have by it to the given permissions, as far as the
      catalog knows them. */
  lemma WriteRoleSets(ws: Workspace, giver: Actor, cap: Option<TokenScope>, role: nat, permissions: set<Permission>,
                      u: nat, p: Permission, place: Option<int>)
    ensures !MayWrite(ws, giver, cap, role, permissions) ==> Apply(ws, WriteRole(giver, cap, role, permissions)) == ws
    ensures MayWrite(ws, giver, cap, role, permissions) ==>
      (UserHas(Apply(ws, WriteRole(giver, cap, role, permissions)), u, p, place)
       <==> HasOtherwise(ws, u, p, place, role, place)
            || (u in ws.holders && (role, place) in ws.holders[u].held && p in permissions && p.0.Accepts(p.1)))
  {
    hide MayGive;
    var after := Apply(ws, WriteRole(giver, cap, role, permissions));
    if MayWrite(ws, giver, cap, role, permissions) && u in ws.holders {
      forall other: nat ensures HasByRole(after, after.holders[u], other, p, place)
        <==> if other == role then (role, place) in ws.holders[u].held && p in permissions && p.0.Accepts(p.1)
             else HasByRole(ws, ws.holders[u], other, p, place)
      {
      }
      assert (role, place) in ws.holders[u].held && p in permissions && p.0.Accepts(p.1)
        ==> HasByRole(after, after.holders[u], role, p, place);
    }
  }

  ghost predicate MaySet(ws: Workspace, giver: Actor, cap: Option<TokenScope>, user: nat,
                         permissions: set<Permission>, places: set<Option<int>>) {
    user in ws.holders && forall place <- places :: MayGive(ws, giver, cap, permissions, place)
  }

  /** Personal permissions are replaced, if they may be given at every one of the places. */
  lemma SetPersonalSets(ws: Workspace, giver: Actor, cap: Option<TokenScope>, user: nat, permissions: set<Permission>,
                        places: set<Option<int>>, u: nat, p: Permission, place: Option<int>)
    ensures !MaySet(ws, giver, cap, user, permissions, places)
        ==> Apply(ws, SetPersonal(giver, cap, user, permissions, places)) == ws
    ensures MaySet(ws, giver, cap, user, permissions, places) ==>
      (UserHas(Apply(ws, SetPersonal(giver, cap, user, permissions, places)), u, p, place)
       <==> if u != user then UserHas(ws, u, p, place)
            else (exists role: nat :: HasByRole(ws, ws.holders[u], role, p, place))
                 || (p in permissions && p.0.Accepts(p.1) && place in places))
  {
    hide MayGive;
    var after := Apply(ws, SetPersonal(giver, cap, user, permissions, places));
    if u in ws.holders && u in after.holders {
      forall role: nat ensures HasByRole(after, after.holders[u], role, p, place)
        <==> HasByRole(ws, ws.holders[u], role, p, place)
      {
      }
      SpreadIs(permissions, places, p, place);
    }
  }

  lemma SpreadIs(permissions: set<Permission>, places: set<Option<int>>, p: Permission, place: Option<int>)
    ensures (p, place) in Spread(permissions, places) <==> p in permissions && p.0.Accepts(p.1) && place in places
  {
    assert p in Grants.Of(permissions).pairs <==> p in permissions && p.0.Accepts(p.1);
  }

  // ----- owners and members ----------------------------------------------------------------

  /** Whoever is made an owner can do everything there is, and whoever is unmade one is left with
      what they have by roles and by themselves. */
  lemma PromoteMakesOwner(ws: Workspace, giver: Actor, cap: Option<TokenScope>, user: nat, r: Resource, a: Action,
                          q: Option<int>)
    requires user in ws.holders && MayOwn(ws, giver, cap)
    ensures AccessOf(Apply(ws, Promote(giver, cap, user)), Some(user)).Can(r, a, q)
       <==> r.ScopeOf() == Scope.Instance || q.Some?
  {
    hide MayOwn, Access.Can, HolderAccess;
    var after := Apply(ws, Promote(giver, cap, user));
    AdminCan(after, after.holders[user], r, a, q);
  }

  lemma DemoteLeavesRoles(ws: Workspace, user: nat, r: Resource, a: Action, q: Option<int>)
    requires user in ws.holders
    ensures AccessOf(Apply(ws, Demote(user)), Some(user)).Can(r, a, q) <==> RowAllows(ws, ws.holders[user], r, a, q)
  {
    hide PartCan, Access.Can, HolderAccess, Lift;
    var after := Apply(ws, Demote(user));
    MemberCan(after, after.holders[user], r, a, q);
    assert Rows(after, after.holders[user]) == Rows(ws, ws.holders[user]);
  }

  /** A user who was removed can do nothing, nor can the ownerless token once it is gone. */
  lemma RemovedCanNothing(ws: Workspace, user: nat, cap: Option<TokenScope>, r: Resource, a: Action, q: Option<int>)
    ensures !Through(AccessOf(Apply(ws, RemoveUser(user)), Some(user)), cap).Can(r, a, q)
    ensures !Through(AccessOf(Apply(ws, DropOwnerless), None), cap).Can(r, a, q)
  {
    hide Access.Can;
    NothingByDefault(cap, r, a, q);
  }

  // ----- invitations -----------------------------------------------------------------------

  /** The inviter may hand out all that is on offer. */
  ghost predicate MayInvite(ws: Workspace, giver: Actor, cap: Option<TokenScope>, admin: bool, roles: set<nat>,
                            place: Option<int>) {
    && (admin ==> MayOwn(ws, giver, cap))
    && forall role <- roles :: role in ws.roles && MayGive(ws, giver, cap, ws.roles[role], place)
  }

  /** Whoever accepts an invitation has exactly what it offered, and it can be accepted once. */
  lemma InvitedHas(ws: Workspace, giver: Actor, cap: Option<TokenScope>, invitation: nat, admin: bool, roles: set<nat>,
                   at: Option<int>, user: nat, p: Permission, place: Option<int>)
    requires MayInvite(ws, giver, cap, admin, roles, at) && user !in ws.holders
    ensures var after := Apply(Apply(ws, Invite(giver, cap, invitation, admin, roles, at)), Accept(invitation, user));
      && user in after.holders && after.holders[user].admin == admin
      && (UserHas(after, user, p, place) <==> place == at && exists role <- roles :: p in ws.roles[role])
      && forall other :: Apply(after, Accept(invitation, other)) == after
  {
    hide MayGive, MayOwn;
    var offered := Apply(ws, Invite(giver, cap, invitation, admin, roles, at));
    var after := Apply(offered, Accept(invitation, user));
    forall role: nat ensures HasByRole(after, after.holders[user], role, p, place)
      <==> place == at && role in roles && p in ws.roles[role]
    {
    }
  }

  /** One that may not be made, or was revoked, is worth nothing to anybody. */
  lemma NotInvited(ws: Workspace, giver: Actor, cap: Option<TokenScope>, invitation: nat, admin: bool,
                   roles: set<nat>, at: Option<int>, user: nat)
    ensures !MayInvite(ws, giver, cap, admin, roles, at)
        ==> Apply(ws, Invite(giver, cap, invitation, admin, roles, at)) == ws
    ensures var revoked := Apply(ws, Revoke(invitation)); Apply(revoked, Accept(invitation, user)) == revoked
  {
    hide MayGive, MayOwn;
  }

  // ----- new projects ----------------------------------------------------------------------

  /** The creator's roles are extended exactly when they are a user who may create projects and sees
      some project but not every one. */
  lemma ExtendsExactly(ws: Workspace, creator: Actor, cap: Option<TokenScope>)
    ensures Extends(ws, creator, cap)
       <==> && creator.Some? && creator.value in ws.holders
            && Through(AccessOf(ws, creator), cap).Can(Projects, Create, None)
            && (exists id :: Through(AccessOf(ws, creator), cap).Can(Resource.Project, Read, Some(id)))
            && exists id :: !Through(AccessOf(ws, creator), cap).Can(Resource.Project, Read, Some(id))
  {
    hide HolderAccess, Access.Can, Access.VisibleProjects;
    var access := Through(AccessOf(ws, creator), cap);
    forall id ensures InScope(access.VisibleProjects(), id) <==> access.Can(Resource.Project, Read, Some(id)) {
      VisibleExactly(access, id);
    }
    match access.VisibleProjects()
    case All =>
      assert forall id :: InScope(access.VisibleProjects(), id);
    case Only(ids) =>
      var listed := set x | x in ids;
      var beyond := FreshId(listed);
      assert beyond !in listed;
      assert !InScope(access.VisibleProjects(), beyond);
      if ids != [] { assert InScope(access.VisibleProjects(), ids[0]); }
  }

  // ----- everybody else --------------------------------------------------------------------

  /** The user a change is about. */
  function TargetOf(c: Change): Actor {
    match c
    case Assign(_, _, user, _, _) => Some(user)
    case SetPersonal(_, _, user, _, _) => Some(user)
    case Promote(_, _, user) => Some(user)
    case Accept(_, user) => Some(user)
    case Demote(user) => Some(user)
    case Unassign(user, _, _) => Some(user)
    case RemoveUser(user) => Some(user)
    case CreateProject(creator, _, _) => creator
    case _ => None
  }

  /** A change of no role leaves everybody but its target as they were. */
  lemma OthersUnchanged(ws: Workspace, c: Change, actor: Actor)
    requires !c.WriteRole? && !c.DropRole?
    requires actor.Some? && actor != TargetOf(c)
    ensures AccessOf(Apply(ws, c), actor) == AccessOf(ws, actor)
  {
    hide MayGive, MayOwn, MayCreate, HolderAccess, Extended, Spread;
    var after := Apply(ws, c);
    assert HolderOf(after, actor) == HolderOf(ws, actor) && after.roles == ws.roles;
    if HolderOf(ws, actor).Some? { SameRoles(ws, after, HolderOf(ws, actor).value); }
  }
}
