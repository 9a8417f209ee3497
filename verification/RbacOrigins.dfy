/** Where each power after a change comes from (apps/server/src/routes/roles.rs, members.rs,
    invitations.rs and team.rs). */
module RbacOrigins {
  import opened Wrappers
  import opened Rbac
  import opened RbacHandouts
  import opened RbacWorkspace

  /** Roles only hold what the catalog accepts. */
  ghost predicate RolesCatalogued(ws: Workspace) {
    forall role <- ws.roles :: Grants.Of(ws.roles[role]).pairs == ws.roles[role]
  }

  /** This holder has this permission at this place, through a role or personally. */
  ghost predicate Has(ws: Workspace, h: Holder, p: Permission, place: Option<int>) {
    (exists role :: HasByRole(ws, h, role, p, place)) || (p, place) in h.personal
  }

  predicate HasByRole(ws: Workspace, h: Holder, role: nat, p: Permission, place: Option<int>) {
    (role, place) in h.held && role in ws.roles && p in ws.roles[role]
  }

  // ----- who makes a change ----------------------------------------------------------

  /** An actor, and the token they act through. */
  type Principal = (Actor, Option<TokenScope>)

  /** Who hands something out by a change, or creates a project. */
  function MakerOf(c: Change): Option<Principal> {
    match c
    case Assign(giver, cap, _, _, _) => Some((giver, cap))
    case WriteRole(giver, cap, _, _) => Some((giver, cap))
    case SetPersonal(giver, cap, _, _, _) => Some((giver, cap))
    case Promote(giver, cap, _) => Some((giver, cap))
    case Invite(giver, cap, _, _, _, _) => Some((giver, cap))
    case CreateProject(creator, cap, _) => Some((creator, cap))
    case _ => None
  }

  ghost predicate MakerGives(ws: Workspace, c: Change, p: Permission, place: Option<int>) {
    exists g: Gift :: MakerOf(c) == Some((g.giver, g.cap)) && Gives(ws, g, p, place)
  }

  ghost predicate MakerGivesRole(ws: Workspace, c: Change, role: nat, place: Option<int>) {
    MakerOf(c).Some? && role in ws.roles && MayGive(ws, MakerOf(c).value.0, MakerOf(c).value.1, ws.roles[role], place)
  }

  ghost predicate MakerOwns(ws: Workspace, c: Change) {
    MakerOf(c).Some? && MayOwn(ws, MakerOf(c).value.0, MakerOf(c).value.1)
  }

  /** The maker of the change can do this, through the token they act through. */
  ghost predicate MakerCan(ws: Workspace, c: Change, r: Resource, a: Action, q: Option<int>) {
    MakerOf(c).Some? && Through(AccessOf(ws, MakerOf(c).value.0), MakerOf(c).value.1).Can(r, a, q)
  }

  // ----- where a holder comes from -----------------------------------------------------

  /** The change accepts an invitation for this user. */
  predicate Accepts(ws: Workspace, c: Change, user: nat) {
    c.Accept? && c.user == user && c.invitation in ws.invitations && user !in ws.holders
  }

  function UserBefore(ws: Workspace, c: Change, user: nat): Option<Holder> {
    if user in ws.holders then Some(ws.holders[user])
    else if Accepts(ws, c, user) then Some(ws.invitations[c.invitation])
    else None
  }

  function InvitationBefore(ws: Workspace, invitation: nat): Option<Holder> {
    if invitation in ws.invitations then Some(ws.invitations[invitation]) else None
  }

  /** All that `h` holds after a change it held before, or a maker of the change handed it out. */
  ghost predicate Derived(ws: Workspace, c: Change, before: Option<Holder>, h: Holder) {
    && (forall role, place | (role, place) in h.held ::
          (before.Some? && (role, place) in before.value.held) || MakerGivesRole(ws, c, role, place))
    && (forall p, place | (p, place) in h.personal ::
          (before.Some? && (p, place) in before.value.personal) || MakerGives(ws, c, p, place))
    && (h.admin ==> (before.Some? && before.value.admin) || MakerOwns(ws, c))
  }

  lemma SameIsDerived(ws: Workspace, c: Change, h: Holder)
    ensures Derived(ws, c, Some(h), h)
  {
    hide MakerGives, MakerGivesRole, MakerOwns;
  }

  lemma AssignedIsDerived(ws: Workspace, c: Change, h: Holder)
    requires c.Assign? && c.role in ws.roles && MayGive(ws, c.giver, c.cap, ws.roles[c.role], c.place)
    ensures Derived(ws, c, Some(h), h.(held := h.held + {(c.role, c.place)}))
  {
    hide MayGive, MakerGives, MakerOwns;
    assert MakerGivesRole(ws, c, c.role, c.place);
  }

  lemma PersonalIsDerived(ws: Workspace, c: Change, h: Holder)
    requires c.SetPersonal? && forall place <- c.places :: MayGive(ws, c.giver, c.cap, c.permissions, place)
    ensures Derived(ws, c, Some(h), h.(personal := Spread(c.permissions, c.places)))
  {
    hide MayGive, MakerGivesRole, MakerOwns, Grants.Of;
    forall p, place | (p, place) in Spread(c.permissions, c.places) ensures MakerGives(ws, c, p, place) {
      var g := Gift(c.giver, c.cap, c.permissions, place);
      assert MakerOf(c) == Some((g.giver, g.cap)) && Gives(ws, g, p, place);
    }
  }

  lemma PromotedIsDerived(ws: Workspace, c: Change, h: Holder)
    requires c.Promote? && MayOwn(ws, c.giver, c.cap)
    ensures Derived(ws, c, Some(h), h.(admin := true))
  {
    hide MayOwn, MakerGives, MakerGivesRole;
  }

  lemma InvitedIsDerived(ws: Workspace, c: Change, before: Option<Holder>)
    requires c.Invite? && (c.admin ==> MayOwn(ws, c.giver, c.cap))
    requires forall role <- c.roles :: role in ws.roles && MayGive(ws, c.giver, c.cap, ws.roles[role], c.place)
    ensures Derived(ws, c, before, Holder(c.admin, set role | role in c.roles :: (role, c.place), {}))
  {
    hide MayGive, MayOwn, MakerGives;
    forall role, place | (role, place) in (set role | role in c.roles :: (role, c.place))
      ensures MakerGivesRole(ws, c, role, place)
    {
    }
  }

  lemma LessIsDerived(ws: Workspace, c: Change, h: Holder, less: Holder)
    requires less.held <= h.held && less.personal <= h.personal && (less.admin ==> h.admin)
    ensures Derived(ws, c, Some(h), less)
  {
    hide MakerGives, MakerGivesRole, MakerOwns;
  }

  lemma UserDerived(ws: Workspace, c: Change, user: nat)
    requires !c.CreateProject? && user in Apply(ws, c).holders
    ensures Derived(ws, c, UserBefore(ws, c, user), Apply(ws, c).holders[user])
  {
    hide MayGive, MayOwn, Derived, Spread;
    var h := Apply(ws, c).holders[user];
    if UserBefore(ws, c, user) == Some(h) {
      SameIsDerived(ws, c, h);
    } else {
      var former := ws.holders[user];
      match c
      case Assign(_, _, _, _, _) => AssignedIsDerived(ws, c, former);
      case SetPersonal(_, _, _, _, _) => PersonalIsDerived(ws, c, former);
      case Promote(_, _, _) => PromotedIsDerived(ws, c, former);
      case _ => LessIsDerived(ws, c, former, h);
    }
  }

  lemma InvitationDerived(ws: Workspace, c: Change, invitation: nat)
    requires invitation in Apply(ws, c).invitations
    ensures Derived(ws, c, InvitationBefore(ws, invitation), Apply(ws, c).invitations[invitation])
  {
    hide MayGive, MayOwn, Derived, MayCreate;
    var h := Apply(ws, c).invitations[invitation];
    if InvitationBefore(ws, invitation) == Some(h) {
      SameIsDerived(ws, c, h);
    } else {
      InvitedIsDerived(ws, c, InvitationBefore(ws, invitation));
    }
  }

  /** Roles change only by being written, or by going. */
  lemma RoleOrigin(ws: Workspace, c: Change, role: nat, p: Permission, place: Option<int>)
    requires role in Apply(ws, c).roles && p in Apply(ws, c).roles[role]
    ensures (role in ws.roles && p in ws.roles[role]) || MakerGives(ws, c, p, place)
  {
    hide MayGive, MayOwn, Grants.Of;
    if c.WriteRole? && !(role in ws.roles && p in ws.roles[role]) {
      var g := Gift(c.giver, c.cap, c.permissions, None);
      assert MakerOf(c) == Some((g.giver, g.cap)) && Gives(ws, g, p, place);
    }
  }

  lemma DerivedHas(ws: Workspace, c: Change, before: Option<Holder>, h: Holder, p: Permission, place: Option<int>)
    requires RolesCatalogued(ws) && Derived(ws, c, before, h) && Has(Apply(ws, c), h, p, place)
    ensures (before.Some? && Has(ws, before.value, p, place)) || MakerGives(ws, c, p, place)
  {
    hide MayGive, Grants.Of, Apply, MakerOwns, MakerOf;
    if (p, place) !in h.personal {
      var role: nat :| HasByRole(Apply(ws, c), h, role, p, place);
      RoleOrigin(ws, c, role, p, place);
      if role in ws.roles && p in ws.roles[role] {
        if before.Some? && (role, place) in before.value.held {
          assert HasByRole(ws, before.value, role, p, place);
        } else {
          var g := Gift(MakerOf(c).value.0, MakerOf(c).value.1, ws.roles[role], place);
          assert Gives(ws, g, p, place);
        }
      }
    }
  }

  lemma PartHasPlace(x: Assignment, r: Resource, a: Action, q: Option<int>)
    requires PartCan(x, None, r, a, q)
    ensures r.ScopeOf() == Scope.Instance || q.Some?
  {
  }

  lemma HasIsRow(ws: Workspace, h: Holder, p: Permission, place: Option<int>)
    requires Has(ws, h, p, place)
    ensures Lift(p, place) in Rows(ws, h)
  {
    hide Lift;
    var e := (p, place);
    if e in h.personal {
      assert Lift(e.0, e.1) in Rows(ws, h);
    } else {
      var role: nat :| HasByRole(ws, h, role, p, place);
      var held := (role, place);
      assert held in h.held && held.0 in ws.roles && p in ws.roles[held.0];
    }
  }

  lemma RowIsHad(ws: Workspace, h: Holder, x: Assignment) returns (p: Permission, place: Option<int>)
    requires x in Rows(ws, h)
    ensures Has(ws, h, p, place) && x == Lift(p, place)
  {
    hide Lift;
    if e :| e in h.personal && x == Lift(e.0, e.1) {
      p, place := e.0, e.1;
      assert (p, place) == e;
    } else {
      var e, permission :| e in h.held && e.0 in ws.roles && permission in ws.roles[e.0] && x == Lift(permission, e.1);
      p, place := permission, e.1;
      assert (e.0, place) == e;
      assert HasByRole(ws, h, e.0, p, place);
    }
  }

  lemma RolesStayCatalogued(ws: Workspace, c: Change)
    requires RolesCatalogued(ws)
    ensures RolesCatalogued(Apply(ws, c))
  {
    hide MayGive, MayOwn;
  }

  /** What somebody has, they can use. */
  lemma HasCan(ws: Workspace, h: Holder, p: Permission, place: Option<int>, r: Resource, a: Action, q: Option<int>)
    requires Has(ws, h, p, place) && PartCan(Lift(p, place), None, r, a, q)
    ensures HolderAccess(ws, h).Can(r, a, q)
  {
    hide PartCan, HolderAccess, Access.Can, Lift, Has;
    if h.admin {
      PartHasPlace(Lift(p, place), r, a, q);
      AdminCan(ws, h, r, a, q);
    } else {
      HasIsRow(ws, h, p, place);
      MemberCan(ws, h, r, a, q);
    }
  }

  /** What a holder can do after a change they could do before, or a maker of the change could. */
  lemma DerivedCan(ws: Workspace, c: Change, before: Option<Holder>, h: Holder, r: Resource, a: Action, q: Option<int>)
    requires RolesCatalogued(ws) && Derived(ws, c, before, h) && HolderAccess(Apply(ws, c), h).Can(r, a, q)
    ensures (before.Some? && HolderAccess(ws, before.value).Can(r, a, q)) || MakerCan(ws, c, r, a, q)
  {
    hide Apply, RolesCatalogued, HolderAccess, Access.Can, PartCan, Lift, Has, MayGive, MayOwn, Rows, Gives, MakerOf;
    if h.admin {
      UseHasPlace(HolderAccess(Apply(ws, c), h), r, a, q);
      if before.Some? && before.value.admin {
        AdminCan(ws, before.value, r, a, q);
      } else {
        MakerOfOwnersCan(ws, MakerOf(c).value.0, MakerOf(c).value.1, r, a, q);
      }
    } else {
      MemberCan(Apply(ws, c), h, r, a, q);
      var x :| x in Rows(Apply(ws, c), h) && PartCan(x, None, r, a, q);
      var p, place := RowIsHad(Apply(ws, c), h, x);
      DerivedHas(ws, c, before, h, p, place);
      if before.Some? && Has(ws, before.value, p, place) {
        HasCan(ws, before.value, p, place, r, a, q);
      } else {
        var g: Gift :| MakerOf(c) == Some((g.giver, g.cap)) && Gives(ws, g, p, place);
        GiverCanUse(ws, g, p, place, r, a, q);
      }
    }
  }
}
