/** Creating a project extends its creator's roles to it (apps/server/src/routes/projects.rs, with
    apps/server/src/services/role.rs). */
module RbacCreation {
  import opened Wrappers
  import opened Rbac
  import opened RbacHandouts
  import opened RbacWorkspace
  import opened RbacOrigins

  /** A place on which a permission held at `place` can be used. */
  function PlaceOf(place: Option<int>, otherwise: int): int {
    match place case Some(id) => id case None => otherwise
  }

  /** A project permission held anywhere reaches as far on `id` once it is held there. */
  lemma LiftMoves(p: Permission, place: Option<int>, cap: Option<TokenScope>, r: Resource, a: Action, q: int, id: int)
    requires r.ScopeOf() == Scope.Project && (cap.None? || cap.value.projects.None?)
    requires PartCan(Lift(p, place), cap, r, a, Some(q))
    ensures PartCan(Lift(p, Some(id)), cap, r, a, Some(id))
  {
    NoEmptyShows(cap);
  }

  lemma LiftMovesBack(p: Permission, place: Option<int>, cap: Option<TokenScope>, r: Resource, a: Action, id: int)
    requires r.ScopeOf() == Scope.Project && (cap.None? || cap.value.projects.None?)
    requires PartCan(Lift(p, Some(id)), cap, r, a, Some(id))
    ensures PartCan(Lift(p, place), cap, r, a, Some(PlaceOf(place, id)))
  {
    NoEmptyShows(cap);
  }

  lemma NoEmptyShows(cap: Option<TokenScope>)
    ensures !ShownThrough(cap, Grants(false, {}))
  {
  }

  /** What is held on `id` is of no use elsewhere, unless it is so wherever it is held. */
  lemma LiftStays(p: Permission, place: Option<int>, r: Resource, a: Action, q: Option<int>, id: int)
    requires PartCan(Lift(p, Some(id)), None, r, a, q) && (r.ScopeOf() == Scope.Instance || q != Some(id))
    ensures PartCan(Lift(p, place), None, r, a, q)
  {
    NoEmptyShows(None);
  }

  /** A holder whose roles are extended has what they had, and what they had anywhere on `id`. */
  lemma ExtendedHas(ws: Workspace, h: Holder, id: int, p: Permission, place: Option<int>)
    ensures Has(ws, Extended(h, id), p, place)
       <==> Has(ws, h, p, place) || (place == Some(id) && exists at :: Has(ws, h, p, at))
  {
    var ext := Extended(h, id);
    if Has(ws, ext, p, place) {
      if (p, place) in ext.personal {
        if (p, place) !in h.personal {
          var e :| e in h.personal && (e.0, Some(id)) == (p, place);
          assert e == (p, e.1) && Has(ws, h, p, e.1);
        }
      } else {
        var role: nat :| HasByRole(ws, ext, role, p, place);
        if (role, place) in h.held {
          assert HasByRole(ws, h, role, p, place);
        } else {
          var e :| e in h.held && (e.0, Some(id)) == (role, place);
          assert e == (role, e.1) && HasByRole(ws, h, role, p, e.1) && Has(ws, h, p, e.1);
        }
      }
    }
    if Has(ws, h, p, place) { HasMore(ws, h, ext, p, place); }
    if place == Some(id) {
      forall at | Has(ws, h, p, at) ensures Has(ws, ext, p, Some(id)) { HasOnIt(ws, h, id, p, at); }
    }
  }

  lemma HasMore(ws: Workspace, h: Holder, more: Holder, p: Permission, place: Option<int>)
    requires Has(ws, h, p, place) && h.held <= more.held && h.personal <= more.personal
    ensures Has(ws, more, p, place)
  {
    if (p, place) !in h.personal {
      var role: nat :| HasByRole(ws, h, role, p, place);
      assert HasByRole(ws, more, role, p, place);
    }
  }

  lemma HasOnIt(ws: Workspace, h: Holder, id: int, p: Permission, at: Option<int>)
    requires Has(ws, h, p, at)
    ensures Has(ws, Extended(h, id), p, Some(id))
  {
    var ext := Extended(h, id);
    if (p, at) in h.personal {
      assert (p, Some(id)) in ext.personal;
    } else {
      var role: nat :| HasByRole(ws, h, role, p, at);
      var e := (role, at);
      assert e in h.held && (e.0, Some(id)) in ext.held;
      assert HasByRole(ws, ext, role, p, Some(id));
    }
  }

  /** What a holder's rows allow, in terms of what they have. */
  ghost predicate HasFor(ws: Workspace, h: Holder, cap: Option<TokenScope>, r: Resource, a: Action, q: Option<int>) {
    exists p, place :: Has(ws, h, p, place) && PartCan(Lift(p, place), cap, r, a, q)
  }

  lemma MemberCanThrough(ws: Workspace, h: Holder, cap: Option<TokenScope>, r: Resource, a: Action, q: Option<int>)
    requires !h.admin
    ensures Through(HolderAccess(ws, h), cap).Can(r, a, q) <==> HasFor(ws, h, cap, r, a, q)
  {
    hide PartCan, Access.Can, Rows, Lift, Has;
    var rows := Listed(Rows(ws, h));
    FoldMeansSomeAssignment(rows, cap, r, a, q);
    if SomeAssignmentAllows(rows, cap, r, a, q) {
      var x :| x in rows && PartCan(x, cap, r, a, q);
      var p, place := RowIsHad(ws, h, x);
    }
    forall p, place | Has(ws, h, p, place) && PartCan(Lift(p, place), cap, r, a, q)
      ensures SomeAssignmentAllows(rows, cap, r, a, q)
    {
      HasIsRow(ws, h, p, place);
      assert Lift(p, place) in rows;
    }
  }

  /** Extending a holder's roles to `id` gives them there, and only there, exactly what they
      could do on some project, through a token that lists no projects or through none. */
  lemma ExtendedOnProject(ws: Workspace, h: Holder, cap: Option<TokenScope>, id: int, r: Resource, a: Action)
    requires !h.admin && r.ScopeOf() == Scope.Project && (cap.None? || cap.value.projects.None?)
    ensures Through(HolderAccess(ws, Extended(h, id)), cap).Can(r, a, Some(id))
       <==> exists q :: Through(HolderAccess(ws, h), cap).Can(r, a, Some(q))
  {
    hide PartCan, Access.Can, Lift, Has, HolderAccess, Extended;
    var ext := Extended(h, id);
    assert !ext.admin by { ExtendedIsMember(h, id); }
    MemberCanThrough(ws, ext, cap, r, a, Some(id));
    forall q ensures Through(HolderAccess(ws, h), cap).Can(r, a, Some(q)) <==> HasFor(ws, h, cap, r, a, Some(q)) {
      MemberCanThrough(ws, h, cap, r, a, Some(q));
    }
    if HasFor(ws, ext, cap, r, a, Some(id)) {
      var p, place :| Has(ws, ext, p, place) && PartCan(Lift(p, place), cap, r, a, Some(id));
      ExtendedHas(ws, h, id, p, place);
      if !Has(ws, h, p, place) {
        var at :| Has(ws, h, p, at);
        LiftMovesBack(p, at, cap, r, a, id);
        assert HasFor(ws, h, cap, r, a, Some(PlaceOf(at, id)));
      } else {
        assert HasFor(ws, h, cap, r, a, Some(id));
      }
    }
    if q :| HasFor(ws, h, cap, r, a, Some(q)) {
      var p, place :| Has(ws, h, p, place) && PartCan(Lift(p, place), cap, r, a, Some(q));
      LiftMoves(p, place, cap, r, a, q, id);
      ExtendedHas(ws, h, id, p, Some(id));
      assert HasFor(ws, ext, cap, r, a, Some(id));
    }
  }

  lemma ExtendedIsMember(h: Holder, id: int)
    ensures Extended(h, id).admin == h.admin
  {
  }

  /** Everywhere else, and on the workspace, nothing changes. */
  lemma ExtendedElsewhere(ws: Workspace, h: Holder, id: int, r: Resource, a: Action, q: Option<int>)
    requires r.ScopeOf() == Scope.Instance || q != Some(id)
    ensures HolderAccess(ws, Extended(h, id)).Can(r, a, q) <==> HolderAccess(ws, h).Can(r, a, q)
  {
    ExtendedIsMember(h, id);
    if h.admin {
      AdminCan(ws, h, r, a, q);
      AdminCan(ws, Extended(h, id), r, a, q);
    } else {
      MemberElsewhere(ws, h, id, r, a, q);
    }
  }

  lemma MemberElsewhere(ws: Workspace, h: Holder, id: int, r: Resource, a: Action, q: Option<int>)
    requires !h.admin && (r.ScopeOf() == Scope.Instance || q != Some(id))
    ensures HolderAccess(ws, Extended(h, id)).Can(r, a, q) <==> HolderAccess(ws, h).Can(r, a, q)
  {
    hide PartCan, Access.Can, Lift, Has, HolderAccess, Extended;
    var ext := Extended(h, id);
    ExtendedIsMember(h, id);
    Unlimited(ws, h);
    Unlimited(ws, ext);
    MemberCanThrough(ws, h, None, r, a, q);
    MemberCanThrough(ws, ext, None, r, a, q);
    if HasFor(ws, ext, None, r, a, q) {
      var p, place :| Has(ws, ext, p, place) && PartCan(Lift(p, place), None, r, a, q);
      ExtendedHas(ws, h, id, p, place);
      if !Has(ws, h, p, place) {
        var at :| Has(ws, h, p, at);
        LiftStays(p, at, r, a, q, id);
      }
      assert HasFor(ws, h, None, r, a, q);
    }
    if HasFor(ws, h, None, r, a, q) {
      var p, place :| Has(ws, h, p, place) && PartCan(Lift(p, place), None, r, a, q);
      ExtendedHas(ws, h, id, p, place);
      assert HasFor(ws, ext, None, r, a, q);
    }
  }

  lemma Unlimited(ws: Workspace, h: Holder)
    ensures Through(HolderAccess(ws, h), None) == HolderAccess(ws, h)
  {
    AccessCatalogued(ws, h);
  }

  // ----- exactly what is added -----------------------------------------------------------

  /** The creator can do this on some project before the new one is there. */
  ghost predicate CreatorCan(ws: Workspace, creator: Actor, r: Resource, a: Action) {
    exists q :: AccessOf(ws, creator).Can(r, a, Some(q))
  }

  lemma CreatorPower(ws: Workspace, h: Holder, creator: nat, id: int, r: Resource, a: Action, q: Option<int>)
    requires creator in ws.holders && ws.holders[creator] == h
    ensures HolderAccess(ws, Extended(h, id)).Can(r, a, q)
       <==> HolderAccess(ws, h).Can(r, a, q)
            || (q == Some(id) && r.ScopeOf() == Scope.Project && CreatorCan(ws, Some(creator), r, a))
  {
    hide HolderAccess, Extended, Access.Can;
    assert AccessOf(ws, Some(creator)) == HolderAccess(ws, h);
    if r.ScopeOf() == Scope.Instance || q != Some(id) {
      ExtendedElsewhere(ws, h, id, r, a, q);
    } else if h.admin {
      ExtendedIsMember(h, id);
      AdminCan(ws, h, r, a, q);
      AdminCan(ws, Extended(h, id), r, a, q);
    } else {
      Unlimited(ws, h);
      Unlimited(ws, Extended(h, id));
      ExtendedOnProject(ws, h, None, id, r, a);
    }
  }

  /** Access depends on the roles only. */
  lemma SameRoles(ws: Workspace, after: Workspace, h: Holder)
    requires ws.roles == after.roles
    ensures HolderAccess(ws, h) == HolderAccess(after, h)
  {
    assert Rows(ws, h) == Rows(after, h);
  }

  /** What creating a project adds, exactly, for every actor: for the creator whose roles are
      extended to it, on the new project, what they could do on some project; nothing else, and
      nothing for anybody else. */
  lemma CreationAddsExactly(ws: Workspace, creator: Actor, cap: Option<TokenScope>, id: int, actor: Actor,
                            r: Resource, a: Action, q: Option<int>)
    ensures AccessOf(Apply(ws, CreateProject(creator, cap, id)), actor).Can(r, a, q)
       <==> AccessOf(ws, actor).Can(r, a, q)
            || (Extends(ws, creator, cap) && actor == creator
                && q == Some(id) && r.ScopeOf() == Scope.Project && CreatorCan(ws, creator, r, a))
  {
    hide HolderAccess, Extended, Access.Can, MayCreate, CreatorCan;
    var after := Apply(ws, CreateProject(creator, cap, id));
    if Extends(ws, creator, cap) {
      assert after.roles == ws.roles;
      var h := ws.holders[creator.value];
      SameRoles(ws, after, Extended(h, id));
      if actor == creator {
        CreatorPower(ws, h, creator.value, id, r, a, q);
      } else {
        assert HolderOf(after, actor) == HolderOf(ws, actor);
        if HolderOf(ws, actor).Some? { SameRoles(ws, after, HolderOf(ws, actor).value); }
      }
    }
  }
}
