/** Creating a project (apps/server/src/routes/projects.rs): what the creator comes to hold on it,
    and the query that says so before their access has been read again
    (apps/server/src/auth/rbac.rs). */
module RbacNewProjects {
  import opened Wrappers
  import opened Rbac
  import opened RbacQueries
  import opened RbacHandouts
  import opened RbacWorkspace
  import opened RbacOrigins
  import opened RbacCreation
  import opened RbacRuns

  // ----- the query ---------------------------------------------------------------------

  /** What the holder is once the project has been created. */
  ghost function Creator(ws: Workspace, h: Holder, cap: Option<TokenScope>, id: int): Holder {
    if Through(HolderAccess(ws, h), cap).VisibleProjects().Only? then Extended(h, id) else h
  }

  lemma ListedTokenGetsNothing(access: Access, r: Resource, a: Action, id: int)
    requires access.cap.Some? && access.cap.value.projects.Some? && id !in access.cap.value.projects.value
    requires r.ScopeOf() == Scope.Project
    ensures !access.CanOnNewProject(r, a, id) && !access.Can(r, a, Some(id))
  {
  }

  lemma SeesAllAlready(access: Access, r: Resource, a: Action, id: int)
    requires access.VisibleProjects().All? && (access.cap.None? || access.cap.value.projects.None?)
    ensures access.CanOnNewProject(r, a, id) == access.Can(r, a, Some(id))
  {
    hide Access.VisibleProjects, Access.Can;
  }

  lemma SeesSome(access: Access, r: Resource, a: Action, id: int)
    requires access.VisibleProjects().Only? && (access.cap.None? || access.cap.value.projects.None?)
    ensures access.CanOnNewProject(r, a, id) == access.CanSomewhere(r, a)
  {
    hide Access.VisibleProjects, Access.Can, Access.CanSomewhere;
  }

  lemma OwnerSomewhere(ws: Workspace, h: Holder, cap: Option<TokenScope>, r: Resource, a: Action, id: int)
    requires h.admin && r.ScopeOf() == Scope.Project && !(r == Resource.Project && a == Read)
    requires cap.None? || cap.value.projects.None?
    ensures Through(HolderAccess(ws, h), cap).CanSomewhere(r, a)
        == Through(HolderAccess(ws, h), cap).Can(r, a, Some(id))
    ensures HolderAccess(ws, Extended(h, id)) == HolderAccess(ws, h)
  {
    var access := HolderAccess(ws, h);
    AccessCatalogued(ws, h);
    ResolveOne(Assignment(None, Grants.All()));
    assert access.instance.all;
  }

  /** The query asked before the project is there answers what holds on it afterwards, once the
      creator's roles have been extended to it: for any holder, token and permission on a project
      but seeing it, and any id that the token does not list. */
  lemma PredictsNewProject(ws: Workspace, h: Holder, cap: Option<TokenScope>, id: int, r: Resource, a: Action)
    requires r.ScopeOf() == Scope.Project && !(r == Resource.Project && a == Read)
    requires cap.Some? && cap.value.projects.Some? ==> id !in cap.value.projects.value
    ensures Through(HolderAccess(ws, h), cap).CanOnNewProject(r, a, id)
       <==> Through(HolderAccess(ws, Creator(ws, h, cap, id)), cap).Can(r, a, Some(id))
  {
    hide Access.Can, Access.CanOnNewProject, Access.CanSomewhere, Access.VisibleProjects, HolderAccess, Extended;
    var access := Through(HolderAccess(ws, h), cap);
    if cap.Some? && cap.value.projects.Some? {
      ListedTokenGetsNothing(access, r, a, id);
      ListedTokenGetsNothing(Through(HolderAccess(ws, Creator(ws, h, cap, id)), cap), r, a, id);
    } else if access.VisibleProjects().All? {
      SeesAllAlready(access, r, a, id);
    } else {
      SeesSome(access, r, a, id);
      if h.admin {
        OwnerSomewhere(ws, h, cap, r, a, id);
      } else {
        CanSomewhereExactly(access, r, a);
        ExtendedOnProject(ws, h, cap, id, r, a);
      }
    }
  }

  // ----- a new power -------------------------------------------------------------------

  /** An owner, and a user who holds one role on project 1. */
  const CREATORS: set<Permission> := {(Projects, Create), (Issues, Read)}
  const SOLO: Holder := Holder(false, {(0, Some(1))}, {})
  const OWNER: Holder := Holder(true, {}, {})
  const WORKSPACE: Workspace := Workspace(map[0 := CREATORS], map[0 := OWNER, 1 := SOLO], map[], false)

  lemma SoloHas(p: Permission, place: Option<int>)
    ensures Has(WORKSPACE, SOLO, p, place) <==> p in CREATORS && place == Some(1)
  {
    if p in CREATORS && place == Some(1) {
      assert HasByRole(WORKSPACE, SOLO, 0, p, place);
    }
  }

  lemma SoloCan(r: Resource, a: Action, q: Option<int>)
    ensures HolderAccess(WORKSPACE, SOLO).Can(r, a, q)
       <==> || PartCan(Lift((Projects, Create), Some(1)), None, r, a, q)
            || PartCan(Lift((Issues, Read), Some(1)), None, r, a, q)
  {
    hide PartCan, Lift, HolderAccess, Access.Can, Has;
    Unlimited(WORKSPACE, SOLO);
    MemberCanThrough(WORKSPACE, SOLO, None, r, a, q);
    forall p, place ensures Has(WORKSPACE, SOLO, p, place) <==> p in CREATORS && place == Some(1) {
      SoloHas(p, place);
    }
  }

  lemma LiftedParts(id: int)
    ensures PartCan(Lift((Projects, Create), Some(1)), None, Projects, Create, None)
    ensures PartCan(Lift((Issues, Read), Some(1)), None, Resource.Project, Read, Some(1))
    ensures PartCan(Lift((Issues, Read), Some(1)), None, Issues, Read, Some(1))
    ensures id != 1 ==>
      forall p, a | p in CREATORS && (a == Read) ::
        !PartCan(Lift(p, Some(1)), None, Resource.Project, a, Some(id))
            && !PartCan(Lift(p, Some(1)), None, Issues, a, Some(id))
  {
    var g := Grants.Of({(Issues, Read)});
    assert (Issues, Read) in g.pairs;
    var c := Grants.Of({(Projects, Create)});
    assert (Projects, Create) in c.pairs && forall p: Permission | p in c.pairs :: p == (Projects, Create);
    assert !c.AnyProjectGrant();
    NoEmptyShows(None);
  }

  lemma SoloExtends(id: int)
    requires id != 1
    ensures Extends(WORKSPACE, Some(1), None)
  {
    hide PartCan, Lift, HolderAccess, Access.Can, Access.VisibleProjects;
    var access := HolderAccess(WORKSPACE, SOLO);
    Unlimited(WORKSPACE, SOLO);
    assert AccessOf(WORKSPACE, Some(1)) == access;
    LiftedParts(id);
    SoloCan(Projects, Create, None);
    SoloCan(Resource.Project, Read, Some(1));
    SoloCan(Resource.Project, Read, Some(id));
    VisibleExactly(access, 1);
    VisibleExactly(access, id);
  }

  /** Creating a project can give a user, on it, what they could not do there before, nor anybody
      but the owner; they had it on another. */
  lemma CreationGivesNewPower(id: int)
    requires id != 1
    ensures var after := Apply(WORKSPACE, CreateProject(Some(1), None, id));
      && AccessOf(after, Some(1)).Can(Issues, Read, Some(id))
      && !GroupCan(WORKSPACE, iset{Some(1)}, Issues, Read, Some(id))
  {
    hide PartCan, Lift, HolderAccess, Access.Can, Extended, Extends, CreatorCan;
    SoloExtends(id);
    LiftedParts(id);
    SoloCan(Issues, Read, Some(1));
    SoloCan(Issues, Read, Some(id));
    assert AccessOf(WORKSPACE, Some(1)).Can(Issues, Read, Some(1));
    SomewhereFirst(Issues, Read, 1);
    CreationAddsExactly(WORKSPACE, Some(1), None, id, Some(1), Issues, Read, Some(id));
  }

  lemma SomewhereFirst(r: Resource, a: Action, q: int)
    requires AccessOf(WORKSPACE, Some(1)).Can(r, a, Some(q))
    ensures CreatorCan(WORKSPACE, Some(1), r, a)
  {
  }
}
