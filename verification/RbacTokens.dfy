/** What limiting an access to a token's scope may and may not change
    (apps/server/src/auth/rbac.rs). */
module RbacTokens {
  import opened Wrappers
  import opened Rbac

  /** A token never does more than its owner. */
  lemma TokenNeverExceedsOwner(access: Access, scope: TokenScope, r: Resource, a: Action, pid: Option<int>)
    requires access.cap.None?
    requires access.Capped(scope).Can(r, a, pid)
    ensures access.Can(r, a, pid)
  {
    if r == Resource.Project && a == Read {
      var onInstance := access.Capped(scope).ShowsProject(access.instance);
      var g := if onInstance then access.instance else access.projects[pid.value];
      SharedIsProjectGrant(g, scope.grants);
    }
  }

  lemma SharedIsProjectGrant(g: Grants, h: Grants)
    requires g.SharesProjectGrant(h)
    ensures g.AnyProjectGrant()
  {
    var r: Resource, a: Action :| r.Accepts(a) && r.ScopeOf() == Scope.Project && g.Allows(r, a) && h.Allows(r, a);
    if !g.all {
      var b: Action :| (r, b) in g.pairs;
    }
  }

  predicate FewerGrants(g: Grants, h: Grants) {
    h.all || (!g.all && g.pairs <= h.pairs)
  }

  /** A scope narrower in its permissions, in its projects, or in both. */
  ghost predicate Narrower(s: TokenScope, t: TokenScope) {
    && FewerGrants(s.grants, t.grants)
    && (forall id: int :: s.Lists(id) ==> t.Lists(id))
  }

  /** Narrowing a token's permissions or projects never lets it do more. */
  lemma NarrowingAllowsLess(access: Access, s: TokenScope, t: TokenScope, r: Resource, a: Action, pid: Option<int>)
    requires Narrower(s, t)
    requires access.Capped(s).Can(r, a, pid)
    ensures access.Capped(t).Can(r, a, pid)
  {
    forall x: Resource, b: Action | s.grants.Allows(x, b) ensures t.grants.Allows(x, b) {}
    if r == Resource.Project && a == Read {
      assert t.Lists(pid.value);
      forall g: Grants | g.SharesProjectGrant(s.grants) ensures g.SharesProjectGrant(t.grants) {}
    } else {
      assert access.Held(r, a, pid) == access.Capped(s).Held(r, a, pid) == access.Capped(t).Held(r, a, pid);
    }
  }

  /** Every permission on every project. */
  const UNLIMITED: TokenScope := TokenScope(Grants(true, {}), None)

  lemma UnlimitedShows(access: Access, g: Grants)
    requires access.cap.None? && g.Catalogued()
    ensures access.Capped(UNLIMITED).ShowsProject(g) == access.ShowsProject(g)
  {
    CataloguedIsGrounded(g);
    UnlimitedShowsExactly(access, g);
  }

  lemma EntryCatalogued(access: Access, id: int)
    requires access.Catalogued() && id in access.projects
    ensures access.projects[id].Catalogued()
  {
  }

  lemma UnlimitedCan(access: Access, r: Resource, a: Action, pid: Option<int>)
    requires access.Catalogued() && access.cap.None?
    ensures access.Capped(UNLIMITED).Can(r, a, pid) == access.Can(r, a, pid)
  {
    hide Grants.Allows, Access.ShowsProject, Grants.Catalogued;
    if r == Resource.Project && a == Read {
      UnlimitedShows(access, access.instance);
      if pid.Some? && pid.value in access.projects {
        EntryCatalogued(access, pid.value);
        UnlimitedShows(access, access.projects[pid.value]);
      }
    } else {
      UnlimitedHeld(access, r, a, pid);
    }
  }

  lemma UnlimitedHeld(access: Access, r: Resource, a: Action, pid: Option<int>)
    ensures access.Capped(UNLIMITED).Held(r, a, pid) == access.Held(r, a, pid)
    ensures access.Held(r, a, pid) ==> access.Capped(UNLIMITED).CappedBy(r, a, pid)
  {
  }

  /** A token for everything answers every query exactly as its owner would. */
  lemma UnlimitedTokenChangesNothing(access: Access)
    requires access.Catalogued() && access.cap.None?
    ensures var token := access.Capped(UNLIMITED);
      && (forall r, a, pid :: token.Can(r, a, pid) == access.Can(r, a, pid))
      && (forall r, a :: token.ScopeAllows(r, a) == access.ScopeAllows(r, a))
      && (forall r, a :: token.CanSomewhere(r, a) == access.CanSomewhere(r, a))
      && token.VisibleProjects() == access.VisibleProjects()
      && (forall g, pid :: token.Covers(g, pid) == access.Covers(g, pid))
      && token.InstancePairs() == access.InstancePairs()
      && token.ProjectPairs() == access.ProjectPairs()
      && token.IsOwner() == access.IsOwner()
      && (forall r, a :: token.HoldsSomewhere(r, a) == access.HoldsSomewhere(r, a))
      && (forall r, a, id :: token.CanOnNewProject(r, a, id) == access.CanOnNewProject(r, a, id))
  {
    var token := access.Capped(UNLIMITED);
    forall r, a, pid ensures token.Can(r, a, pid) == access.Can(r, a, pid) {
      UnlimitedCan(access, r, a, pid);
    }
    forall r, a ensures token.CanSomewhere(r, a) == access.CanSomewhere(r, a) {
    }
    UnlimitedVisible(access);
    forall r, a, pid ensures token.CoversPair(r, a, pid) == access.CoversPair(r, a, pid) {
      assert token.Everywhere(r, a) == access.Everywhere(r, a);
    }
    assert token.NamedProjects() == access.NamedProjects();
    forall id ensures token.PairsOn(id) == access.PairsOn(id) {
    }
  }

  lemma UnlimitedVisible(access: Access)
    requires access.Catalogued() && access.cap.None?
    ensures access.Capped(UNLIMITED).VisibleProjects() == access.VisibleProjects()
  {
    hide Access.VisibleProjects, Grounded, Grants.Catalogued;
    CataloguedIsGrounded(access.instance);
    forall id <- access.projects ensures Grounded(access.projects[id]) {
      EntryCatalogued(access, id);
      CataloguedIsGrounded(access.projects[id]);
    }
    UnlimitedVisibleExactly(access);
  }

  /** These grants show a project through a token for everything as they do without it: they
      hold everything, nothing on projects, or something there that the catalog knows. */
  predicate Grounded(g: Grants) {
    g.all || !g.AnyProjectGrant()
    || exists r: Resource, a: Action | (r, a) in g.pairs ::
         r.ScopeOf() == Scope.Project && (r.Accepts(a) || r.Accepts(Read))
  }

  /** Visibility through a token for everything agrees with no token exactly on such grants. */
  lemma UnlimitedShowsExactly(access: Access, g: Grants)
    requires access.cap.None?
    ensures access.Capped(UNLIMITED).ShowsProject(g) == access.ShowsProject(g) <==> Grounded(g)
  {
    if g.SharesProjectGrant(UNLIMITED.grants) {
      SharedIsProjectGrant(g, UNLIMITED.grants);
      if !g.all {
        var r: Resource, a: Action :| r.Accepts(a) && r.ScopeOf() == Scope.Project && g.Allows(r, a);
        if (r, a) !in g.pairs {
          var b: Action :| (r, b) in g.pairs;
        }
      }
    } else if Grounded(g) && g.AnyProjectGrant() {
      KnownGrantIsShared(g);
      assert false;
    }
  }

  lemma KnownGrantIsShared(g: Grants)
    requires Grounded(g) && g.AnyProjectGrant()
    ensures g.SharesProjectGrant(UNLIMITED.grants)
  {
    if g.all {
      assert Resource.Issues.Accepts(Read);
    } else {
      var r: Resource, a: Action :|
        (r, a) in g.pairs && r.ScopeOf() == Scope.Project && (r.Accepts(a) || r.Accepts(Read));
      assert g.Allows(r, a) && g.Allows(r, Read);
    }
  }

  /** The whole query: the same projects are visible exactly when the grants on the instance are
      such, and if those show nothing the grants on each project are. */
  lemma UnlimitedVisibleExactly(access: Access)
    requires access.cap.None?
    ensures access.Capped(UNLIMITED).VisibleProjects() == access.VisibleProjects()
       <==> Grounded(access.instance)
            && (access.ShowsProject(access.instance) || forall id <- access.projects :: Grounded(access.projects[id]))
  {
    hide Access.ShowsProject, Grounded, Access.VisibleProjects, Shown, SortedIds;
    var token := access.Capped(UNLIMITED);
    UnlimitedShowsExactly(access, access.instance);
    TokenShowsLess(access, access.instance);
    VisibleIs(access);
    VisibleIs(token);
    SameListSameIds(Shown(access), Shown(token));
    ShownAgrees(access);
  }

  lemma SameListSameIds(s: set<int>, t: set<int>)
    ensures SortedIds(s) == SortedIds(t) <==> s == t
  {
    if SortedIds(s) == SortedIds(t) {
      forall id ensures id in s <==> id in t { assert id in SortedIds(s) <==> id in SortedIds(t); }
    }
  }

  lemma ShownAgrees(access: Access)
    requires access.cap.None?
    ensures Shown(access) == Shown(access.Capped(UNLIMITED))
        <==> forall id <- access.projects :: Grounded(access.projects[id])
  {
    hide Access.ShowsProject, Grounded;
    var token := access.Capped(UNLIMITED);
    forall id | id in access.projects
      ensures Grounded(access.projects[id]) <==> (id in Shown(access) <==> id in Shown(token))
    {
      UnlimitedShowsExactly(access, access.projects[id]);
      assert token.projects[id] == access.projects[id];
    }
    if Shown(access) == Shown(token) {
      forall id <- access.projects ensures Grounded(access.projects[id])
      {
        assert id in Shown(access) <==> id in Shown(token);
      }
    }
    if forall id <- access.projects :: Grounded(access.projects[id]) {
      forall id ensures id in Shown(access) <==> id in Shown(token) {
        if id in access.projects { assert Grounded(access.projects[id]); }
      }
    }
  }

  /** The projects that show through assignments naming them. */
  function Shown(access: Access): set<int> {
    set id | id in access.projects && access.ShowsProject(access.projects[id])
  }

  lemma VisibleIs(access: Access)
    requires access.cap.None? || access.cap.value.projects.None?
    ensures access.VisibleProjects()
         == if access.ShowsProject(access.instance) then ProjectScope.All else Only(SortedIds(Shown(access)))
  {
    hide Access.ShowsProject;
    assert (set id | id in access.projects && access.ShowsProject(access.projects[id])) == Shown(access);
  }

  lemma TokenShowsLess(access: Access, g: Grants)
    requires access.cap.None?
    ensures access.Capped(UNLIMITED).ShowsProject(g) ==> access.ShowsProject(g)
  {
    if g.SharesProjectGrant(UNLIMITED.grants) { SharedIsProjectGrant(g, UNLIMITED.grants); }
  }

  /** Stored pairs of the catalog are always such grants. */
  lemma CataloguedIsGrounded(g: Grants)
    requires g.Catalogued()
    ensures Grounded(g)
  {
    if !g.all && g.AnyProjectGrant() {
      var r: Resource, a: Action :| (r, a) in g.pairs && r.ScopeOf() == Scope.Project;
    }
  }

  /** The catalog invariant is needed: a stored pair outside the catalog shows every project to
      its holder and none to a token for everything. */
  lemma UnlimitedNeedsCatalog()
    ensures var access := Access(Grants(false, {(Resource.Project, Create)}), map[], None);
      && access.VisibleProjects().All?
      && access.Capped(UNLIMITED).VisibleProjects().Only?
  {
    var g := Grants(false, {(Resource.Project, Create)});
    assert (Resource.Project, Create) in g.pairs;
    forall r: Resource, a: Action | r.Accepts(a) && g.Allows(r, a) ensures r.ScopeOf() != Scope.Project {
    }
  }
}
