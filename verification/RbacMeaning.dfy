/** What access comes to, in terms of stored pairs and places alone (apps/server/src/auth/rbac.rs). */
module RbacMeaning {
  import opened Wrappers
  import opened Rbac
  import opened RbacQueries

  // ----- assignments -------------------------------------------------------------------

  /** These grants name the permission: everything, the pair itself, or for reading any other pair
      of the resource. Reading API tokens is implied by nothing. */
  predicate Names(g: Grants, r: Resource, a: Action) {
    g.all || (r, a) in g.pairs || (a == Read && r != Resource.ApiTokens && exists b: Action :: (r, b) in g.pairs)
  }

  /** These grants name some permission on projects. */
  predicate NamesOnProjects(g: Grants) {
    g.all || exists p | p in g.pairs :: p.0.ScopeOf() == Scope.Project
  }

  /** Where an assignment counts: one on the instance everywhere, one on a project only there, and
      never for the workspace. */
  predicate Reaches(x: Assignment, r: Resource, pid: Option<int>) {
    if r.ScopeOf() == Scope.Instance then x.projectId.None?
    else pid.Some? && (x.projectId.None? || x.projectId == pid)
  }

  ghost predicate SomeNames(assignments: seq<Assignment>, r: Resource, a: Action, pid: Option<int>) {
    exists x | x in assignments :: Reaches(x, r, pid) && Names(x.grants, r, a)
  }

  ghost predicate SomeShows(assignments: seq<Assignment>, pid: Option<int>) {
    exists x | x in assignments :: Reaches(x, Resource.Project, pid) && NamesOnProjects(x.grants)
  }

  lemma PartMeans(x: Assignment, r: Resource, a: Action, pid: Option<int>)
    ensures PartCan(x, None, r, a, pid)
       <==> if r == Resource.Project && a == Read
            then Reaches(x, r, pid) && NamesOnProjects(x.grants)
            else Reaches(x, r, pid) && Names(x.grants, r, a)
  {
    if r == Resource.Project && a == Read {
      PartShowsMeans(x, pid);
    }
  }

  lemma PartShowsMeans(x: Assignment, pid: Option<int>)
    ensures pid.Some? && PartShows(x, None, pid.value)
       <==> Reaches(x, Resource.Project, pid) && NamesOnProjects(x.grants)
  {
    AnyMeans(x.grants);
    AnyMeans(Grants(false, {}));
  }

  lemma AnyMeans(g: Grants)
    ensures g.AnyProjectGrant() <==> NamesOnProjects(g)
  {
    if g.AnyProjectGrant() && !g.all {
      var r: Resource, a: Action :| (r, a) in g.pairs && r.ScopeOf() == Scope.Project;
      var p := (r, a);
      assert p in g.pairs && p.0.ScopeOf() == Scope.Project;
    }
    if NamesOnProjects(g) && !g.all {
      var p :| p in g.pairs && p.0.ScopeOf() == Scope.Project;
      assert (p.0, p.1) in g.pairs;
    }
  }

  /** What is allowed: an assignment that reaches this place names it; and a project is seen when
      one that reaches it names any permission on projects. */
  lemma CanMeans(assignments: seq<Assignment>, r: Resource, a: Action, pid: Option<int>)
    ensures Resolve(assignments).Can(r, a, pid)
       <==> if r == Resource.Project && a == Read then SomeShows(assignments, pid)
            else SomeNames(assignments, r, a, pid)
  {
    hide PartCan, Access.Can, Names, NamesOnProjects, Reaches;
    FoldMeansSomeAssignment(assignments, None, r, a, pid);
    ResolveIsTogether(assignments);
    assert Through(Resolve(assignments), None) == Resolve(assignments);
    forall x ensures PartCan(x, None, r, a, pid)
       <==> if r == Resource.Project && a == Read
            then Reaches(x, r, pid) && NamesOnProjects(x.grants)
            else Reaches(x, r, pid) && Names(x.grants, r, a)
    {
      PartMeans(x, r, a, pid);
    }
  }

  // ----- tokens ------------------------------------------------------------------------

  predicate Listed(scope: TokenScope, pid: Option<int>) {
    pid.Some? && (scope.projects.None? || pid.value in scope.projects.value)
  }

  /** A token does what its owner can, of what its own grants name, on the projects it lists; on
      the workspace its list does not count. */
  lemma TokenMeans(access: Access, scope: TokenScope, r: Resource, a: Action, pid: Option<int>)
    requires access.cap.None? && !(r == Resource.Project && a == Read)
    ensures access.Capped(scope).Can(r, a, pid)
       <==> && access.Can(r, a, pid) && Names(scope.grants, r, a)
            && (r.ScopeOf() == Scope.Instance || Listed(scope, pid))
  {
  }

  /** And it sees the listed projects on which its owner holds some permission of the catalog that
      its own grants name too. */
  lemma TokenSees(access: Access, scope: TokenScope, pid: Option<int>)
    requires access.cap.None?
    ensures access.Capped(scope).Can(Resource.Project, Read, pid)
       <==> Listed(scope, pid) && SharesOn(access, scope, pid.value)
  {
    var token := access.Capped(scope);
    if pid.Some? {
      SharesMeans(access.instance, scope.grants);
      if pid.value in access.projects { SharesMeans(access.projects[pid.value], scope.grants); }
      if SharesOn(access, scope, pid.value) {
        var r: Resource, a: Action :| r.Accepts(a) && r.ScopeOf() == Scope.Project
          && access.Held(r, a, pid) && Names(scope.grants, r, a);
      }
    }
  }

  /** The owner holds on this project, by itself, some catalog permission that the scope names. */
  ghost predicate SharesOn(access: Access, scope: TokenScope, id: int) {
    exists r: Resource, a: Action | r.Accepts(a) ::
      r.ScopeOf() == Scope.Project && access.Held(r, a, Some(id)) && Names(scope.grants, r, a)
  }

  lemma SharesMeans(g: Grants, h: Grants)
    ensures g.SharesProjectGrant(h)
       <==> exists r: Resource, a: Action | r.Accepts(a) ::
              r.ScopeOf() == Scope.Project && Names(g, r, a) && Names(h, r, a)
  {
  }

  /** What a token was limited to allows something exactly when the token of somebody who can do
      everything does, at some place; without a token nothing is limited. */
  lemma ScopeAllowsExactly(access: Access, scope: TokenScope, r: Resource, a: Action)
    requires !(r == Resource.Project && a == Read)
    requires scope.projects.Some? ==> scope.projects.value != []
    ensures access.Capped(scope).ScopeAllows(r, a)
       <==> exists pid :: Access(Grants.All(), map[], None).Capped(scope).Can(r, a, pid)
    ensures access.cap.None? ==> access.ScopeAllows(r, a)
  {
    var owner := Access(Grants.All(), map[], None);
    forall pid ensures owner.Capped(scope).Can(r, a, pid)
      <==> owner.Can(r, a, pid) && Names(scope.grants, r, a) && (r.ScopeOf() == Scope.Instance || Listed(scope, pid))
    {
      TokenMeans(owner, scope, r, a, pid);
    }
    var first := Some(if scope.projects.Some? then scope.projects.value[0] else 0);
    assert Listed(scope, first) && owner.Can(r, a, first);
  }
}
