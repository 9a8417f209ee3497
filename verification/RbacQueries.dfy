/** The derived queries of an `Access` agree with its `Can`
    (apps/server/src/auth/rbac.rs, apps/server/src/auth/extractors.rs). */
module RbacQueries {
  import opened Wrappers
  import opened Rbac

  // ----- order and growth of assignments -----------------------------------

  /** All that the assignments for one place grant together. */
  ghost function Together(assignments: seq<Assignment>, pid: Option<int>): Grants {
    Grants(exists x | x in assignments :: x.projectId == pid && x.grants.all,
           set x, p | x in assignments && x.projectId == pid && p in x.grants.pairs :: p)
  }

  lemma TogetherSnoc(front: seq<Assignment>, x: Assignment, pid: Option<int>)
    ensures Together(front + [x], pid)
         == if x.projectId == pid then Together(front, pid).Add(x.grants) else Together(front, pid)
  {
    assert forall y :: y in front + [x] <==> y in front || y == x;
    var whole, part := Together(front + [x], pid), Together(front, pid);
    assert whole.pairs == if x.projectId == pid then part.pairs + x.grants.pairs else part.pairs;
  }

  lemma {:induction false} ResolveIsTogether(assignments: seq<Assignment>)
    ensures Resolve(assignments).cap == None
    ensures Resolve(assignments).instance == Together(assignments, None)
    ensures forall id ::
      id in Resolve(assignments).projects <==> exists x :: x in assignments && x.projectId == Some(id)
    ensures forall id <- Resolve(assignments).projects ::
      Resolve(assignments).projects[id] == Together(assignments, Some(id))
  {
    if assignments != [] {
      var n := |assignments| - 1;
      var front, x := assignments[..n], assignments[n];
      assert assignments == front + [x];
      ResolveIsTogether(front);
      TogetherSnoc(front, x, None);
      forall id: int
        ensures id in Resolve(assignments).projects <==> exists y :: y in assignments && y.projectId == Some(id)
        ensures id in Resolve(assignments).projects
            ==> Resolve(assignments).projects[id] == Together(assignments, Some(id))
      {
        TogetherSnoc(front, x, Some(id));
        if id !in Resolve(front).projects {
          assert Together(front, Some(id)) == Grants(false, {});
        }
        if exists y :: y in assignments && y.projectId == Some(id) {
          var y :| y in assignments && y.projectId == Some(id);
          assert y in front || y == x;
        }
        if exists y :: y in front && y.projectId == Some(id) {
          var y :| y in front && y.projectId == Some(id);
          assert y in assignments;
        }
        if x.projectId == Some(id) { assert x in assignments; }
      }
    } else {
      assert Together([], None) == Grants(false, {});
    }
  }

  /** The order of a user's assignments, and repeating one, make no difference to any query. */
  lemma OrderIndependent(as1: seq<Assignment>, as2: seq<Assignment>)
    requires forall x :: x in as1 <==> x in as2
    ensures Resolve(as1) == Resolve(as2)
  {
    ResolveIsTogether(as1);
    ResolveIsTogether(as2);
    forall pid ensures Together(as1, pid) == Together(as2, pid) {
      assert Together(as1, pid).pairs == Together(as2, pid).pairs;
    }
    var p1, p2 := Resolve(as1).projects, Resolve(as2).projects;
    forall id: int ensures id in p1 <==> id in p2 {
      assert id in p1 <==> exists x :: x in as1 && x.projectId == Some(id);
      assert id in p2 <==> exists x :: x in as2 && x.projectId == Some(id);
    }
    assert p1.Keys == p2.Keys;
    forall id <- p1 ensures p1[id] == p2[id] {
      assert p1[id] == Together(as1, Some(id));
    }
    assert p1 == p2;
  }

  /** More assignments never take a permission away, with or without a token. */
  lemma MoreAssignmentsAllowMore(fewer: seq<Assignment>, more: seq<Assignment>, cap: Option<TokenScope>,
                                 r: Resource, a: Action, pid: Option<int>)
    requires forall x :: x in fewer ==> x in more
    requires Through(Resolve(fewer), cap).Can(r, a, pid)
    ensures Through(Resolve(more), cap).Can(r, a, pid)
  {
    FoldMeansSomeAssignment(fewer, cap, r, a, pid);
    FoldMeansSomeAssignment(more, cap, r, a, pid);
  }

  // ----- visibility ---------------------------------------------------------

  predicate InScope(scope: ProjectScope, id: int) {
    scope.All? || id in scope.ids
  }

  /** `visible_projects` names exactly the projects on which `(Project, Read)` is allowed. */
  lemma VisibleExactly(access: Access, id: int)
    ensures InScope(access.VisibleProjects(), id) <==> access.Can(Resource.Project, Read, Some(id))
  {
    var shown := set i | i in access.projects && access.ShowsProject(access.projects[i]);
    assert id in SortedIds(shown) <==> id in shown;
  }

  lemma AllowsRead(g: Grants, r: Resource, a: Action)
    requires g.Allows(r, a) && r != Resource.ApiTokens
    ensures g.Allows(r, Read)
  {
  }

  /** Both sets of grants keep some project permission when both allow the same one. */
  lemma SharedGrant(g: Grants, h: Grants, r: Resource, a: Action)
    requires g.Catalogued() && h.Catalogued()
    requires r.ScopeOf() == Scope.Project && !(r == Resource.Project && a == Read)
    requires g.Allows(r, a) && h.Allows(r, a)
    ensures g.SharesProjectGrant(h)
  {
    if r.Accepts(a) {
    } else if r.Accepts(Read) {
      AllowsRead(g, r, a);
      AllowsRead(h, r, a);
    } else {
      assert r == Resource.Project && a == Create;
      assert g.all && h.all;
      assert Resource.Issues.Accepts(Read);
    }
  }

  lemma GrantShows(access: Access, g: Grants, r: Resource, a: Action)
    requires access.Catalogued() && g.Catalogued()
    requires r.ScopeOf() == Scope.Project && !(r == Resource.Project && a == Read)
    requires g.Allows(r, a)
    requires access.cap.Some? ==> access.cap.value.grants.Allows(r, a)
    ensures access.ShowsProject(g)
  {
    if access.cap.Some? {
      SharedGrant(g, access.cap.value.grants, r, a);
    }
  }

  /** Any allowed action on a project's resource implies seeing the project. */
  lemma AllowedImpliesVisible(access: Access, r: Resource, a: Action, id: int)
    requires access.Catalogued() && r.ScopeOf() == Scope.Project
    requires access.Can(r, a, Some(id))
    ensures access.Can(Resource.Project, Read, Some(id))
  {
    if !(r == Resource.Project && a == Read) {
      if access.instance.Allows(r, a) {
        GrantShows(access, access.instance, r, a);
      } else {
        GrantShows(access, access.projects[id], r, a);
      }
    }
  }

  datatype Denial = NotFound | Forbidden

  /** `ApiActor::require`: a project that cannot be seen is reported as missing. */
  function Require(access: Access, r: Resource, a: Action, pid: Option<int>): Result<(), Denial> {
    if pid.Some? && !access.Can(Resource.Project, Read, pid) then Err(NotFound)
    else if access.Can(r, a, pid) then Ok(())
    else Err(Forbidden)
  }

  /** `require` succeeds exactly when `can` does and the project, if one is named, is visible;
      a named project that is not is reported as missing, and everything else is forbidden. For a
      project's resource the first is just `can`. */
  lemma RequireExactly(access: Access, r: Resource, a: Action, pid: Option<int>)
    requires access.Catalogued()
    ensures var seen := pid.None? || InScope(access.VisibleProjects(), pid.value);
      && (Require(access, r, a, pid) == Ok(()) <==> seen && access.Can(r, a, pid))
      && (Require(access, r, a, pid) == Err(NotFound) <==> !seen)
      && (Require(access, r, a, pid) == Err(Forbidden) <==> seen && !access.Can(r, a, pid))
    ensures r.ScopeOf() == Scope.Project ==> (Require(access, r, a, pid).Ok? <==> access.Can(r, a, pid))
  {
    if pid.Some? {
      VisibleExactly(access, pid.value);
      if r.ScopeOf() == Scope.Project && access.Can(r, a, pid) {
        AllowedImpliesVisible(access, r, a, pid.value);
      }
    }
  }

  // ----- queries that quantify over projects --------------------------------

  lemma {:induction false} FreshId(s: set<int>) returns (id: int)
    ensures forall x <- s :: x < id
    decreases |s|
  {
    if s == {} {
      id := 0;
    } else {
      var x := Pick(s);
      assert s == {x} + (s - {x});
      id := FreshId(s - {x});
      if id <= x { id := x + 1; }
    }
  }

  /** On a project named by no assignment and no token, only what is held everywhere is allowed. */
  lemma OnUnnamedProject(access: Access, r: Resource, a: Action, id: int)
    requires r.ScopeOf() == Scope.Project && !(r == Resource.Project && a == Read)
    requires id !in access.NamedProjects()
    ensures access.Can(r, a, Some(id)) <==> access.Everywhere(r, a)
  {
  }

  lemma EverywhereCan(access: Access, r: Resource, a: Action, id: int)
    requires r.ScopeOf() == Scope.Project && !(r == Resource.Project && a == Read)
    requires access.Everywhere(r, a)
    ensures access.Can(r, a, Some(id))
  {
  }

  /** `instance_pairs` lists a project permission exactly when it holds on every project. */
  lemma InstancePairsExactly(access: Access, r: Resource, a: Action)
    requires r.Accepts(a)
    ensures r.ScopeOf() == Scope.Project ==>
              ((r, a) in access.InstancePairs() <==> forall id :: access.Can(r, a, Some(id)))
    ensures r.ScopeOf() == Scope.Instance ==> ((r, a) in access.InstancePairs() <==> access.Can(r, a, None))
  {
    if r.ScopeOf() == Scope.Project {
      var unnamed := FreshId(access.NamedProjects());
      OnUnnamedProject(access, r, a, unnamed);
      if access.Everywhere(r, a) {
        forall id ensures access.Can(r, a, Some(id)) { EverywhereCan(access, r, a, id); }
      }
    }
  }

  lemma PairsOnContents(access: Access, r: Resource, a: Action, id: int)
    requires r.Accepts(a) && r.ScopeOf() == Scope.Project
    ensures (id in access.ProjectPairs() && (r, a) in access.ProjectPairs()[id])
       <==> id in access.NamedProjects() && access.Can(r, a, Some(id))
  {
    assert (r, a) in access.PairsOn(id) <==> access.Can(r, a, Some(id));
  }

  lemma HoldsOnProjectExactly(access: Access, r: Resource, a: Action)
    requires r.Accepts(a) && r.ScopeOf() == Scope.Project
    ensures access.HoldsSomewhere(r, a) <==> exists id :: access.Can(r, a, Some(id))
  {
    InstancePairsExactly(access, r, a);
    forall id ensures (id in access.ProjectPairs() && (r, a) in access.ProjectPairs()[id])
                 <==> id in access.NamedProjects() && access.Can(r, a, Some(id)) {
      PairsOnContents(access, r, a, id);
    }
    if exists id :: access.Can(r, a, Some(id)) {
      var id :| access.Can(r, a, Some(id));
      if id !in access.NamedProjects() {
        OnUnnamedProject(access, r, a, id);
        forall other ensures access.Can(r, a, Some(other)) { EverywhereCan(access, r, a, other); }
      }
    }
    if (r, a) in access.InstancePairs() {
      assert access.Can(r, a, Some(0));
    }
  }

  lemma HoldsOnWorkspaceExactly(access: Access, r: Resource, a: Action)
    requires r.Accepts(a) && r.ScopeOf() == Scope.Instance
    ensures access.HoldsSomewhere(r, a) <==> access.Can(r, a, None)
  {
    hide Access.Can, Access.InstancePairs, Access.NamedProjects;
    InstancePairsExactly(access, r, a);
    assert forall id :: (r, a) !in access.PairsOn(id);
  }

  /** `holds_somewhere` is true exactly when the workspace allows it, or for a permission on
      projects some project does. */
  lemma HoldsSomewhereExactly(access: Access, r: Resource, a: Action)
    requires r.Accepts(a)
    ensures access.HoldsSomewhere(r, a)
       <==> if r.ScopeOf() == Scope.Instance then access.Can(r, a, None) else exists id :: access.Can(r, a, Some(id))
  {
    hide Access.Can, Access.HoldsSomewhere;
    if r.ScopeOf() == Scope.Instance {
      HoldsOnWorkspaceExactly(access, r, a);
    } else {
      HoldsOnProjectExactly(access, r, a);
    }
  }

  /** `can_somewhere` too: the keys and the token's list are enough to look at. */
  lemma CanSomewhereExactly(access: Access, r: Resource, a: Action)
    requires r.ScopeOf() == Scope.Project && !(r == Resource.Project && a == Read)
    ensures access.CanSomewhere(r, a) <==> exists id :: access.Can(r, a, Some(id))
  {
    if access.CanSomewhere(r, a) {
      var id := SomewhereWitness(access, r, a);
    }
    if exists id :: access.Can(r, a, Some(id)) {
      var id :| access.Can(r, a, Some(id));
      assert access.Held(r, a, Some(id)) && access.CappedBy(r, a, Some(id));
    }
  }

  lemma SomewhereWitness(access: Access, r: Resource, a: Action) returns (id: int)
    requires r.ScopeOf() == Scope.Project && !(r == Resource.Project && a == Read)
    requires access.CanSomewhere(r, a)
    ensures access.Can(r, a, Some(id))
  {
    if access.cap.Some? && access.cap.value.projects.Some? {
      id :| id in access.cap.value.projects.value && access.Held(r, a, Some(id));
    } else if access.instance.Allows(r, a) {
      id := 0;
    } else {
      id :| id in access.projects && access.projects[id].Allows(r, a);
    }
  }

  /** What a user may do on a project they just created: what they may do on every project when
      they already see all of them, otherwise what they may do on some project; nothing through
      a token that lists its projects. Never more than they hold somewhere. */
  lemma CanOnNewProjectExactly(access: Access, r: Resource, a: Action, id: int)
    requires r.ScopeOf() == Scope.Project && !(r == Resource.Project && a == Read)
    requires id !in access.NamedProjects()
    ensures access.CanOnNewProject(r, a, id)
       <==> && (access.cap.None? || access.cap.value.projects.None?)
            && if access.VisibleProjects().All? then access.Everywhere(r, a)
               else exists other :: access.Can(r, a, Some(other))
    ensures access.CanOnNewProject(r, a, id) ==> exists other :: access.Can(r, a, Some(other))
  {
    hide Access.Can, Access.VisibleProjects, Access.CanSomewhere;
    OnUnnamedProject(access, r, a, id);
    CanSomewhereExactly(access, r, a);
  }
}
