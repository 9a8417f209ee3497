/** Handing out permissions: `covers` is exact (apps/server/src/auth/rbac.rs, with the lifting
    in apps/server/src/services/role.rs). */
module RbacHandouts {
  import opened Wrappers
  import opened Rbac
  import opened RbacQueries

  /** How one permission of a held role is stored: a workspace permission applies wherever
      the role is held. */
  function Lift(p: Permission, place: Option<int>): Assignment {
    Assignment(if p.0.ScopeOf() == Scope.Project then place else None, Grants.Of({p}))
  }

  lemma SingleAllows(p: Permission, r: Resource, a: Action)
    requires p.0.Accepts(p.1)
    ensures Grants.Of({p}).Allows(r, a) <==> r == p.0 && (a == p.1 || (a == Read && r != Resource.ApiTokens))
  {
    assert forall q: Permission :: q in Grants.Of({p}).pairs <==> q == p;
  }

  // ----- covers ------------------------------------------------------------

  /** What a giver covers, the receiver of it cannot use beyond the giver. */
  lemma CoveredPairIsHeld(access: Access, p: Permission, place: Option<int>,
                          r: Resource, a: Action, q: Option<int>)
    requires access.Catalogued() && p.0.Accepts(p.1)
    requires access.CoversPair(p.0, p.1, place)
    requires PartCan(Lift(p, place), None, r, a, q)
    ensures access.Can(r, a, q)
  {
    if p.0.ScopeOf() == Scope.Project {
      CoveredOnProject(access, p, place, r, a, q);
    } else {
      CoveredOnWorkspace(access, p, place, r, a, q);
    }
  }

  lemma CoveredOnProject(access: Access, p: Permission, place: Option<int>,
                         r: Resource, a: Action, q: Option<int>)
    requires access.Catalogued() && p.0.Accepts(p.1) && p.0.ScopeOf() == Scope.Project
    requires access.CoversPair(p.0, p.1, place)
    requires PartCan(Lift(p, place), None, r, a, q)
    ensures access.Can(r, a, q)
  {
    hide PartCan, Lift, Access.Can, Access.Catalogued, Access.Everywhere, Grants.Allows;
    LiftedReach(p, place, r, a, q);
    if place.None? { EverywhereCan(access, p.0, p.1, q.value); }
    assert access.Can(p.0, p.1, q);
    AllowedImpliesVisible(access, p.0, p.1, q.value);
    if r != Resource.Project && a != p.1 { ReadImplied(access, p.0, p.1, q); }
  }

  lemma CoveredOnWorkspace(access: Access, p: Permission, place: Option<int>,
                           r: Resource, a: Action, q: Option<int>)
    requires p.0.Accepts(p.1) && p.0.ScopeOf() == Scope.Instance
    requires access.CoversPair(p.0, p.1, place)
    requires PartCan(Lift(p, place), None, r, a, q)
    ensures access.Can(r, a, q)
  {
    hide PartCan, Lift, Grants.Allows;
    LiftedWorkspace(p, place, r, a, q);
    assert access.Can(p.0, p.1, None);
    if a != p.1 { ReadImplied(access, p.0, p.1, None); }
    assert access.Can(r, a, None);
  }

  lemma LiftedReach(p: Permission, place: Option<int>, r: Resource, a: Action, q: Option<int>)
    requires p.0.Accepts(p.1) && p.0.ScopeOf() == Scope.Project
    requires PartCan(Lift(p, place), None, r, a, q)
    ensures q.Some? && (place.None? || place == q)
    ensures (r == Resource.Project && a == Read) || (r == p.0 && (a == p.1 || a == Read))
  {
    SingleAllows(p, r, a);
    assert !ShownThrough(None, Grants(false, {}));
  }

  lemma LiftedWorkspace(p: Permission, place: Option<int>, r: Resource, a: Action, q: Option<int>)
    requires p.0.Accepts(p.1) && p.0.ScopeOf() == Scope.Instance
    requires PartCan(Lift(p, place), None, r, a, q)
    ensures r == p.0 && (a == p.1 || (a == Read && r != Resource.ApiTokens))
  {
    SingleAllows(p, r, a);
    assert forall x: Permission :: x in Grants.Of({p}).pairs <==> x == p;
    assert !ShownThrough(None, Grants(false, {}));
    assert !ShownThrough(None, Grants.Of({p}));
  }

  lemma ReadImplied(access: Access, r: Resource, a: Action, q: Option<int>)
    requires access.Can(r, a, q) && r != Resource.ApiTokens && r != Resource.Project
    ensures access.Can(r, Read, q)
  {
    if access.instance.Allows(r, a) { AllowsRead(access.instance, r, a); }
    if q.Some? && q.value in access.projects && access.projects[q.value].Allows(r, a) {
      AllowsRead(access.projects[q.value], r, a);
    }
    if access.cap.Some? { AllowsRead(access.cap.value.grants, r, a); }
  }

  lemma CoversIsPairwise(access: Access, g: Grants, place: Option<int>)
    requires !g.all
    ensures access.Covers(g, place) <==> forall p <- g.pairs :: access.CoversPair(p.0, p.1, place)
  {
  }

  /** The use a receiver could make of one permission at `place`. */
  ghost predicate NoGainFromPair(access: Access, p: Permission, place: Option<int>) {
    forall r, a, q | PartCan(Lift(p, place), None, r, a, q) :: access.Can(r, a, q)
  }

  lemma LiftedUse(p: Permission, place: Option<int>, q: Option<int>)
    requires p.0.Accepts(p.1)
    requires p.0.ScopeOf() == Scope.Project ==> q.Some? && (place.None? || place == q)
    ensures PartCan(Lift(p, place), None, p.0, p.1, q)
  {
    SingleAllows(p, p.0, p.1);
  }

  lemma PairCoveredExactly(access: Access, p: Permission, place: Option<int>)
    requires access.Catalogued() && p.0.Accepts(p.1)
    ensures access.CoversPair(p.0, p.1, place) <==> NoGainFromPair(access, p, place)
  {
    if access.CoversPair(p.0, p.1, place) {
      forall r, a, q | PartCan(Lift(p, place), None, r, a, q) ensures access.Can(r, a, q) {
        CoveredPairIsHeld(access, p, place, r, a, q);
      }
    }
    if NoGainFromPair(access, p, place) {
      if p.0.ScopeOf() == Scope.Instance {
        LiftedUse(p, place, None);
      } else if place.Some? {
        LiftedUse(p, place, place);
      } else {
        var unnamed := FreshId(access.NamedProjects());
        LiftedUse(p, place, Some(unnamed));
        OnUnnamedProject(access, p.0, p.1, unnamed);
      }
    }
  }

  /** `covers` is exact, at a project or everywhere, with or without a token: it holds if and
      only if somebody holding just these permissions there can do nothing the giver cannot. */
  lemma CoversExactly(access: Access, g: Grants, place: Option<int>)
    requires access.Catalogued() && g.Catalogued() && !g.all
    ensures access.Covers(g, place) <==> forall p <- g.pairs :: NoGainFromPair(access, p, place)
  {
    CoversIsPairwise(access, g, place);
    forall p <- g.pairs ensures access.CoversPair(p.0, p.1, place) <==> NoGainFromPair(access, p, place) {
      assert (p.0, p.1) == p;
      PairCoveredExactly(access, p, place);
    }
  }

  /** `rows` are the stored permissions of somebody given `g` at `place` and nothing else. */
  ghost predicate RowsOf(rows: seq<Assignment>, g: Grants, place: Option<int>) {
    && (forall x <- rows :: exists p :: p in g.pairs && x == Lift(p, place))
    && (forall p <- g.pairs :: Lift(p, place) in rows)
  }

  /** The same, in terms of the receiver: `covers` holds if and only if a user holding only
      these grants can do nothing the giver cannot. */
  lemma CoversIsNoEscalation(access: Access, g: Grants, place: Option<int>, rows: seq<Assignment>)
    requires access.Catalogued() && g.Catalogued() && !g.all && RowsOf(rows, g, place)
    ensures access.Covers(g, place) <==> forall r, a, q | Resolve(rows).Can(r, a, q) :: access.Can(r, a, q)
  {
    CoversExactly(access, g, place);
    ResolveIsTogether(rows);
    assert Through(Resolve(rows), None) == Resolve(rows);
    forall r, a, q ensures Resolve(rows).Can(r, a, q) <==> SomeAssignmentAllows(rows, None, r, a, q) {
      FoldMeansSomeAssignment(rows, None, r, a, q);
    }
    if forall r, a, q | Resolve(rows).Can(r, a, q) :: access.Can(r, a, q) {
      forall p <- g.pairs ensures NoGainFromPair(access, p, place) {
        forall r, a, q | PartCan(Lift(p, place), None, r, a, q) ensures access.Can(r, a, q) {
          assert SomeAssignmentAllows(rows, None, r, a, q);
        }
      }
    }
    if access.Covers(g, place) {
      forall r, a, q | Resolve(rows).Can(r, a, q) ensures access.Can(r, a, q) {
        var x :| x in rows && PartCan(x, None, r, a, q);
        var p :| p in g.pairs && x == Lift(p, place);
        assert NoGainFromPair(access, p, place);
      }
    }
  }

  lemma OwnerCan(access: Access, r: Resource, a: Action, q: Option<int>)
    requires access.Catalogued() && access.IsOwner()
    ensures access.Can(r, a, q) <==> (r.ScopeOf() == Scope.Instance || q.Some?)
  {
    if r == Resource.Project && a == Read {
      GrantShows(access, access.instance, Resource.Issues, Read);
    }
  }

  /** An "everything" grant, wherever it is given, is covered exactly by those who can already do
      everything everywhere, catalogued or not. */
  lemma CoversAllExactly(access: Access, place: Option<int>)
    requires access.Catalogued()
    ensures access.Covers(Grants.All(), place)
       <==> forall r, a, q | Resolve([Assignment(None, Grants.All())]).Can(r, a, q) :: access.Can(r, a, q)
  {
    var solo := Resolve([Assignment(None, Grants.All())]);
    ResolveOne(Assignment(None, Grants.All()));
    assert solo.IsOwner() && solo.Catalogued();
    forall r, a, q ensures solo.Can(r, a, q) <==> (r.ScopeOf() == Scope.Instance || q.Some?) {
      OwnerCan(solo, r, a, q);
    }
    if access.IsOwner() {
      forall r, a, q | solo.Can(r, a, q) ensures access.Can(r, a, q) { OwnerCan(access, r, a, q); }
    }
    if forall r, a, q | solo.Can(r, a, q) :: access.Can(r, a, q) {
      // No role can name this pair, so only an "everything" grant allows it.
      assert access.Can(Resource.Mcp, Create, None);
      assert !Resource.Mcp.Accepts(Create);
      var unnamed := FreshId(access.NamedProjects());
      assert access.Can(Resource.Issues, Read, Some(unnamed));
      OnUnnamedProject(access, Resource.Issues, Read, unnamed);
    }
  }
}
