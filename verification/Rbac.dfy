/** The permission catalog and how role assignments combine into access
    (apps/server/src/auth/rbac.rs). */
module Rbac {
  import opened Wrappers

  datatype Scope = Instance | Project

  datatype Action = Read | Create | Update | Delete

  datatype Resource =
    | Projects | Users | Invitations | Roles | ApiTokens
    | Integrations | GithubApp | Storage | Mcp | Telemetry
    | Issues | Performance | Logs | Sessions
    | Releases | SourceMaps
    | AlertRules | Monitors
    | Project | ClientKeys | ProjectMembers | ProjectGithub
  {
    function ScopeOf(): Scope {
      match this
      case Projects | Users | Invitations | Roles | ApiTokens
         | Integrations | GithubApp | Storage | Mcp | Telemetry => Scope.Instance
      case _ => Scope.Project
    }

    function Actions(): seq<Action> {
      match this
      case Projects => [Create]
      case Users => [Read, Update, Delete]
      case Invitations => [Read, Create, Delete]
      case Roles => [Read, Create, Update, Delete]
      case ApiTokens => [Read, Create, Delete]
      case Integrations => [Read, Create, Update, Delete]
      case GithubApp => [Read, Update]
      case Storage => [Read, Update, Delete]
      case Mcp => [Update]
      case Telemetry => [Read]
      case Issues => [Read, Update, Delete]
      case Performance => [Read]
      case Logs => [Read]
      case Sessions => [Read]
      case Releases => [Read, Create, Update]
      case SourceMaps => [Read, Create]
      case AlertRules => [Read, Create, Update, Delete]
      case Monitors => [Read, Create, Update, Delete]
      case Project => [Update, Delete]
      case ClientKeys => [Read]
      case ProjectMembers => [Read, Update]
      case ProjectGithub => [Read, Update]
    }

    predicate Accepts(action: Action) {
      action in Actions()
    }
  }

  type Permission = (Resource, Action)

  /** Every permission there is. */
  function CatalogPairs(): (pairs: set<Permission>)
    ensures forall r: Resource, a: Action :: (r, a) in pairs <==> r.Accepts(a)
  {
    set r: Resource, a: Action | r.Accepts(a) :: (r, a)
  }

  /** The grants of one role, or of one token. */
  datatype Grants = Grants(all: bool, pairs: set<Permission>) {

    static function All(): Grants {
      Grants(true, {})
    }

    /** These pairs, minus any action the resource does not accept. */
    static function Of(pairs: set<Permission>): (g: Grants)
      ensures g.Catalogued()
    {
      Grants(false, set p | p in pairs && p.0.Accepts(p.1))
    }

    predicate Allows(resource: Resource, action: Action) {
      || all
      || (resource, action) in pairs
      || (action == Read && resource != Resource.ApiTokens && exists a: Action :: (resource, a) in pairs)
    }

    predicate AnyProjectGrant() {
      all || exists r: Resource, a: Action | (r, a) in pairs :: r.ScopeOf() == Scope.Project
    }

    predicate SharesProjectGrant(other: Grants) {
      exists r: Resource, a: Action | r.Accepts(a) ::
        r.ScopeOf() == Scope.Project && Allows(r, a) && other.Allows(r, a)
    }

    function Add(other: Grants): Grants {
      Grants(all || other.all, pairs + other.pairs)
    }

    /** What `Of` establishes: every stored pair is in the catalog. */
    predicate Catalogued() {
      forall r: Resource, a: Action | (r, a) in pairs :: r.Accepts(a)
    }
  }

  datatype Assignment = Assignment(projectId: Option<int>, grants: Grants)

  datatype ProjectScope = All | Only(ids: seq<int>)

  datatype TokenScope = TokenScope(grants: Grants, projects: Option<seq<int>>) {

    predicate Allows(resource: Resource, action: Action, projectId: Option<int>) {
      if resource.ScopeOf() == Scope.Instance then grants.Allows(resource, action)
      else
        && projectId.Some?
        && Lists(projectId.value)
        && grants.Allows(resource, action)
    }

    predicate AllowsEverywhere(resource: Resource, action: Action) {
      projects.None? && grants.Allows(resource, action)
    }

    predicate Lists(id: int) {
      projects.None? || id in projects.value
    }
  }

  /** What one user may do, narrowed to a token's scope when they act through one. */
  datatype Access = Access(instance: Grants, projects: map<int, Grants>, cap: Option<TokenScope>) {

    predicate Catalogued() {
      && instance.Catalogued()
      && (forall id <- projects :: projects[id].Catalogued())
      && (cap.Some? ==> cap.value.grants.Catalogued())
    }

    function Capped(scope: TokenScope): Access {
      this.(cap := Some(scope))
    }

    predicate CappedBy(resource: Resource, action: Action, projectId: Option<int>) {
      cap.None? || cap.value.Allows(resource, action, projectId)
    }

    /** Whether `action` on `resource` is allowed. */
    predicate Can(resource: Resource, action: Action, projectId: Option<int>) {
      if resource == Resource.Project && action == Read then
        projectId.Some? && SeesProject(projectId.value)
      else
        Held(resource, action, projectId) && CappedBy(resource, action, projectId)
    }

    predicate ScopeAllows(resource: Resource, action: Action) {
      cap.None? || cap.value.grants.Allows(resource, action)
    }

    predicate ShowsProject(grants: Grants) {
      match cap
      case Some(c) => grants.SharesProjectGrant(c.grants)
      case None => grants.AnyProjectGrant()
    }

    predicate SeesProject(id: int) {
      && (cap.None? || cap.value.Lists(id))
      && (ShowsProject(instance) || (id in projects && ShowsProject(projects[id])))
    }

    /** The grants held on one project by assignments naming it. */
    function GrantsOn(id: int): Grants {
      if id in projects then projects[id] else Grants(false, {})
    }

    predicate Held(resource: Resource, action: Action, projectId: Option<int>) {
      if resource.ScopeOf() == Scope.Instance then instance.Allows(resource, action)
      else
        && projectId.Some?
        && (|| instance.Allows(resource, action)
            || (projectId.value in projects && projects[projectId.value].Allows(resource, action)))
    }

    /** Whether `action` on a project resource is allowed on at least one project. */
    predicate CanSomewhere(resource: Resource, action: Action) {
      if cap.Some? && !cap.value.grants.Allows(resource, action) then false
      else if cap.Some? && cap.value.projects.Some? then
        exists id | id in cap.value.projects.value :: Held(resource, action, Some(id))
      else
        instance.Allows(resource, action) || exists id | id in projects :: projects[id].Allows(resource, action)
    }

    /** Whether `action` is allowed on a project this user just created. */
    predicate CanOnNewProject(resource: Resource, action: Action, id: int) {
      if cap.Some? && cap.value.projects.Some? then false
      else match VisibleProjects()
        case All => Can(resource, action, Some(id))
        case Only(_) => CanSomewhere(resource, action)
    }

    /** The projects this user can see at all. */
    function VisibleProjects(): ProjectScope {
      var held :=
        if ShowsProject(instance) then ProjectScope.All
        else Only(SortedIds(set id | id in projects && ShowsProject(projects[id])));
      if cap.None? || cap.value.projects.None? then held
      else
        var allowed := cap.value.projects.value;
        match held
        case All => Only(allowed)
        case Only(ids) => Only(Filter(ids, id => id in allowed))
    }

    /** Reaches every project, through the instance and through the token. */
    predicate Everywhere(resource: Resource, action: Action) {
      && instance.Allows(resource, action)
      && (cap.None? || cap.value.AllowsEverywhere(resource, action))
    }

    /** Whether handing out `grants` where they would apply is no escalation. */
    predicate Covers(grants: Grants, projectId: Option<int>) {
      if grants.all then IsOwner()
      else forall p | p in grants.pairs :: CoversPair(p.0, p.1, projectId)
    }

    predicate CoversPair(r: Resource, a: Action, projectId: Option<int>) {
      match (r.ScopeOf(), projectId)
      case (Instance, _) => Can(r, a, None)
      case (Project, Some(p)) => Can(r, a, Some(p))
      case (Project, None) => Everywhere(r, a)
    }

    /** What holds everywhere: workspace permissions, and project permissions on every project. */
    function InstancePairs(): set<Permission> {
      set p | p in CatalogPairs()
              && if p.0.ScopeOf() == Scope.Instance then Can(p.0, p.1, None) else Everywhere(p.0, p.1)
    }

    function NamedProjects(): set<int> {
      projects.Keys + if cap.Some? && cap.value.projects.Some? then (set id | id in cap.value.projects.value) else {}
    }

    function PairsOn(id: int): set<Permission> {
      set p | p in CatalogPairs() && p.0.ScopeOf() == Scope.Project && Can(p.0, p.1, Some(id))
    }

    /** What holds on each project named by an assignment or a token's scope. */
    function ProjectPairs(): map<int, set<Permission>> {
      map id | id in NamedProjects() && PairsOn(id) != {} :: PairsOn(id)
    }

    /** Whether this holds on the workspace or on at least one project. */
    predicate HoldsSomewhere(resource: Resource, action: Action) {
      || (resource, action) in InstancePairs()
      || exists id | id in ProjectPairs() :: (resource, action) in ProjectPairs()[id]
    }

    /** Holds every permission on the whole instance, unrestricted. */
    predicate IsOwner() {
      && instance.all
      && (cap.None? || (cap.value.grants.all && cap.value.projects.None?))
    }
  }

  lemma {:induction false} LeastExists(s: set<int>) returns (m: int)
    requires s != {}
    ensures m in s && forall x <- s :: m <= x
    decreases |s|
  {
    var x := Pick(s);
    if s == {x} {
      m := x;
    } else {
      var rest := s - {x};
      assert s == rest + {x};
      m := LeastExists(rest);
      if x < m { m := x; }
    }
  }

  function Least(s: set<int>): (m: int)
    requires s != {}
    ensures m in s && forall x <- s :: m <= x
  {
    assert exists m :: m in s && forall x <- s :: m <= x by { var m := LeastExists(s); }
    var m :| m in s && forall x <- s :: m <= x;
    m
  }

  /** The given ids in increasing order, each once (`sort_unstable`, `dedup`). */
  function SortedIds(s: set<int>): (ids: seq<int>)
    ensures forall x :: x in ids <==> x in s
    decreases |s|
  {
    if s == {} then []
    else
      var m := Least(s);
      assert s == {m} + (s - {m});
      [m] + SortedIds(s - {m})
  }

  lemma {:induction false} SortedIdsIncrease(s: set<int>, i: nat, j: nat)
    requires i < j < |SortedIds(s)|
    ensures SortedIds(s)[i] < SortedIds(s)[j]
    decreases |s|
  {
    var m, rest := Least(s), s - {Least(s)};
    assert SortedIds(s) == [m] + SortedIds(rest);
    if i == 0 {
      assert SortedIds(rest)[j - 1] in rest;
    } else {
      assert s == {m} + rest;
      SortedIdsIncrease(rest, i - 1, j - 1);
    }
  }

  // ----- resolving assignments --------------------------------------------

  const NO_ACCESS: Access := Access(Grants(false, {}), map[], None)

  function AddAssignment(access: Access, a: Assignment): Access {
    match a.projectId
    case None => access.(instance := access.instance.Add(a.grants))
    case Some(id) =>
      var entry := if id in access.projects then access.projects[id] else Grants(false, {});
      access.(projects := access.projects[id := entry.Add(a.grants)])
  }

  /** The access of someone holding `assignments`, folded from the first to the last. */
  function Resolve(assignments: seq<Assignment>): Access {
    if assignments == [] then NO_ACCESS
    else AddAssignment(Resolve(assignments[..|assignments| - 1]), assignments[|assignments| - 1])
  }

  method NewAccess(assignments: seq<Assignment>) returns (access: Access)
    ensures access == Resolve(assignments)
  {
    access := NO_ACCESS;
    for i := 0 to |assignments|
      invariant access == Resolve(assignments[..i])
    {
      var a := assignments[i];
      match a.projectId {
        case None =>
          access := access.(instance := access.instance.Add(a.grants));
        case Some(id) =>
          var entry := if id in access.projects then access.projects[id] else Grants(false, {});
          access := access.(projects := access.projects[id := entry.Add(a.grants)]);
      }
      assert assignments[..i + 1][..i] == assignments[..i];
    }
    assert assignments[..|assignments|] == assignments;
  }

  /** Access through an optional token. */
  function Through(access: Access, cap: Option<TokenScope>): Access {
    access.(cap := cap)
  }

  /** Whether these grants show a project, through an optional token. */
  predicate ShownThrough(cap: Option<TokenScope>, g: Grants) {
    Through(NO_ACCESS, cap).ShowsProject(g)
  }

  lemma AddDistributes(g: Grants, h: Grants, r: Resource, a: Action)
    ensures g.Add(h).Allows(r, a) <==> g.Allows(r, a) || h.Allows(r, a)
  {
  }

  lemma ShowsDistributes(cap: Option<TokenScope>, g: Grants, h: Grants)
    ensures ShownThrough(cap, g.Add(h)) <==> ShownThrough(cap, g) || ShownThrough(cap, h)
  {
    forall r: Resource, a: Action ensures g.Add(h).Allows(r, a) <==> g.Allows(r, a) || h.Allows(r, a) {
      AddDistributes(g, h, r, a);
    }
  }

  /** What an assignment adds to the instance and to each project. */
  function InstancePart(x: Assignment): Grants {
    if x.projectId.None? then x.grants else Grants(false, {})
  }

  function ProjectPart(x: Assignment, id: int): Grants {
    if x.projectId == Some(id) then x.grants else Grants(false, {})
  }

  lemma AddAssignmentParts(access: Access, x: Assignment, id: int)
    ensures AddAssignment(access, x).instance == access.instance.Add(InstancePart(x))
    ensures AddAssignment(access, x).GrantsOn(id) == access.GrantsOn(id).Add(ProjectPart(x, id))
  {
  }

  lemma HeldByParts(access: Access, r: Resource, a: Action, pid: Option<int>)
    ensures access.Held(r, a, pid)
       <==> if r.ScopeOf() == Scope.Instance then access.instance.Allows(r, a)
            else pid.Some? && (access.instance.Allows(r, a) || access.GrantsOn(pid.value).Allows(r, a))
  {
  }

  lemma SeesByParts(access: Access, cap: Option<TokenScope>, id: int)
    ensures Through(access, cap).SeesProject(id)
       <==> && (cap.None? || cap.value.Lists(id))
            && (ShownThrough(cap, access.instance) || ShownThrough(cap, access.GrantsOn(id)))
  {
  }

  /** An assignment on its own allows this where it reaches. */
  predicate PartAllows(x: Assignment, r: Resource, a: Action, pid: Option<int>) {
    if r.ScopeOf() == Scope.Instance then InstancePart(x).Allows(r, a)
    else pid.Some? && (InstancePart(x).Allows(r, a) || ProjectPart(x, pid.value).Allows(r, a))
  }

  lemma HeldPart(start: Access, x: Assignment, r: Resource, a: Action, pid: Option<int>)
    ensures AddAssignment(start, x).Held(r, a, pid) <==> start.Held(r, a, pid) || PartAllows(x, r, a, pid)
  {
    var id := if pid.Some? then pid.value else 0;
    AddAssignmentParts(start, x, id);
    HeldByParts(AddAssignment(start, x), r, a, pid);
    HeldByParts(start, r, a, pid);
    AddDistributes(start.instance, InstancePart(x), r, a);
    AddDistributes(start.GrantsOn(id), ProjectPart(x, id), r, a);
  }

  /** What an assignment allows by itself, through an optional token. */
  predicate PartCan(x: Assignment, cap: Option<TokenScope>, r: Resource, a: Action, pid: Option<int>) {
    if r == Resource.Project && a == Read then pid.Some? && PartShows(x, cap, pid.value)
    else PartAllows(x, r, a, pid) && (cap.None? || cap.value.Allows(r, a, pid))
  }

  /** An assignment on its own shows this project. */
  predicate PartShows(x: Assignment, cap: Option<TokenScope>, id: int) {
    && (cap.None? || cap.value.Lists(id))
    && (ShownThrough(cap, InstancePart(x)) || ShownThrough(cap, ProjectPart(x, id)))
  }

  lemma SeesPart(start: Access, x: Assignment, cap: Option<TokenScope>, id: int)
    ensures Through(AddAssignment(start, x), cap).SeesProject(id)
       <==> Through(start, cap).SeesProject(id) || PartShows(x, cap, id)
  {
    AddAssignmentParts(start, x, id);
    SeesByParts(AddAssignment(start, x), cap, id);
    SeesByParts(start, cap, id);
    ShowsDistributes(cap, start.instance, InstancePart(x));
    ShowsDistributes(cap, start.GrantsOn(id), ProjectPart(x, id));
  }

  /** One more assignment adds exactly what it allows on its own. */
  lemma OneMoreAssignment(access: Access, x: Assignment, cap: Option<TokenScope>,
                          r: Resource, a: Action, pid: Option<int>)
    ensures Through(AddAssignment(access, x), cap).Can(r, a, pid)
       <==> Through(access, cap).Can(r, a, pid) || PartCan(x, cap, r, a, pid)
  {
    if r == Resource.Project && a == Read {
      if pid.Some? { SeesPart(access, x, cap, pid.value); }
    } else {
      HeldPart(access, x, r, a, pid);
      CanByHeld(AddAssignment(access, x), cap, r, a, pid);
      CanByHeld(access, cap, r, a, pid);
    }
  }

  lemma CanByHeld(access: Access, cap: Option<TokenScope>, r: Resource, a: Action, pid: Option<int>)
    requires !(r == Resource.Project && a == Read)
    ensures Through(access, cap).Can(r, a, pid)
        <==> access.Held(r, a, pid) && (cap.None? || cap.value.Allows(r, a, pid))
  {
  }

  lemma ResolveOne(x: Assignment)
    ensures Resolve([x]) == AddAssignment(NO_ACCESS, x)
  {
    assert [x][..0] == [];
  }

  lemma NothingByDefault(cap: Option<TokenScope>, r: Resource, a: Action, pid: Option<int>)
    ensures !Through(NO_ACCESS, cap).Can(r, a, pid)
  {
    assert !ShownThrough(cap, Grants(false, {}));
  }

  /** The simple meaning of a list of assignments: some one of them, held alone, allows it. */
  ghost predicate SomeAssignmentAllows(assignments: seq<Assignment>, cap: Option<TokenScope>,
                                       r: Resource, a: Action, pid: Option<int>)
  {
    exists x | x in assignments :: PartCan(x, cap, r, a, pid)
  }

  lemma SomeOfSnoc(front: seq<Assignment>, x: Assignment, cap: Option<TokenScope>,
                   r: Resource, a: Action, pid: Option<int>)
    ensures SomeAssignmentAllows(front + [x], cap, r, a, pid)
       <==> SomeAssignmentAllows(front, cap, r, a, pid) || PartCan(x, cap, r, a, pid)
  {
    assert forall y :: y in front + [x] <==> y in front || y == x;
  }

  /** Folding refines the simple meaning, with or without a token. */
  lemma {:induction false} FoldMeansSomeAssignment(assignments: seq<Assignment>, cap: Option<TokenScope>,
                                                   r: Resource, a: Action, pid: Option<int>)
    ensures Through(Resolve(assignments), cap).Can(r, a, pid) <==> SomeAssignmentAllows(assignments, cap, r, a, pid)
  {
    if assignments == [] {
      NothingByDefault(cap, r, a, pid);
    } else {
      var n := |assignments| - 1;
      var front, x := assignments[..n], assignments[n];
      assert assignments == front + [x];
      FoldMeansSomeAssignment(front, cap, r, a, pid);
      OneMoreAssignment(Resolve(front), x, cap, r, a, pid);
      SomeOfSnoc(front, x, cap, r, a, pid);
    }
  }
}
