/** A workspace and the changes of its roles, members, invitations and projects
    (apps/server/src/routes/roles.rs, members.rs, invitations.rs, team.rs and projects.rs, with
    apps/server/src/services/role.rs). */
module RbacWorkspace {
  import opened Wrappers
  import opened Rbac
  import opened RbacQueries
  import opened RbacTokens
  import opened RbacHandouts

  /** A user, or who an invitation makes one: an owner of the instance, the roles they hold and
      where, and the permissions they hold by themselves. */
  datatype Holder = Holder(admin: bool, held: set<(nat, Option<int>)>, personal: set<(Permission, Option<int>)>)

  /** `ownerless`: there is a token from before tokens had owners, which may do everything. */
  datatype Workspace = Workspace(roles: map<nat, set<Permission>>, holders: map<nat, Holder>,
                                 invitations: map<nat, Holder>, ownerless: bool)

  /** Who acts: a user, directly or through a token of theirs, or the ownerless token. */
  type Actor = Option<nat>

  const OWNERLESS: Holder := Holder(true, {}, {})

  /** Changes of roles, members, invitations and projects. */
  datatype Change =
    | Assign(giver: Actor, cap: Option<TokenScope>, user: nat, role: nat, place: Option<int>)
    | WriteRole(giver: Actor, cap: Option<TokenScope>, role: nat, permissions: set<Permission>)
    | SetPersonal(giver: Actor, cap: Option<TokenScope>, user: nat, permissions: set<Permission>,
                  places: set<Option<int>>)
    | Promote(giver: Actor, cap: Option<TokenScope>, user: nat)
    | Invite(giver: Actor, cap: Option<TokenScope>, invitation: nat, admin: bool, roles: set<nat>, place: Option<int>)
    | Accept(invitation: nat, user: nat)
    | Revoke(invitation: nat)
    | Demote(user: nat)
    | Unassign(user: nat, role: nat, place: Option<int>)
    | DropRole(role: nat)
    | RemoveUser(user: nat)
    | DropOwnerless
    | CreateProject(creator: Actor, cap: Option<TokenScope>, id: int)

  /** One row per assignment and permission of its role, and per permission held personally. */
  function Rows(ws: Workspace, h: Holder): set<Assignment> {
    (set e, p | e in h.held && e.0 in ws.roles && p in ws.roles[e.0] :: Lift(p, e.1))
    + (set e | e in h.personal :: Lift(e.0, e.1))
  }

  ghost function Listed<T(!new)>(s: set<T>): (xs: seq<T>)
    ensures forall x :: x in xs <==> x in s
    decreases |s|
  {
    if s == {} then []
    else
      var x :| x in s;
      assert s == {x} + (s - {x});
      [x] + Listed(s - {x})
  }

  ghost function HolderAccess(ws: Workspace, h: Holder): Access {
    if h.admin then Resolve([Assignment(None, Grants.All())]) else Resolve(Listed(Rows(ws, h)))
  }

  function HolderOf(ws: Workspace, actor: Actor): Option<Holder> {
    match actor
    case None => if ws.ownerless then Some(OWNERLESS) else None
    case Some(user) => if user in ws.holders then Some(ws.holders[user]) else None
  }

  ghost function AccessOf(ws: Workspace, actor: Actor): Access {
    match HolderOf(ws, actor)
    case None => NO_ACCESS
    case Some(h) => HolderAccess(ws, h)
  }

  /** The giver may hand out these permissions at `place`. */
  ghost predicate MayGive(ws: Workspace, giver: Actor, cap: Option<TokenScope>, permissions: set<Permission>,
                          place: Option<int>) {
    && (cap.Some? ==> cap.value.grants.Catalogued())
    && Through(AccessOf(ws, giver), cap).Covers(Grants.Of(permissions), place)
  }

  /** The giver may make owners. */
  ghost predicate MayOwn(ws: Workspace, giver: Actor, cap: Option<TokenScope>) {
    (cap.Some? ==> cap.value.grants.Catalogued()) && Through(AccessOf(ws, giver), cap).IsOwner()
  }

  /** The guards of creating a project. */
  ghost predicate MayCreate(ws: Workspace, creator: Actor, cap: Option<TokenScope>) {
    var access := Through(AccessOf(ws, creator), cap);
    access.Can(Projects, Create, None) && access.VisibleProjects() != Only([])
  }

  /** The creator's own roles extend to the project, unless they already see every project. */
  ghost predicate Extends(ws: Workspace, creator: Actor, cap: Option<TokenScope>) {
    && MayCreate(ws, creator, cap)
    && creator.Some? && creator.value in ws.holders
    && Through(AccessOf(ws, creator), cap).VisibleProjects().Only?
  }

  /** Every role and personal permission of this holder's, wherever it is held, on `id` too. */
  function Extended(h: Holder, id: int): Holder {
    h.(held := h.held + (set e | e in h.held :: (e.0, Some(id))),
       personal := h.personal + (set e | e in h.personal :: (e.0, Some(id))))
  }

  /** A refused change leaves the workspace as it was. */
  ghost function Apply(ws: Workspace, c: Change): Workspace {
    match c
    case Assign(giver, cap, user, role, place) =>
      if role in ws.roles && user in ws.holders && MayGive(ws, giver, cap, ws.roles[role], place) then
        var h := ws.holders[user];
        ws.(holders := ws.holders[user := h.(held := h.held + {(role, place)})])
      else ws
    case WriteRole(giver, cap, role, permissions) =>
      if && MayGive(ws, giver, cap, permissions, None)
         && (role in ws.roles ==> MayGive(ws, giver, cap, ws.roles[role], None))
      then ws.(roles := ws.roles[role := Grants.Of(permissions).pairs]) else ws
    case SetPersonal(giver, cap, user, permissions, places) =>
      if user in ws.holders && forall place <- places :: MayGive(ws, giver, cap, permissions, place) then
        ws.(holders := ws.holders[user := ws.holders[user].(personal := Spread(permissions, places))])
      else ws
    case Promote(giver, cap, user) =>
      if user in ws.holders && MayOwn(ws, giver, cap)
      then ws.(holders := ws.holders[user := ws.holders[user].(admin := true)]) else ws
    case Invite(giver, cap, invitation, admin, roles, place) =>
      if && (admin ==> MayOwn(ws, giver, cap))
         && (forall role <- roles :: role in ws.roles && MayGive(ws, giver, cap, ws.roles[role], place))
      then
        var invited := Holder(admin, set role | role in roles :: (role, place), {});
        ws.(invitations := ws.invitations[invitation := invited])
      else ws
    case Accept(invitation, user) =>
      if invitation in ws.invitations && user !in ws.holders
      then ws.(holders := ws.holders[user := ws.invitations[invitation]],
               invitations := ws.invitations - {invitation}) else ws
    case Revoke(invitation) => ws.(invitations := ws.invitations - {invitation})
    case Demote(user) =>
      if user in ws.holders then ws.(holders := ws.holders[user := ws.holders[user].(admin := false)]) else ws
    case Unassign(user, role, place) =>
      if user in ws.holders then
        var h := ws.holders[user];
        ws.(holders := ws.holders[user := h.(held := h.held - {(role, place)})])
      else ws
    case DropRole(role) => ws.(roles := ws.roles - {role})
    case RemoveUser(user) => ws.(holders := ws.holders - {user})
    case DropOwnerless => ws.(ownerless := false)
    case CreateProject(creator, cap, id) =>
      if Extends(ws, creator, cap)
      then ws.(holders := ws.holders[creator.value := Extended(ws.holders[creator.value], id)]) else ws
  }

  function Spread(permissions: set<Permission>, places: set<Option<int>>): set<(Permission, Option<int>)> {
    set p, place | p in Grants.Of(permissions).pairs && place in places :: (p, place)
  }

  ghost function Run(ws: Workspace, changes: seq<Change>): Workspace
    decreases |changes|
  {
    if changes == [] then ws else Run(Apply(ws, changes[0]), changes[1..])
  }

  /** Some row of this holder allows it. */
  ghost predicate RowAllows(ws: Workspace, h: Holder, r: Resource, a: Action, q: Option<int>) {
    exists x :: x in Rows(ws, h) && PartCan(x, None, r, a, q)
  }

  lemma MemberCan(ws: Workspace, h: Holder, r: Resource, a: Action, q: Option<int>)
    requires !h.admin
    ensures HolderAccess(ws, h).Can(r, a, q) <==> RowAllows(ws, h, r, a, q)
  {
    hide PartCan, Access.Can, Rows;
    var rows := Listed(Rows(ws, h));
    FoldMeansSomeAssignment(rows, None, r, a, q);
    ResolveIsTogether(rows);
    assert Through(Resolve(rows), None) == Resolve(rows);
  }

  lemma ResolveCatalogued(assignments: seq<Assignment>)
    requires forall x <- assignments :: x.grants.Catalogued()
    ensures Resolve(assignments).Catalogued()
  {
    ResolveIsTogether(assignments);
    forall pid ensures Together(assignments, pid).Catalogued() {
      forall r: Resource, a: Action | (r, a) in Together(assignments, pid).pairs ensures r.Accepts(a) {
        var x :| x in assignments && x.projectId == pid && (r, a) in x.grants.pairs;
      }
    }
  }

  lemma AccessCatalogued(ws: Workspace, h: Holder)
    ensures HolderAccess(ws, h).Catalogued() && HolderAccess(ws, h).cap.None?
  {
    var rows := if h.admin then [Assignment(None, Grants.All())] else Listed(Rows(ws, h));
    ResolveCatalogued(rows);
    ResolveIsTogether(rows);
  }

  // ----- owners ----------------------------------------------------------------

  lemma AdminCan(ws: Workspace, h: Holder, r: Resource, a: Action, q: Option<int>)
    requires h.admin
    ensures HolderAccess(ws, h).Can(r, a, q) <==> (r.ScopeOf() == Scope.Instance || q.Some?)
  {
    ResolveOne(Assignment(None, Grants.All()));
    AccessCatalogued(ws, h);
    OwnerCan(HolderAccess(ws, h), r, a, q);
  }

  /** Only what is held on some project or on the workspace can be used. */
  lemma UseHasPlace(access: Access, r: Resource, a: Action, q: Option<int>)
    requires access.Can(r, a, q)
    ensures r.ScopeOf() == Scope.Instance || q.Some?
  {
  }

  /** Whoever may make owners can do whatever can be done, through the token they use. */
  lemma MakerOfOwnersCan(ws: Workspace, giver: Actor, cap: Option<TokenScope>, r: Resource, a: Action, q: Option<int>)
    requires MayOwn(ws, giver, cap) && (r.ScopeOf() == Scope.Instance || q.Some?)
    ensures Through(AccessOf(ws, giver), cap).Can(r, a, q)
  {
    assert HolderOf(ws, giver).Some?;
    AccessCatalogued(ws, HolderOf(ws, giver).value);
    OwnerCan(Through(AccessOf(ws, giver), cap), r, a, q);
  }

  /** Only owners hold everything. */
  lemma OnlyOwnersHoldAll(ws: Workspace, h: Holder)
    ensures HolderAccess(ws, h).instance.all ==> h.admin
  {
    if !h.admin {
      var rows := Listed(Rows(ws, h));
      ResolveIsTogether(rows);
      assert forall x <- rows :: !x.grants.all;
    }
  }

  lemma MakerOfOwnersIsOne(ws: Workspace, giver: Actor, cap: Option<TokenScope>)
    requires MayOwn(ws, giver, cap)
    ensures HolderOf(ws, giver).Some? && HolderOf(ws, giver).value.admin
  {
    hide HolderAccess;
    if HolderOf(ws, giver).Some? { OnlyOwnersHoldAll(ws, HolderOf(ws, giver).value); }
  }

  // ----- what a giver may hand out -------------------------------------------------

  /** What `MayGive` accepts, the giver can already do, through the token they use. */
  lemma GiverCan(ws: Workspace, giver: Actor, cap: Option<TokenScope>, permissions: set<Permission>,
                 place: Option<int>, p: Permission, r: Resource, a: Action, q: Option<int>)
    requires MayGive(ws, giver, cap, permissions, place)
    requires p in Grants.Of(permissions).pairs && PartCan(Lift(p, place), None, r, a, q)
    ensures Through(AccessOf(ws, giver), cap).Can(r, a, q)
  {
    hide PartCan, Access.Can, HolderAccess, Access.CoversPair;
    if HolderOf(ws, giver).Some? { AccessCatalogued(ws, HolderOf(ws, giver).value); }
    var access := Through(AccessOf(ws, giver), cap);
    assert (p.0, p.1) == p;
    CoversIsPairwise(access, Grants.Of(permissions), place);
    CoveredPairIsHeld(access, p, place, r, a, q);
  }

  lemma ThroughIsLess(ws: Workspace, actor: Actor, cap: Option<TokenScope>, r: Resource, a: Action, q: Option<int>)
    requires Through(AccessOf(ws, actor), cap).Can(r, a, q)
    ensures AccessOf(ws, actor).Can(r, a, q)
  {
    hide Access.Can, HolderAccess;
    var access := AccessOf(ws, actor);
    if HolderOf(ws, actor).Some? { AccessCatalogued(ws, HolderOf(ws, actor).value); }
    assert access.cap.None?;
    if cap.Some? { TokenNeverExceedsOwner(access, cap.value, r, a, q); } else { assert Through(access, cap) == access; }
  }

  lemma OutsidersCannot(ws: Workspace, actor: Actor, r: Resource, a: Action, q: Option<int>)
    requires AccessOf(ws, actor).Can(r, a, q)
    ensures HolderOf(ws, actor).Some?
  {
    NothingByDefault(None, r, a, q);
    assert Through(NO_ACCESS, None) == NO_ACCESS;
  }

  /** A role held on one project reaches no further than the same role held everywhere. */
  lemma PlaceReachesLess(p: Permission, place: Option<int>, r: Resource, a: Action, q: Option<int>)
    requires PartCan(Lift(p, place), None, r, a, q)
    ensures PartCan(Lift(p, None), None, r, a, q)
  {
    assert !ShownThrough(None, Grants(false, {}));
  }

  /** One hand-out of permissions that a giver makes. */
  datatype Gift = Gift(giver: Actor, cap: Option<TokenScope>, permissions: set<Permission>, place: Option<int>)

  ghost predicate Gives(ws: Workspace, g: Gift, p: Permission, place: Option<int>) {
    && MayGive(ws, g.giver, g.cap, g.permissions, g.place)
    && p in Grants.Of(g.permissions).pairs && (g.place == place || g.place.None?)
  }

  /** Whoever may hand `p` out at `place`, or everywhere, can use it there. */
  lemma GiverCanUse(ws: Workspace, g: Gift, p: Permission, place: Option<int>, r: Resource, a: Action, q: Option<int>)
    requires Gives(ws, g, p, place) && PartCan(Lift(p, place), None, r, a, q)
    ensures Through(AccessOf(ws, g.giver), g.cap).Can(r, a, q)
  {
    hide MayGive, PartCan, HolderAccess, Access.Can, Grants.Of;
    if g.place.None? { PlaceReachesLess(p, place, r, a, q); }
    GiverCan(ws, g.giver, g.cap, g.permissions, g.place, p, r, a, q);
  }
}
