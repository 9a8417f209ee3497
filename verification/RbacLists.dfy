/** The listings of permissions in the order they are returned in (apps/server/src/auth/rbac.rs). */
module RbacLists {
  import opened Wrappers
  import opened Rbac
  import opened RbacQueries

  /** Every resource, in the catalog's order. */
  const RESOURCES: seq<Resource> :=
    [Projects, Users, Invitations, Roles, ApiTokens, Integrations, GithubApp, Storage, Mcp, Telemetry,
     Issues, Performance, Logs, Resource.Sessions, Releases, SourceMaps, AlertRules, Monitors,
     Resource.Project, ClientKeys, ProjectMembers, ProjectGithub]

  lemma EveryResource(r: Resource)
    ensures r in RESOURCES
  {
  }

  function PairsOf(r: Resource): (pairs: seq<Permission>) {
    var actions := r.Actions();
    seq(|actions|, k requires 0 <= k < |actions| => (r, actions[k]))
  }

  lemma PairsOfContents(r: Resource, p: Permission)
    ensures p in PairsOf(r) <==> p.0 == r && r.Accepts(p.1)
  {
    var actions := r.Actions();
    if p.0 == r && p.1 in actions {
      var k :| 0 <= k < |actions| && actions[k] == p.1;
      assert PairsOf(r)[k] == p;
    }
  }

  function PairsFrom(resources: seq<Resource>): seq<Permission>
    decreases |resources|
  {
    if resources == [] then [] else PairsOf(resources[0]) + PairsFrom(resources[1..])
  }

  lemma {:induction false} PairsFromContents(resources: seq<Resource>, p: Permission)
    ensures p in PairsFrom(resources) <==> p.0 in resources && p.0.Accepts(p.1)
    decreases |resources|
  {
    hide PairsOf, Resource.Accepts;
    if resources != [] {
      PairsOfContents(resources[0], p);
      PairsFromContents(resources[1..], p);
      assert p.0 in resources <==> p.0 == resources[0] || p.0 in resources[1..];
    }
  }

  /** Every permission there is, resource by resource. */
  function Catalog(): seq<Permission> {
    PairsFrom(RESOURCES)
  }

  lemma CatalogContents(p: Permission)
    ensures p in Catalog() <==> p in CatalogPairs()
  {
    hide PairsFrom, Resource.Accepts, RESOURCES;
    PairsFromContents(RESOURCES, p);
    EveryResource(p.0);
    assert (p.0, p.1) == p;
  }

  // ----- the order -----------------------------------------------------------

  function ResourceRank(r: Resource): nat {
    match r
    case Projects => 0 case Users => 1 case Invitations => 2 case Roles => 3 case ApiTokens => 4
    case Integrations => 5 case GithubApp => 6 case Storage => 7 case Mcp => 8 case Telemetry => 9
    case Issues => 10 case Performance => 11 case Logs => 12 case Sessions => 13 case Releases => 14
    case SourceMaps => 15 case AlertRules => 16 case Monitors => 17 case Project => 18 case ClientKeys => 19
    case ProjectMembers => 20 case ProjectGithub => 21
  }

  function ActionRank(a: Action): nat {
    match a case Read => 0 case Create => 1 case Update => 2 case Delete => 3
  }

  /** `p` comes before `q` in the catalog. */
  predicate Before(p: Permission, q: Permission) {
    ResourceRank(p.0) < ResourceRank(q.0) || (p.0 == q.0 && ActionRank(p.1) < ActionRank(q.1))
  }

  ghost predicate InOrder(pairs: seq<Permission>) {
    forall i, j | 0 <= i < j < |pairs| :: Before(pairs[i], pairs[j])
  }

  lemma InOrderConcat(a: seq<Permission>, b: seq<Permission>)
    requires InOrder(a) && InOrder(b) && forall p, q | p in a && q in b :: Before(p, q)
    ensures InOrder(a + b)
  {
    hide Before;
  }

  lemma PairsOfInOrder(r: Resource)
    ensures InOrder(PairsOf(r))
  {
  }

  ghost predicate RanksIncrease(resources: seq<Resource>) {
    forall i, j | 0 <= i < j < |resources| :: ResourceRank(resources[i]) < ResourceRank(resources[j])
  }

  lemma RankAt(k: nat)
    requires k < |RESOURCES|
    ensures ResourceRank(RESOURCES[k]) == k
  {
  }

  lemma CatalogRanks()
    ensures RanksIncrease(RESOURCES)
  {
    hide ResourceRank;
    forall i, j | 0 <= i < j < |RESOURCES| ensures ResourceRank(RESOURCES[i]) < ResourceRank(RESOURCES[j]) {
      RankAt(i);
      RankAt(j);
    }
  }

  lemma RanksTail(resources: seq<Resource>)
    requires RanksIncrease(resources) && resources != []
    ensures RanksIncrease(resources[1..])
    ensures forall r | r in resources[1..] :: ResourceRank(resources[0]) < ResourceRank(r)
  {
    hide ResourceRank;
    var rest := resources[1..];
    forall i, j | 0 <= i < j < |rest| ensures ResourceRank(rest[i]) < ResourceRank(rest[j]) {
      assert rest[i] == resources[i + 1] && rest[j] == resources[j + 1];
    }
    forall r | r in rest ensures ResourceRank(resources[0]) < ResourceRank(r) {
      var i :| 0 <= i < |rest| && rest[i] == r;
      assert resources[i + 1] == r;
    }
  }

  lemma {:induction false} PairsInOrder(resources: seq<Resource>)
    requires RanksIncrease(resources)
    ensures InOrder(PairsFrom(resources))
    decreases |resources|
  {
    hide Resource.Accepts, Before, PairsOf, ResourceRank, RanksIncrease, InOrder;
    if resources == [] {
      NothingInOrder();
    } else {
      RanksTail(resources);
      PairsInOrder(resources[1..]);
      PairsOfInOrder(resources[0]);
      var first, rest := PairsOf(resources[0]), PairsFrom(resources[1..]);
      forall p, q | p in first && q in rest ensures Before(p, q) {
        PairsOfContents(resources[0], p);
        PairsFromContents(resources[1..], q);
        EarlierIsBefore(p, q);
      }
      InOrderConcat(first, rest);
    }
  }

  lemma NothingInOrder()
    ensures InOrder([])
  {
  }

  lemma EarlierIsBefore(p: Permission, q: Permission)
    requires ResourceRank(p.0) < ResourceRank(q.0)
    ensures Before(p, q)
  {
  }

  lemma {:induction false} FilterInOrder(pairs: seq<Permission>, keep: Permission -> bool)
    requires InOrder(pairs)
    ensures InOrder(Filter(pairs, keep))
    decreases |pairs|
  {
    hide Before;
    if pairs != [] {
      forall i, j | 0 <= i < j < |pairs[1..]| ensures Before(pairs[1..][i], pairs[1..][j]) {
        assert pairs[1..][i] == pairs[i + 1] && pairs[1..][j] == pairs[j + 1];
      }
      FilterInOrder(pairs[1..], keep);
      if keep(pairs[0]) {
        forall p, q | p in [pairs[0]] && q in Filter(pairs[1..], keep) ensures Before(p, q) {
          assert q in pairs[1..];
          var j :| 0 <= j < |pairs[1..]| && pairs[1..][j] == q;
          assert pairs[j + 1] == q && Before(pairs[0], pairs[j + 1]);
        }
        InOrderConcat([pairs[0]], Filter(pairs[1..], keep));
      }
    }
  }

  // ----- the listings --------------------------------------------------------

  function InCatalogOrder(pairs: set<Permission>): seq<Permission> {
    Filter(Catalog(), p => p in pairs)
  }

  lemma ListContents(pairs: set<Permission>, p: Permission)
    requires pairs <= CatalogPairs()
    ensures p in InCatalogOrder(pairs) <==> p in pairs
  {
    hide Catalog, CatalogPairs;
    CatalogContents(p);
  }

  lemma ListInOrder(pairs: set<Permission>)
    ensures InOrder(InCatalogOrder(pairs))
  {
    hide Before, PairsFrom, Filter, RESOURCES, RanksIncrease, InOrder;
    CatalogRanks();
    PairsInOrder(RESOURCES);
    FilterInOrder(Catalog(), p => p in pairs);
  }

  /** What `instance_pairs` returns. */
  function InstanceList(access: Access): seq<Permission> {
    InCatalogOrder(access.InstancePairs())
  }

  /** `instance_pairs` returns a workspace permission exactly when it is allowed and a project
      permission exactly when it is allowed on every project, each once, in the catalog's order. */
  lemma InstanceListExactly(access: Access, r: Resource, a: Action)
    requires r.Accepts(a)
    ensures (r, a) in InstanceList(access)
       <==> if r.ScopeOf() == Scope.Project then forall id :: access.Can(r, a, Some(id)) else access.Can(r, a, None)
    ensures InOrder(InstanceList(access))
  {
    hide InOrder, InCatalogOrder, Access.Can, Resource.Accepts, CatalogPairs;
    InstancePairsExactly(access, r, a);
    InstanceSubset(access);
    ListContents(access.InstancePairs(), (r, a));
    ListInOrder(access.InstancePairs());
  }

  lemma InstanceSubset(access: Access)
    ensures access.InstancePairs() <= CatalogPairs()
  {
    hide Access.Can, Access.Everywhere;
  }

  function ListsFor(access: Access, ids: seq<int>): seq<(int, seq<Permission>)> {
    if ids == [] then []
    else if access.PairsOn(ids[0]) == {} then ListsFor(access, ids[1..])
    else [(ids[0], InCatalogOrder(access.PairsOn(ids[0])))] + ListsFor(access, ids[1..])
  }

  /** What `project_pairs` returns. */
  function ProjectLists(access: Access): seq<(int, seq<Permission>)> {
    ListsFor(access, SortedIds(access.NamedProjects()))
  }

  lemma {:induction false} ListsForContents(access: Access, ids: seq<int>, e: (int, seq<Permission>))
    ensures e in ListsFor(access, ids)
       <==> e.0 in ids && access.PairsOn(e.0) != {} && e.1 == InCatalogOrder(access.PairsOn(e.0))
    decreases |ids|
  {
    hide Access.PairsOn, InCatalogOrder;
    if ids != [] {
      ListsForContents(access, ids[1..], e);
      assert e.0 in ids <==> e.0 == ids[0] || e.0 in ids[1..];
    }
  }

  ghost predicate Increasing(ids: seq<int>) {
    forall i, j | 0 <= i < j < |ids| :: ids[i] < ids[j]
  }

  lemma {:induction false} ListsForIncrease(access: Access, ids: seq<int>, i: nat, j: nat)
    requires Increasing(ids) && i < j < |ListsFor(access, ids)|
    ensures ListsFor(access, ids)[i].0 < ListsFor(access, ids)[j].0
    decreases |ids|
  {
    hide Access.PairsOn, InCatalogOrder;
    var rest := ids[1..];
    forall m, n | 0 <= m < n < |rest| ensures rest[m] < rest[n]
    {
      assert rest[m] == ids[m + 1] && rest[n] == ids[n + 1];
    }
    if access.PairsOn(ids[0]) == {} {
      ListsForIncrease(access, rest, i, j);
    } else if i > 0 {
      ListsForIncrease(access, rest, i - 1, j - 1);
    } else {
      var e := ListsFor(access, rest)[j - 1];
      ListsForContents(access, rest, e);
      var n :| 0 <= n < |rest| && rest[n] == e.0;
      assert ids[n + 1] == e.0;
    }
  }

  /** `project_pairs` has an entry exactly for each named project on which something holds, with
      what holds there in the catalog's order, and its projects increase. */
  lemma ProjectListsExactly(access: Access, id: int, pairs: seq<Permission>)
    ensures (id, pairs) in ProjectLists(access)
       <==> id in access.NamedProjects() && access.PairsOn(id) != {} && pairs == InCatalogOrder(access.PairsOn(id))
    ensures InOrder(InCatalogOrder(access.PairsOn(id)))
    ensures forall i, j | 0 <= i < j < |ProjectLists(access)| :: ProjectLists(access)[i].0 < ProjectLists(access)[j].0
  {
    hide InOrder, InCatalogOrder, Access.PairsOn, Access.NamedProjects, ListsFor, SortedIds, Catalog;
    var ids := SortedIds(access.NamedProjects());
    ListsForContents(access, ids, (id, pairs));
    ListInOrder(access.PairsOn(id));
    forall i, j | 0 <= i < j < |ids| ensures ids[i] < ids[j] { SortedIdsIncrease(access.NamedProjects(), i, j); }
    forall i, j | 0 <= i < j < |ProjectLists(access)| ensures ProjectLists(access)[i].0 < ProjectLists(access)[j].0 {
      ListsForIncrease(access, ids, i, j);
    }
  }

  /** The catalog by action: everything can be read but the three resources that are only acted on,
      whose reading would mean nothing or is decided apart. */
  lemma CatalogByAction(r: Resource)
    ensures r.Accepts(Read) <==> r !in {Projects, Mcp, Resource.Project}
    ensures r.Accepts(Create)
       <==> r in {Projects, Invitations, Roles, ApiTokens, Integrations, Releases, SourceMaps, AlertRules, Monitors}
    ensures r.Accepts(Update)
       <==> r in {Users, Roles, Integrations, GithubApp, Storage, Mcp, Issues, Releases, AlertRules, Monitors,
                  Resource.Project, ProjectMembers, ProjectGithub}
    ensures r.Accepts(Delete)
       <==> r in {Users, Invitations, Roles, ApiTokens, Integrations, Storage, Issues, AlertRules, Monitors,
                  Resource.Project}
  {
  }
}
