/** The start order of phx-svcmon: name resolution, the recursive depth-first postorder of
    topo_sort on arbitrary dependency graphs, and start_all. */
module ServiceOrder {
  import opened Common

  datatype Service = Service(name: string, depends: seq<string>)

  // ------------------------------------------------------------------- graph

  /** The index a name stands for: when names repeat, the last service wins. */
  function Resolve(services: seq<Service>, name: string): (r: Option<nat>)
    ensures r.Some? ==> r.value < |services| && services[r.value].name == name
    ensures r.Some? ==> forall j :: r.value < j < |services| ==> services[j].name != name
    ensures r.None? ==> forall j :: 0 <= j < |services| ==> services[j].name != name
  {
    if services == [] then None
    else
      var n := |services| - 1;
      if services[n].name == name then Some(n) else Resolve(services[..n], name)
  }

  /** Service i depends on service d; unknown names are no edges. */
  ghost predicate Edge(services: seq<Service>, i: nat, d: nat) {
    i < |services| && exists k :: 0 <= k < |services[i].depends| && Resolve(services, services[i].depends[k]) == Some(d)
  }

  ghost predicate IsPath(services: seq<Service>, p: seq<nat>) {
    |p| > 0 && p[0] < |services| && forall i, j :: 0 <= i && j == i + 1 && j < |p| ==> Edge(services, p[i], p[j])
  }

  /** b can be reached from a along dependency edges. */
  ghost predicate Reaches(services: seq<Service>, a: nat, b: nat) {
    exists p :: IsPath(services, p) && p[0] == a && p[|p| - 1] == b
  }

  ghost predicate Acyclic(services: seq<Service>) {
    forall i, d :: Edge(services, i, d) ==> !Reaches(services, d, i)
  }

  lemma ReachesSelf(services: seq<Service>, a: nat)
    requires a < |services|
    ensures Reaches(services, a, a)
  {
    assert IsPath(services, [a]);
  }

  lemma ReachesOn(services: seq<Service>, a: nat, b: nat, c: nat)
    requires Reaches(services, a, b) && Edge(services, b, c)
    ensures Reaches(services, a, c)
  {
    var p :| IsPath(services, p) && p[0] == a && p[|p| - 1] == b;
    var q := p + [c];
    forall i, j | 0 <= i && j == i + 1 && j < |q|
      ensures Edge(services, q[i], q[j])
    {
      if j < |p| { assert Edge(services, p[i], p[j]); }
    }
    assert IsPath(services, q) && q[0] == a && q[|q| - 1] == c;
  }

  // ------------------------------------------------------------------- order

  /** Every dependency of the service at position k stands before it, or leads back to it. */
  ghost predicate Justified(services: seq<Service>, order: seq<nat>, k: nat)
    requires k < |order|
  {
    forall d :: Edge(services, order[k], d) ==> d in order[..k] || Reaches(services, d, order[k])
  }

  ghost predicate AllJustified(services: seq<Service>, order: seq<nat>) {
    forall k :: 0 <= k < |order| ==> Justified(services, order, k)
  }

  /** Every index below n exactly once. */
  ghost predicate IsPermutation(order: seq<nat>, n: nat) {
    Distinct(order) && forall i: nat :: i in order <==> i < n
  }

  ghost predicate DependenciesFirst(services: seq<Service>, order: seq<nat>) {
    forall k, d :: 0 <= k < |order| && Edge(services, order[k], d) ==> d in order[..k]
  }

  lemma AppendJustified(services: seq<Service>, order: seq<nat>, i: nat)
    requires AllJustified(services, order)
    requires forall d :: Edge(services, i, d) ==> d in order || Reaches(services, d, i)
    ensures AllJustified(services, order + [i])
  {
    var o := order + [i];
    forall k | 0 <= k < |o|
      ensures Justified(services, o, k)
    {
      if k < |order| {
        assert Justified(services, order, k);
        assert o[..k] == order[..k] && o[k] == order[k];
      } else {
        assert o[..k] == order;
      }
    }
  }

  // ---------------------------------------------------------------- postorder

  ghost function Unseen(services: seq<Service>, seen: set<nat>): set<nat> {
    set i | 0 <= i < |services| && i !in seen
  }

  /** dfs: what has been seen and the order, once service idx is done. */
  ghost function Visit(services: seq<Service>, seen: set<nat>, order: seq<nat>, idx: nat): (r: (set<nat>, seq<nat>))
    requires idx < |services|
    ensures seen <= r.0 && idx in r.0
    decreases Unseen(services, seen), 0, 0
  {
    if idx in seen then (seen, order)
    else
      assert Unseen(services, seen + {idx}) < Unseen(services, seen) by { assert idx in Unseen(services, seen); }
      var (s, o) := VisitFrom(services, seen + {idx}, order, idx, 0);
      (s, o + [idx])
  }

  /** Its loop over the dependencies of idx, from the k-th on. */
  ghost function VisitFrom(services: seq<Service>, seen: set<nat>, order: seq<nat>, idx: nat, k: nat): (r: (set<nat>, seq<nat>))
    requires idx < |services| && k <= |services[idx].depends|
    ensures seen <= r.0
    decreases Unseen(services, seen), 1, |services[idx].depends| - k
  {
    if k == |services[idx].depends| then (seen, order)
    else
      match Resolve(services, services[idx].depends[k])
      case None => VisitFrom(services, seen, order, idx, k + 1)
      case Some(d) =>
        var (s, o) := Visit(services, seen, order, d);
        assert Unseen(services, s) <= Unseen(services, seen);
        VisitFrom(services, s, o, idx, k + 1)
  }

  /** From service i on, every service in turn. */
  ghost function VisitAll(services: seq<Service>, seen: set<nat>, order: seq<nat>, i: nat): (set<nat>, seq<nat>)
    requires i <= |services|
    decreases |services| - i
  {
    if i == |services| then (seen, order)
    else var (s, o) := Visit(services, seen, order, i); VisitAll(services, s, o, i + 1)
  }

  /** The order topo_sort computes. */
  ghost function Postorder(services: seq<Service>): seq<nat> { VisitAll(services, {}, [], 0).1 }

  ghost function Below(n: nat): (r: set<nat>)
    ensures forall j: nat :: j in r <==> j < n
  {
    if n == 0 then {} else Below(n - 1) + {n - 1}
  }

  function UpTo(n: nat): (r: seq<nat>) { seq(n, j => j) }

  lemma {:induction false} FileOrder(services: seq<Service>, i: nat)
    requires i <= |services| && forall j, d :: Edge(services, j, d) ==> d < j
    ensures VisitAll(services, Below(i), UpTo(i), i).1 == UpTo(|services|)
    decreases |services| - i
  {
    if i < |services| {
      NothingNew(services, Below(i) + {i}, UpTo(i), i, 0);
      assert Below(i) + {i} == Below(i + 1) && UpTo(i) + [i] == UpTo(i + 1);
      FileOrder(services, i + 1);
    }
  }

  lemma {:induction false} NothingNew(services: seq<Service>, seen: set<nat>, order: seq<nat>, i: nat, k: nat)
    requires i < |services| && k <= |services[i].depends| && forall d :: Edge(services, i, d) ==> d in seen
    ensures VisitFrom(services, seen, order, i, k) == (seen, order)
    decreases |services[i].depends| - k
  {
    if k < |services[i].depends| {
      var r := Resolve(services, services[i].depends[k]);
      if r.Some? { assert Edge(services, i, r.value); }
      NothingNew(services, seen, order, i, k + 1);
    }
  }

  /** Services that depend on earlier ones only keep the order of the file. */
  lemma KeepsFileOrder(services: seq<Service>)
    requires forall j, d :: Edge(services, j, d) ==> d < j
    ensures Postorder(services) == UpTo(|services|)
    ensures forall k :: 0 <= k < |services| ==> UpTo(|services|)[k] == k
  {
    FileOrder(services, 0);
    assert Below(0) == {} && UpTo(0) == [];
  }

  /** A service whose dependencies are not seen yet and have none of their own comes behind them, in the
      order in which it lists them. */
  lemma {:induction false} ListedOrder(services: seq<Service>, seen: set<nat>, order: seq<nat>, i: nat, ds: seq<nat>, k: nat)
    requires i < |services| && |services[i].depends| == |ds| && k <= |ds| && Distinct(ds)
    requires forall j :: 0 <= j < |ds| ==> Resolve(services, services[i].depends[j]) == Some(ds[j]) && services[ds[j]].depends == []
    requires forall j :: k <= j < |ds| ==> ds[j] !in seen
    ensures VisitFrom(services, seen, order, i, k).1 == order + ds[k..]
    decreases |ds| - k
  {
    if k < |ds| {
      var d := ds[k];
      assert Resolve(services, services[i].depends[k]) == Some(d);
      assert Visit(services, seen, order, d) == (seen + {d}, order + [d]) by {
        assert VisitFrom(services, seen + {d}, order, d, 0) == (seen + {d}, order);
      }
      ListedOrder(services, seen + {d}, order + [d], i, ds, k + 1);
      assert order + [d] + ds[k + 1..] == order + ds[k..];
    } else {
      assert order + ds[k..] == order;
    }
  }

  lemma DependenciesAsListed(services: seq<Service>, seen: set<nat>, order: seq<nat>, i: nat, ds: seq<nat>)
    requires i < |services| && i !in seen && i !in ds && |services[i].depends| == |ds| && Distinct(ds)
    requires forall j :: 0 <= j < |ds| ==> Resolve(services, services[i].depends[j]) == Some(ds[j]) && services[ds[j]].depends == []
    requires forall j :: 0 <= j < |ds| ==> ds[j] !in seen
    ensures Visit(services, seen, order, i).1 == order + ds + [i]
  {
    ListedOrder(services, seen + {i}, order, i, ds, 0);
    assert ds[0..] == ds;
  }

  class Sorter {
    const services: seq<Service>
    const names: map<string, nat>
    var visited: seq<bool>
    var order: seq<nat>

    ghost predicate Valid()
      reads this
    {
      && |visited| == |services|
      && (forall name :: name in names <==> Resolve(services, name).Some?)
      && (forall name :: name in names ==> Resolve(services, name) == Some(names[name]))
      && (forall i :: i in order ==> i < |services| && visited[i])
      && Distinct(order)
      && AllJustified(services, order)
    }

    ghost function Seen(): set<nat>
      reads this
    {
      set i | 0 <= i < |visited| && visited[i]
    }

    /** Visited but not yet in the order: the services being visited right now. */
    ghost function Open(): set<nat>
      reads this
    {
      set i | 0 <= i < |visited| && visited[i] && i !in order
    }

    ghost function Unvisited(): set<nat>
      reads this
    {
      set i | 0 <= i < |visited| && !visited[i]
    }

    /** The services being visited all lead to i. */
    ghost predicate OpenReaches(i: nat)
      reads this
    {
      forall g :: g in Open() ==> Reaches(services, g, i)
    }

    lemma OpenReachesOn(i: nat, d: nat)
      requires OpenReaches(i) && Edge(services, i, d)
      ensures OpenReaches(d)
    {
      forall g | g in Open()
        ensures Reaches(services, g, d)
      {
        ReachesOn(services, g, i, d);
      }
    }

    constructor (list: seq<Service>)
      ensures Valid() && services == list && order == [] && Open() == {}
    {
      services := list;
      visited := seq(|list|, _ => false);
      order := [];
      var m: map<string, nat> := map[];
      for i := 0 to |list|
        invariant forall name :: name in m <==> Resolve(list[..i], name).Some?
        invariant forall name :: name in m ==> Resolve(list[..i], name) == Some(m[name])
      {
        assert list[..i + 1][..i] == list[..i];
        m := m[list[i].name := i];
      }
      assert list[..|list|] == list;
      names := m;
    }

    /** topo_sort: the depth-first postorder from every service in turn. */
    method Run()
      requires Valid() && order == [] && Open() == {}
      modifies this
      ensures Valid() && IsPermutation(order, |services|) && order == Postorder(services)
    {
      assert Seen() == {} by { assert forall i :: i in Seen() ==> i in Open(); }
      for i := 0 to |services|
        invariant Valid() && Open() == {} && forall j :: 0 <= j < i ==> j in order
        invariant Postorder(services) == VisitAll(services, Seen(), order, i).1
      {
        ghost var before := order;
        Dfs(i);
        PrefixMembers(before, order);
      }
    }

    /** The inner dfs: skip when visited, else visit the dependencies and then append. */
    method Dfs(idx: nat)
      requires Valid() && idx < |services| && OpenReaches(idx)
      modifies this
      ensures Valid() && Open() == old(Open())
      ensures old(order) <= order && Unvisited() <= old(Unvisited())
      ensures idx in order || idx in Open()
      ensures (Seen(), order) == Visit(services, old(Seen()), old(order), idx)
      decreases Unvisited(), 1
    {
      if visited[idx] { return; }
      visited := visited[idx := true];
      assert Seen() == old(Seen()) + {idx};
      assert Open() == old(Open()) + {idx};
      assert Unvisited() == old(Unvisited()) - {idx};
      ReachesSelf(services, idx);
      VisitDepends(idx);
      AppendJustified(services, order, idx);
      assert idx !in order;
      ghost var before := order;
      order := order + [idx];
      assert forall i :: i in order <==> i in before || i == idx;
    }

    /** The loop of dfs over the dependencies of a service that is being visited. */
    method VisitDepends(idx: nat)
      requires Valid() && idx < |services| && idx in Open() && OpenReaches(idx)
      modifies this
      ensures Valid() && Open() == old(Open())
      ensures old(order) <= order && Unvisited() <= old(Unvisited())
      ensures (Seen(), order) == VisitFrom(services, old(Seen()), old(order), idx, 0)
      ensures forall d :: Edge(services, idx, d) ==> d in order || Reaches(services, d, idx)
      decreases Unvisited(), 2
    {
      hide AllJustified, Distinct, Unseen, Reaches;
      var k := 0;
      while k < |services[idx].depends|
        invariant 0 <= k <= |services[idx].depends| && Valid()
        invariant Open() == old(Open()) && old(order) <= order && Unvisited() <= old(Unvisited())
        invariant VisitFrom(services, old(Seen()), old(order), idx, 0) == VisitFrom(services, Seen(), order, idx, k)
        invariant forall j, d :: 0 <= j < k && Resolve(services, services[idx].depends[j]) == Some(d) ==>
                    d in order || d in Open()
      {
        var dep := services[idx].depends[k];
        if dep in names {
          var d := names[dep];
          assert Edge(services, idx, d);
          OpenReachesOn(idx, d);
          ghost var before := order;
          Dfs(d);
          PrefixMembers(before, order);
        }
        k := k + 1;
      }
      forall d | Edge(services, idx, d)
        ensures d in order || Reaches(services, d, idx)
      {
        var j :| 0 <= j < |services[idx].depends| && Resolve(services, services[idx].depends[j]) == Some(d);
      }
    }
  }

  lemma PrefixMembers(a: seq<nat>, b: seq<nat>)
    requires a <= b
    ensures forall i :: i in a ==> i in b
  {
    assert forall k :: 0 <= k < |a| ==> a[k] == b[k];
  }

  /** topo_sort as its caller sees it. */
  method TopoSort(services: seq<Service>) returns (order: seq<nat>)
    ensures order == Postorder(services) && IsPermutation(order, |services|) && AllJustified(services, order)
    ensures DependenciesFirst(services, order) <==> Acyclic(services)
  {
    var s := new Sorter(services);
    s.Run();
    order := s.order;
    FirstIffAcyclic(services, order);
  }

  /** Where service i stands. */
  ghost function Position(order: seq<nat>, i: nat): (k: nat)
    requires i in order
    ensures k < |order| && order[k] == i
  {
    var k :| 0 <= k < |order| && order[k] == i;
    k
  }

  lemma EdgeFalls(services: seq<Service>, order: seq<nat>, i: nat, d: nat)
    requires IsPermutation(order, |services|) && DependenciesFirst(services, order) && Edge(services, i, d)
    ensures i in order && d in order && Position(order, d) < Position(order, i)
  {
    var k := Position(order, i);
    assert d in order[..k];
    var j :| 0 <= j < k && order[j] == d;
    assert Position(order, d) == j;
  }

  /** When dependencies come first, positions fall along every path. */
  lemma {:induction false} PathFalls(services: seq<Service>, order: seq<nat>, p: seq<nat>)
    requires IsPermutation(order, |services|) && DependenciesFirst(services, order) && IsPath(services, p)
    ensures p[|p| - 1] in order && p[0] in order
    ensures Position(order, p[|p| - 1]) <= Position(order, p[0])
    decreases |p|
  {
    if |p| > 1 {
      var n := |p| - 1;
      assert IsPath(services, p[..n]);
      PathFalls(services, order, p[..n]);
      assert Edge(services, p[n - 1], p[n]);
      EdgeFalls(services, order, p[n - 1], p[n]);
    }
  }

  /** The order puts every dependency first exactly when the dependencies have no cycle. */
  lemma FirstIffAcyclic(services: seq<Service>, order: seq<nat>)
    requires IsPermutation(order, |services|) && AllJustified(services, order)
    ensures DependenciesFirst(services, order) <==> Acyclic(services)
  {
    if Acyclic(services) {
      forall k, d | 0 <= k < |order| && Edge(services, order[k], d)
        ensures d in order[..k]
      {
        assert Justified(services, order, k);
      }
    }
    if DependenciesFirst(services, order) {
      forall i, d | Edge(services, i, d)
        ensures !Reaches(services, d, i)
      {
        EdgeFalls(services, order, i, d);
        forall p | IsPath(services, p) && p[0] == d
          ensures p[|p| - 1] != i
        {
          PathFalls(services, order, p);
        }
      }
    }
  }

  // --------------------------------------------------------------- start_all

  datatype ServiceState = Stopped | Running | Failed

  class Monitor {
    var states: seq<ServiceState>
    /** The services in the order they were started. */
    var started: seq<nat>

    constructor (n: nat)
      ensures states == seq(n, _ => Stopped) && started == []
    {
      states, started := seq(n, _ => Stopped), [];
    }

    method Start(idx: nat, launches: bool)
      requires idx < |states|
      modifies this
      ensures states == old(states)[idx := if launches then Running else Failed] && started == old(started) + [idx]
    {
      started := started + [idx];
      if launches { states := states[idx := Running]; } else { states := states[idx := Failed]; }
    }

    /** start_all: `launches[i]` says whether launching service i succeeds. */
    method StartAll(order: seq<nat>, launches: seq<bool>)
      requires |launches| == |states| && forall i :: i in order ==> i < |states|
      modifies this
      ensures started == old(started) + order && |states| == |old(states)|
      ensures forall i :: 0 <= i < |states| ==>
                states[i] == if i in order then (if launches[i] then Running else Failed) else old(states)[i]
    {
      for k := 0 to |order|
        invariant started == old(started) + order[..k] && |states| == |old(states)|
        invariant forall i :: 0 <= i < |states| ==>
                    states[i] == if i in order[..k] then (if launches[i] then Running else Failed) else old(states)[i]
      {
        assert order[..k + 1] == order[..k] + [order[k]] && order[k] in order;
        Start(order[k], launches[order[k]]);
      }
      assert order[..|order|] == order;
    }
  }

  /** Starting in topo_sort order: every service is started exactly once, none is left stopped,
      and with acyclic dependencies each starts after all its dependencies. */
  method StartServices(services: seq<Service>, launches: seq<bool>) returns (m: Monitor)
    requires |launches| == |services|
    ensures fresh(m) && IsPermutation(m.started, |services|) && |m.states| == |services|
    ensures forall i :: 0 <= i < |services| ==> m.states[i] == if launches[i] then Running else Failed
    ensures Acyclic(services) ==> DependenciesFirst(services, m.started)
  {
    var order := TopoSort(services);
    m := new Monitor(|services|);
    m.StartAll(order, launches);
    assert m.started == order;
  }
}
