/**
  Growing the tree shown on the terminal: rounds over all dependencies give a
  node to each one whose parent has one, until every dependency has a node.
  */
module RenderTree {
  import opened Wrappers
  import opened DependencyTree
  import opened RepoConfig
  import opened ProgressTree

  // The parent to hang a dependency below; "" puts it at the top.
  function Above(ds: seq<Dep>, d: Dep): string {
    match Requirer(ds, d.name)
    case Some(r) => r
    case None => d.parent
  }

  // The names with a node, after the seeds and after each dependency of a round.

  function TopNames(ds: seq<Dep>, part: seq<Dep>): set<string> {
    set d | d in part && Above(ds, d) == "" :: d.name
  }

  function Seeds(ds: seq<Dep>): set<string> {
    TopNames(ds, ds)
  }

  function RoundTo(ds: seq<Dep>, s: set<string>, k: nat): set<string>
    requires k <= |ds|
  {
    if k == 0 then s
    else
      var t, d := RoundTo(ds, s, k - 1), ds[k - 1];
      if Above(ds, d) != "" && Above(ds, d) in t then t + {d.name} else t
  }

  function Rounds(ds: seq<Dep>, n: nat): set<string> {
    if n == 0 then Seeds(ds) else RoundTo(ds, Rounds(ds, n - 1), |ds|)
  }

  // d's chain of parents ends, within k steps, at a dependency without a parent.
  ghost predicate Grounded(ds: seq<Dep>, d: Dep, k: nat)
    decreases k
  {
    Above(ds, d) == "" || (k > 0 && exists e :: e in ds && e.name == Above(ds, d) && Grounded(ds, e, k - 1))
  }

  ghost predicate HasGround(ds: seq<Dep>, d: Dep) {
    exists k: nat :: Grounded(ds, d, k)
  }

  ghost predicate AllGrounded(ds: seq<Dep>) {
    forall d :: d in ds ==> HasGround(ds, d)
  }

  lemma {:induction false} RoundKeeps(ds: seq<Dep>, s: set<string>, k: nat, m: nat)
    requires k <= m <= |ds|
    ensures RoundTo(ds, s, k) <= RoundTo(ds, s, m)
  {
    if k < m {
      RoundKeeps(ds, s, k, m - 1);
    }
  }

  lemma {:induction false} RoundNames(ds: seq<Dep>, s: set<string>, k: nat)
    requires k <= |ds| && s <= NameSet(ds)
    ensures RoundTo(ds, s, k) <= NameSet(ds)
  {
    if k > 0 {
      RoundNames(ds, s, k - 1);
      assert ds[k - 1] in ds;
    }
  }

  // A dependency whose parent has a node at the start of a round gets one in it.
  lemma RoundAdds(ds: seq<Dep>, s: set<string>, d: Dep)
    requires d in ds && Above(ds, d) != "" && Above(ds, d) in s
    ensures d.name in RoundTo(ds, s, |ds|)
  {
    var i :| 0 <= i < |ds| && ds[i] == d;
    RoundKeeps(ds, s, 0, i);
    RoundKeeps(ds, s, i + 1, |ds|);
  }

  // As long as a name is missing, some dependency without a node has a parent with one.
  lemma {:induction false} NextToAdd(ds: seq<Dep>, s: set<string>, d: Dep, k: nat) returns (e: Dep)
    requires Seeds(ds) <= s && d in ds && d.name !in s && Grounded(ds, d, k)
    ensures e in ds && e.name !in s && Above(ds, e) != "" && Above(ds, e) in s
    decreases k
  {
    assert Above(ds, d) != "";
    var above :| above in ds && above.name == Above(ds, d) && Grounded(ds, above, k - 1);
    if above.name in s {
      e := d;
    } else {
      e := NextToAdd(ds, s, above, k - 1);
    }
  }

  lemma RoundGrows(ds: seq<Dep>, s: set<string>)
    requires AllGrounded(ds) && Seeds(ds) <= s <= NameSet(ds) && s != NameSet(ds)
    ensures |s| < |RoundTo(ds, s, |ds|)|
  {
    var d :| d in ds && d.name !in s;
    assert HasGround(ds, d);
    var k: nat :| Grounded(ds, d, k);
    var e := NextToAdd(ds, s, d, k);
    RoundAdds(ds, s, e);
    RoundKeeps(ds, s, 0, |ds|);
    Smaller(s, RoundTo(ds, s, |ds|), e.name);
  }

  lemma Smaller(s: set<string>, t: set<string>, x: string)
    ensures s <= t && x in t && x !in s ==> |s| < |t|
  {
    if s <= t {
      SubsetSize(s, t);
    }
  }

  lemma {:induction false} RoundsBetween(ds: seq<Dep>, n: nat)
    ensures Seeds(ds) <= Rounds(ds, n) <= NameSet(ds)
  {
    if n > 0 {
      RoundsBetween(ds, n - 1);
      RoundKeeps(ds, Rounds(ds, n - 1), 0, |ds|);
      RoundNames(ds, Rounds(ds, n - 1), |ds|);
    }
  }

  lemma RoundsStep(ds: seq<Dep>, n: nat)
    requires AllGrounded(ds)
    ensures Rounds(ds, n) <= Rounds(ds, n + 1) <= NameSet(ds)
    ensures if Rounds(ds, n) == NameSet(ds) then Rounds(ds, n + 1) == NameSet(ds)
            else |Rounds(ds, n)| < |Rounds(ds, n + 1)|
  {
    var s := Rounds(ds, n);
    RoundsBetween(ds, n);
    RoundKeeps(ds, s, 0, |ds|);
    RoundNames(ds, s, |ds|);
    if s != NameSet(ds) {
      RoundGrows(ds, s);
    }
  }

  // n names have a node after n rounds, or all have.
  ghost predicate Filled(ds: seq<Dep>, n: nat) {
    |Rounds(ds, n)| >= n || Rounds(ds, n) == NameSet(ds)
  }

  lemma FillStep(ds: seq<Dep>, n: nat)
    requires AllGrounded(ds) && Filled(ds, n)
    ensures Filled(ds, n + 1)
  {
    RoundsStep(ds, n);
  }

  lemma {:induction false} RoundsFill(ds: seq<Dep>, n: nat)
    requires AllGrounded(ds)
    ensures Filled(ds, n)
  {
    if n > 0 {
      RoundsFill(ds, n - 1);
      FillStep(ds, n - 1);
    }
  }

  // Only grounded dependencies ever get a node.

  ghost predicate GroundedIn(ds: seq<Dep>, s: set<string>) {
    s <= NameSet(ds) && forall d :: d in ds && d.name in s ==> HasGround(ds, d)
  }

  lemma SameName(ds: seq<Dep>, d: Dep, e: Dep)
    requires UniqueNames(ds) && d in ds && e in ds && d.name == e.name
    ensures d == e
  {
    var i :| 0 <= i < |ds| && ds[i] == d;
    var j :| 0 <= j < |ds| && ds[j] == e;
    assert ds[i].name == ds[j].name;
    assert i == j;
  }

  lemma GroundedStep(ds: seq<Dep>, t: set<string>, d: Dep)
    requires UniqueNames(ds) && GroundedIn(ds, t) && d in ds && Above(ds, d) in t
    ensures GroundedIn(ds, t + {d.name})
  {
    var e :| e in ds && e.name == Above(ds, d);
    var k: nat :| Grounded(ds, e, k);
    assert Grounded(ds, d, k + 1);
    forall x | x in ds && x.name in t + {d.name}
      ensures HasGround(ds, x)
    {
      if x.name == d.name {
        SameName(ds, x, d);
      }
    }
  }

  lemma {:induction false} RoundGrounded(ds: seq<Dep>, s: set<string>, k: nat)
    requires UniqueNames(ds) && GroundedIn(ds, s) && k <= |ds|
    ensures GroundedIn(ds, RoundTo(ds, s, k))
  {
    if k > 0 {
      RoundGrounded(ds, s, k - 1);
      if Above(ds, ds[k - 1]) in RoundTo(ds, s, k - 1) {
        GroundedStep(ds, RoundTo(ds, s, k - 1), ds[k - 1]);
      }
    }
  }

  lemma {:induction false} RoundsGrounded(ds: seq<Dep>, n: nat)
    requires UniqueNames(ds)
    ensures GroundedIn(ds, Rounds(ds, n))
  {
    if n == 0 {
      forall d | d in ds && d.name in Seeds(ds)
        ensures HasGround(ds, d)
      {
        var e :| e in ds && Above(ds, e) == "" && e.name == d.name;
        SameName(ds, d, e);
        assert Grounded(ds, d, 0);
      }
    } else {
      RoundsGrounded(ds, n - 1);
      RoundGrounded(ds, Rounds(ds, n - 1), |ds|);
    }
  }

  // The loop ends, after some number of rounds, exactly if the names are distinct and every chain
  // of parents ends at a dependency without one; otherwise it goes on for ever.
  lemma EndsIff(ds: seq<Dep>)
    ensures (exists n :: |Rounds(ds, n)| == |ds|) <==> UniqueNames(ds) && AllGrounded(ds)
  {
    NameCount(ds);
    if UniqueNames(ds) && AllGrounded(ds) {
      RoundsFill(ds, |ds|);
      RoundsBetween(ds, |ds|);
      SubsetSize(Rounds(ds, |ds|), NameSet(ds));
    }
    if n :| |Rounds(ds, n)| == |ds| {
      RoundsBetween(ds, n);
      SubsetSize(Rounds(ds, n), NameSet(ds));
      RoundsGrounded(ds, n);
    }
  }

  // Validated dependencies without circular requirements are rendered, if each that notes a
  // parent is required.

  lemma {:induction false} AcyclicGrounded(ds: seq<Dep>, rank: string -> nat, d: Dep)
    requires AllRequired(ds) && Acyclic(ds, rank) && d in ds
    ensures HasGround(ds, d)
    decreases rank(d.name)
  {
    RequirerIs(ds, d.name);
    if Above(ds, d) == "" {
      assert Grounded(ds, d, 0);
    } else {
      var e :| e in ds && e.name == Above(ds, d) && d.name in e.needs;
      var i :| 0 <= i < |ds| && ds[i] == e;
      var j :| 0 <= j < |e.needs| && e.needs[j] == d.name;
      assert rank(ds[i].name) < rank(ds[i].needs[j]);
      AcyclicGrounded(ds, rank, e);
      var k: nat :| Grounded(ds, e, k);
      assert Grounded(ds, d, k + 1);
    }
  }

  lemma RequiredEnds(ds: seq<Dep>, rank: string -> nat)
    requires WellNamed(ds) && AllRequired(ds) && Acyclic(ds, rank)
    ensures exists n :: |Rounds(ds, n)| == |ds|
  {
    forall d | d in ds
      ensures HasGround(ds, d)
    {
      AcyclicGrounded(ds, rank, d);
    }
    WellNamedUnique(ds);
    EndsIff(ds);
  }

  // The loop itself.

  // A node of the view hangs below an earlier one, or below the heading of its section.
  datatype Position = UnderDirect | UnderEnvironment | Under(node: nat)
  datatype ViewNode = ViewNode(name: string, below: Position)

  // The node numbered p is the last of its name among the first i.
  ghost predicate LatestBefore(nodes: seq<ViewNode>, i: nat, p: nat) {
    p < i <= |nodes| && forall q :: p < q < i ==> nodes[q].name != nodes[p].name
  }

  ghost predicate ShownAt(dd: Declaration, nodes: seq<ViewNode>, i: nat, d: Dep) {
    && i < |nodes|
    && d in dd.All() && d.name == nodes[i].name
    && match nodes[i].below
       case UnderDirect => d in dd.direct && Above(dd.All(), d) == ""
       case UnderEnvironment => d in dd.environment && Above(dd.All(), d) == ""
       case Under(p) => LatestBefore(nodes, i, p) && Above(dd.All(), d) == nodes[p].name && nodes[p].name != ""
  }

  ghost predicate IsShown(dd: Declaration, nodes: seq<ViewNode>, i: nat) {
    exists d :: ShownAt(dd, nodes, i, d)
  }

  ghost predicate Shown(dd: Declaration, nodes: seq<ViewNode>, depmap: map<string, nat>) {
    && (forall i :: 0 <= i < |nodes| ==> IsShown(dd, nodes, i))
    && (forall n :: n in depmap ==> LatestBefore(nodes, |nodes|, depmap[n]) && nodes[depmap[n]].name == n)
  }

  lemma ShowMore(dd: Declaration, nodes: seq<ViewNode>, depmap: map<string, nat>, d: Dep, below: Position)
    requires Shown(dd, nodes, depmap) && d in dd.All()
    requires match below
             case UnderDirect => d in dd.direct && Above(dd.All(), d) == ""
             case UnderEnvironment => d in dd.environment && Above(dd.All(), d) == ""
             case Under(p) =>
               LatestBefore(nodes, |nodes|, p) && Above(dd.All(), d) == nodes[p].name && nodes[p].name != ""
    ensures Shown(dd, nodes + [ViewNode(d.name, below)], depmap[d.name := |nodes|])
  {
    var more := nodes + [ViewNode(d.name, below)];
    forall i | 0 <= i < |more|
      ensures IsShown(dd, more, i)
    {
      if i < |nodes| {
        assert IsShown(dd, nodes, i);
        var e :| ShownAt(dd, nodes, i, e);
        assert ShownAt(dd, more, i, e);
      } else {
        assert ShownAt(dd, more, i, d);
      }
    }
    forall n | n in depmap && n != d.name
      ensures LatestBefore(more, |more|, depmap[n])
    {
      assert LatestBefore(nodes, |nodes|, depmap[n]);
    }
  }

  ghost predicate Requirers(ds: seq<Dep>, reqmap: map<string, string>) {
    forall n :: Requirer(ds, n) == if n in reqmap then Some(reqmap[n]) else None
  }

  lemma SectionSeeds(dd: Declaration)
    ensures TopNames(dd.All(), dd.direct[..|dd.direct|]) + TopNames(dd.All(), dd.environment[..|dd.environment|])
            == Seeds(dd.All())
  {
    assert dd.direct[..|dd.direct|] == dd.direct && dd.environment[..|dd.environment|] == dd.environment;
    assert forall d :: d in dd.All() <==> d in dd.direct || d in dd.environment;
  }

  // The nodes behind the first n are those of some dependencies, by their numbers, in this order.
  ghost predicate NodesOf(ds: seq<Dep>, nodes: seq<ViewNode>, n: nat, at: seq<nat>) {
    && |nodes| == n + |at|
    && (forall j :: 0 <= j < |at| ==> at[j] < |ds| && nodes[n + j].name == ds[at[j]].name)
    && forall j, k :: 0 <= j < k < |at| ==> at[j] < at[k]
  }

  lemma NodesMore(ds: seq<Dep>, nodes: seq<ViewNode>, n: nat, at: seq<nat>, i: nat, below: Position)
    requires NodesOf(ds, nodes, n, at) && i < |ds| && forall k :: k in at ==> k < i
    ensures NodesOf(ds, nodes + [ViewNode(ds[i].name, below)], n, at + [i])
    ensures forall k :: k in at + [i] <==> k in at || k == i
  {
    var more := nodes + [ViewNode(ds[i].name, below)];
    forall j | 0 <= j < |at| + 1
      ensures (at + [i])[j] < |ds| && more[n + j].name == ds[(at + [i])[j]].name
    {
      assert j < |at| ==> more[n + j] == nodes[n + j];
    }
    forall j, k | 0 <= j < k < |at| + 1
      ensures (at + [i])[j] < (at + [i])[k]
    {
      assert at[j] in at;
    }
  }

  // The first k dependencies of a section have been looked at: those without a parent have got a node.
  ghost predicate Seeded(dd: Declaration, part: seq<Dep>, k: nat, heading: Position, nodes0: seq<ViewNode>,
                         nodes: seq<ViewNode>, at: seq<nat>) {
    && k <= |part|
    && nodes0 <= nodes && NodesOf(part, nodes, |nodes0|, at)
    && (forall i: nat :: i in at <==> i < k && Above(dd.All(), part[i]) == "")
    && (forall i :: |nodes0| <= i < |nodes| ==> nodes[i].below == heading)
  }

  lemma SeedMore(dd: Declaration, part: seq<Dep>, k: nat, heading: Position, nodes0: seq<ViewNode>,
                 nodes: seq<ViewNode>, at: seq<nat>)
    requires k < |part| && Seeded(dd, part, k, heading, nodes0, nodes, at) && Above(dd.All(), part[k]) == ""
    ensures Seeded(dd, part, k + 1, heading, nodes0, nodes + [ViewNode(part[k].name, heading)], at + [k])
  {
    NodesMore(part, nodes, |nodes0|, at, k, heading);
  }

  ghost predicate Section(dd: Declaration, part: seq<Dep>, heading: Position) {
    (part == dd.direct && heading == UnderDirect) || (part == dd.environment && heading == UnderEnvironment)
  }

  // A dependency without a parent is shown in its section.
  lemma ShowSeed(dd: Declaration, part: seq<Dep>, k: nat, heading: Position, nodes: seq<ViewNode>,
                 depmap: map<string, nat>)
    requires Section(dd, part, heading) && k < |part| && Shown(dd, nodes, depmap) && Above(dd.All(), part[k]) == ""
    ensures Shown(dd, nodes + [ViewNode(part[k].name, heading)], depmap[part[k].name := |nodes|])
  {
    assert part[k] in dd.All();
    ShowMore(dd, nodes, depmap, part[k], heading);
  }

  lemma TopMore(ds: seq<Dep>, part: seq<Dep>, k: nat)
    requires k < |part|
    ensures TopNames(ds, part[..k + 1])
            == TopNames(ds, part[..k]) + if Above(ds, part[k]) == "" then {part[k].name} else {}
  {
    assert part[..k + 1] == part[..k] + [part[k]];
  }

  ghost predicate SeedState(dd: Declaration, part: seq<Dep>, k: nat, heading: Position, nodes0: seq<ViewNode>,
                            names0: set<string>, nodes: seq<ViewNode>, depmap: map<string, nat>, at: seq<nat>) {
    && Seeded(dd, part, k, heading, nodes0, nodes, at)
    && Shown(dd, nodes, depmap) && depmap.Keys == names0 + TopNames(dd.All(), part[..k])
  }

  lemma SeedStep(dd: Declaration, part: seq<Dep>, k: nat, heading: Position, nodes0: seq<ViewNode>, names0: set<string>,
                 nodes: seq<ViewNode>, depmap: map<string, nat>, at: seq<nat>)
    requires Section(dd, part, heading) && k < |part|
    requires SeedState(dd, part, k, heading, nodes0, names0, nodes, depmap, at)
    ensures if Above(dd.All(), part[k]) == ""
            then SeedState(dd, part, k + 1, heading, nodes0, names0, nodes + [ViewNode(part[k].name, heading)],
                           depmap[part[k].name := |nodes|], at + [k])
            else SeedState(dd, part, k + 1, heading, nodes0, names0, nodes, depmap, at)
  {
    TopMore(dd.All(), part, k);
    if Above(dd.All(), part[k]) == "" {
      ShowSeed(dd, part, k, heading, nodes, depmap);
      SeedMore(dd, part, k, heading, nodes0, nodes, at);
    }
  }

  // The dependencies of one section that have no parent, in their order.
  method AddSeeds(ghost dd: Declaration, part: seq<Dep>, heading: Position, reqmap: map<string, string>,
                  nodes0: seq<ViewNode>, depmap0: map<string, nat>)
    returns (nodes: seq<ViewNode>, depmap: map<string, nat>, ghost at: seq<nat>)
    requires Shown(dd, nodes0, depmap0) && Requirers(dd.All(), reqmap) && Section(dd, part, heading)
    ensures Shown(dd, nodes, depmap) && nodes0 <= nodes
    ensures SeedState(dd, part, |part|, heading, nodes0, depmap0.Keys, nodes, depmap, at)
  {
    nodes, depmap, at := nodes0, depmap0, [];
    for i := 0 to |part|
      invariant SeedState(dd, part, i, heading, nodes0, depmap0.Keys, nodes, depmap, at)
    {
      var d := part[i];
      var parent := if d.name in reqmap then reqmap[d.name] else d.parent;
      assert parent == Above(dd.All(), d);
      SeedStep(dd, part, i, heading, nodes0, depmap0.Keys, nodes, depmap, at);
      if parent == "" {
        depmap := depmap[d.name := |nodes|];
        nodes := nodes + [ViewNode(d.name, heading)];
        at := at + [i];
      }
    }
  }

  // The i-th dependency's parent has a node when its turn comes.
  ghost predicate HasTurn(ds: seq<Dep>, s: set<string>, i: nat) {
    i < |ds| && Above(ds, ds[i]) != "" && Above(ds, ds[i]) in RoundTo(ds, s, i)
  }

  // The first k turns of a round are over, which began with nodes for the names s.
  ghost predicate Turned(ds: seq<Dep>, s: set<string>, k: nat, nodes0: seq<ViewNode>, nodes: seq<ViewNode>,
                         at: seq<nat>) {
    && nodes0 <= nodes && NodesOf(ds, nodes, |nodes0|, at)
    && (forall i: nat :: i in at <==> i < k && HasTurn(ds, s, i))
    && (forall i :: |nodes0| <= i < |nodes| ==> nodes[i].below.Under?)
  }

  lemma TurnMore(ds: seq<Dep>, s: set<string>, k: nat, nodes0: seq<ViewNode>, nodes: seq<ViewNode>, at: seq<nat>,
                 p: nat)
    requires Turned(ds, s, k, nodes0, nodes, at) && HasTurn(ds, s, k)
    ensures Turned(ds, s, k + 1, nodes0, nodes + [ViewNode(ds[k].name, Under(p))], at + [k])
  {
    NodesMore(ds, nodes, |nodes0|, at, k, Under(p));
  }

  ghost predicate RoundState(dd: Declaration, s: set<string>, k: nat, nodes0: seq<ViewNode>, nodes: seq<ViewNode>,
                             depmap: map<string, nat>, at: seq<nat>) {
    && k <= |dd.All()| && Turned(dd.All(), s, k, nodes0, nodes, at)
    && Shown(dd, nodes, depmap) && depmap.Keys == RoundTo(dd.All(), s, k)
  }

  lemma RoundStep(dd: Declaration, s: set<string>, k: nat, nodes0: seq<ViewNode>, nodes: seq<ViewNode>,
                  depmap: map<string, nat>, at: seq<nat>)
    requires k < |dd.All()| && RoundState(dd, s, k, nodes0, nodes, depmap, at)
    ensures var d := dd.All()[k]; var p := Above(dd.All(), d);
            if p != "" && p in depmap
            then RoundState(dd, s, k + 1, nodes0, nodes + [ViewNode(d.name, Under(depmap[p]))],
                            depmap[d.name := |nodes|], at + [k])
            else RoundState(dd, s, k + 1, nodes0, nodes, depmap, at)
  {
    var d := dd.All()[k];
    var p := Above(dd.All(), d);
    if p != "" && p in depmap {
      ShowMore(dd, nodes, depmap, d, Under(depmap[p]));
      TurnMore(dd.All(), s, k, nodes0, nodes, at, depmap[p]);
    }
  }

  // One round: exactly the dependencies whose parent has a node when their turn comes get one, even
  // if they have one already, in their order and below the latest node of the parent.
  method Round(dd: Declaration, reqmap: map<string, string>, nodes0: seq<ViewNode>, depmap0: map<string, nat>)
    returns (nodes: seq<ViewNode>, depmap: map<string, nat>, ghost at: seq<nat>)
    requires Shown(dd, nodes0, depmap0) && Requirers(dd.All(), reqmap)
    ensures Shown(dd, nodes, depmap) && OnlyBelow(nodes0, nodes)
    ensures depmap.Keys == RoundTo(dd.All(), depmap0.Keys, |dd.All()|)
    ensures RoundState(dd, depmap0.Keys, |dd.All()|, nodes0, nodes, depmap, at)
  {
    var ds := dd.All();
    nodes, depmap, at := nodes0, depmap0, [];
    for i := 0 to |ds|
      invariant RoundState(dd, depmap0.Keys, i, nodes0, nodes, depmap, at)
    {
      var d := ds[i];
      var parent := if d.name in reqmap then reqmap[d.name] else d.parent;
      assert parent == Above(ds, d);
      RoundStep(dd, depmap0.Keys, i, nodes0, nodes, depmap, at);
      if parent != "" && parent in depmap {
        nodes, depmap := nodes + [ViewNode(d.name, Under(depmap[parent]))], depmap[d.name := |nodes|];
        at := at + [i];
      }
    }
  }

  // What is seen: every node stands for a dependency, and hangs below a node of the last dependency
  // that requires it, or else of its noted parent; without either it stands in its section.
  ghost predicate SeenAt(dd: Declaration, nodes: seq<ViewNode>, i: nat, d: Dep) {
    && i < |nodes|
    && d in dd.All() && d.name == nodes[i].name
    && match nodes[i].below
       case UnderDirect => d in dd.direct && HangsFrom(dd.All(), d, "")
       case UnderEnvironment => d in dd.environment && HangsFrom(dd.All(), d, "")
       case Under(p) => LatestBefore(nodes, i, p) && HangsFrom(dd.All(), d, nodes[p].name) && nodes[p].name != ""
  }

  ghost predicate IsSeen(dd: Declaration, nodes: seq<ViewNode>, i: nat) {
    exists d :: SeenAt(dd, nodes, i, d)
  }

  // Direct dependencies without a parent come first, then those of the environment, then the others.
  ghost predicate Sectioned(nodes: seq<ViewNode>) {
    forall i, j :: 0 <= i < j < |nodes| ==>
      (nodes[j].below == UnderDirect ==> nodes[i].below == UnderDirect)
      && (nodes[j].below == UnderEnvironment ==> !nodes[i].below.Under?)
  }

  // Everything is seen, and of each name the map keeps the latest node.
  ghost predicate Seen(dd: Declaration, nodes: seq<ViewNode>, depmap: map<string, nat>) {
    && (forall i :: 0 <= i < |nodes| ==> IsSeen(dd, nodes, i)) && Sectioned(nodes)
    && depmap.Keys == NameSet(dd.All())
    && (forall n :: n in depmap ==> LatestBefore(nodes, |nodes|, depmap[n]) && nodes[depmap[n]].name == n)
  }

  lemma ShownIsSeen(dd: Declaration, nodes: seq<ViewNode>, i: nat)
    requires i < |nodes| && IsShown(dd, nodes, i)
    ensures IsSeen(dd, nodes, i)
  {
    var d :| ShownAt(dd, nodes, i, d);
    var place := nodes[i].below;
    HangsFromIs(dd.All(), d, if place.Under? then nodes[place.node].name else "");
    assert SeenAt(dd, nodes, i, d);
  }

  // Nothing has been added but nodes below others.
  ghost predicate OnlyBelow(nodes0: seq<ViewNode>, nodes: seq<ViewNode>) {
    nodes0 <= nodes && forall i :: |nodes0| <= i < |nodes| ==> nodes[i].below.Under?
  }

  lemma AllSeen(dd: Declaration, nodes: seq<ViewNode>, depmap: map<string, nat>)
    requires Shown(dd, nodes, depmap) && Sectioned(nodes) && depmap.Keys == NameSet(dd.All())
    ensures Seen(dd, nodes, depmap)
  {
    forall i | 0 <= i < |nodes|
      ensures IsSeen(dd, nodes, i)
    {
      ShownIsSeen(dd, nodes, i);
    }
  }

  method Render(dd: Declaration) returns (nodes: seq<ViewNode>, depmap: map<string, nat>)
    requires UniqueNames(dd.All()) && AllGrounded(dd.All())
    ensures Seen(dd, nodes, depmap)
  {
    var reqmap := RequirerMap(dd.All());
    assert Requirers(dd.All(), reqmap);
    ghost var at;
    nodes, depmap, at := AddSeeds(dd, dd.direct, UnderDirect, reqmap, [], map[]);
    nodes, depmap, at := AddSeeds(dd, dd.environment, UnderEnvironment, reqmap, nodes, depmap);
    SectionSeeds(dd);
    nodes, depmap := Grow(dd, reqmap, nodes, depmap);
    AllSeen(dd, nodes, depmap);
  }

  // The rounds, until every dependency has a node.
  method Grow(dd: Declaration, reqmap: map<string, string>, nodes0: seq<ViewNode>, depmap0: map<string, nat>)
    returns (nodes: seq<ViewNode>, depmap: map<string, nat>)
    requires UniqueNames(dd.All()) && AllGrounded(dd.All()) && Requirers(dd.All(), reqmap)
    requires Shown(dd, nodes0, depmap0) && depmap0.Keys == Seeds(dd.All())
    ensures Shown(dd, nodes, depmap) && depmap.Keys == NameSet(dd.All()) && OnlyBelow(nodes0, nodes)
  {
    ghost var ds := dd.All();
    nodes, depmap := nodes0, depmap0;
    ghost var n := 0;
    NameCount(ds);
    RoundsBetween(ds, n);
    SubsetSize(Rounds(ds, n), NameSet(ds));
    while |depmap.Keys| != |dd.All()|
      invariant Shown(dd, nodes, depmap) && depmap.Keys == Rounds(ds, n) <= NameSet(ds)
      invariant OnlyBelow(nodes0, nodes)
      invariant |Rounds(ds, n)| <= |ds|
      decreases |ds| - |Rounds(ds, n)|
    {
      RoundsStep(ds, n);
      SubsetSize(Rounds(ds, n + 1), NameSet(ds));
      ghost var at;
      nodes, depmap, at := Round(dd, reqmap, nodes, depmap);
      n := n + 1;
    }
    SubsetSize(Rounds(ds, n), NameSet(ds));
  }
}
