/**
  Configurations on which resolving does not do what it is for.
  */
module DependencyExamples {
  import opened Wrappers
  import opened DependencyTree
  import opened Dependencies
  import opened RepoConfig
  import opened DependencyGraph
  import opened ProgressTree
  import opened RenderTree
  import opened DependencyOrphans

  // An orphan. The repository o/r depends on o/t, which depends on o/d and on a chart named
  // o-d-c; o/d depends on a chart named c, for which it generates that same name.

  function Declare(name: string, repo: string, chart: string): Dep {
    Dep(name, repo, chart, "", false, [], "")
  }

  function OrphanWorld(): World {
    World(
      map[
        "o/r" := Config([Declare("t", "o/t", "")], [], "r"),
        "o/t" := Config([Declare("d", "o/d", ""), Declare("o-d-c", "", "chart")], [], "t"),
        "o/d" := Config([Declare("c", "", "chart")], [], "d")],
      map[], {})
  }

  function OrphanTree(): Tree {
    Node(Declare("t", "o/t", ""), [
      Node(Declare("d", "o/d", ""), [Node(Declare("c", "", "chart"), [])]),
      Node(Declare("o-d-c", "", "chart"), [])])
  }

  function OrphanList(): seq<Dep> {
    [
      Declare("t", "o/t", "").(needs := ["o-t-d", "o-t-o-d-c"]),
      Declare("o-d-c", "", "chart").(parent := "d"),
      Declare("o-t-d", "o/d", "").(needs := ["o-t-o-d-c"], parent := "t"),
      Declare("o-t-o-d-c", "", "chart").(parent := "t")]
  }

  lemma DashesOf(owner: char, name: char)
    requires owner != '/' && name != '/'
    ensures GetName([owner, '/', name]) == [owner, '-', name]
  {
    var s := [owner, '/', name];
    assert Dashes([]) == [];
    assert s[1..] == ['/', name] && s[1..][1..] == [name] && [name][1..] == [];
    assert Dashes([name]) == [name];
    assert Dashes(['/', name]) == ['-'] + Dashes([name]);
  }

  lemma OrphanNames()
    ensures Prefixed("o/t", "d") == "o-t-d" && Prefixed("o/t", "o-d-c") == "o-t-o-d-c"
            && Prefixed("o/d", "c") == "o-d-c"
    ensures GetName("o/r") == "o-r"
  {
    DashesOf('o', 't');
    DashesOf('o', 'd');
    DashesOf('o', 'r');
  }

  lemma ExpandChart(w: World, seen: set<string>, name: string, chart: string, home: string)
    requires name != "" && chart != ""
    ensures Expand(w, seen, Declare(name, "", chart), home) == Ok((Node(Declare(name, "", chart), []), seen))
  {
  }

  lemma ExpandRepo(w: World, seen: set<string>, name: string, repo: string, home: string, kids: seq<Tree>,
                   after: set<string>)
    requires name != "" && repo != "" && repo !in seen && repo in w.configs
    requires ExpandAll(w, seen + {repo}, w.configs[repo].direct, repo) == Ok((kids, after))
    ensures Expand(w, seen, Declare(name, repo, ""), home) == Ok((Node(Declare(name, repo, ""), kids), after))
  {
  }

  lemma ExpandMore(w: World, seen: set<string>, ds: seq<Dep>, home: string, ts: seq<Tree>, mid: set<string>, d: Dep)
    requires ExpandAll(w, seen, ds, home) == Ok((ts, mid)) && Expand(w, mid, d, home).Ok?
    ensures var (t, after) := Expand(w, mid, d, home).value; ExpandAll(w, seen, ds + [d], home) == Ok((ts + [t], after))
  {
    assert (ds + [d])[..|ds|] == ds;
  }

  lemma ExpandOne(w: World, seen: set<string>, d: Dep, home: string)
    requires Expand(w, seen, d, home).Ok?
    ensures var (t, s) := Expand(w, seen, d, home).value; ExpandAll(w, seen, [d], home) == Ok(([t], s))
  {
    var t := Expand(w, seen, d, home).value.0;
    ExpandMore(w, seen, [], home, [], seen, d);
    assert [] + [d] == [d] && [] + [t] == [t];
  }

  lemma ExpandTwo(w: World, seen: set<string>, c: Dep, d: Dep, home: string, t: Tree, mid: set<string>, u: Tree,
                  after: set<string>)
    requires Expand(w, seen, c, home) == Ok((t, mid)) && Expand(w, mid, d, home) == Ok((u, after))
    ensures ExpandAll(w, seen, [c, d], home) == Ok(([t, u], after))
  {
    ExpandOne(w, seen, c, home);
    ExpandMore(w, seen, [c], home, [t], mid, d);
    assert [c] + [d] == [c, d] && [t] + [u] == [t, u];
  }

  lemma OrphanForests()
    ensures Forests(OrphanWorld(), "o/r") == Ok(([OrphanTree()], []))
  {
    var w, t := OrphanWorld(), OrphanTree();
    var c, d, x := Declare("c", "", "chart"), Declare("d", "o/d", ""), Declare("o-d-c", "", "chart");
    var seen := {"o/r", "o/t"};
    var all := seen + {"o/d"};
    ExpandChart(w, all, "c", "chart", "o/d");
    ExpandOne(w, all, c, "o/d");
    ExpandRepo(w, seen, "d", "o/d", "o/t", [Node(c, [])], all);
    ExpandChart(w, all, "o-d-c", "chart", "o/t");
    ExpandTwo(w, seen, d, x, "o/t", t.kids[0], all, t.kids[1], all);
    assert {"o/r"} + {"o/t"} == seen;
    ExpandRepo(w, {"o/r"}, "t", "o/t", "o/r", t.kids, all);
    ExpandOne(w, {"o/r"}, Declare("t", "o/t", ""), "o/r");
  }

  lemma TransOfOne(t: Tree)
    ensures TransAll([t]) == Trans(t)
  {
    assert [t][..0] == [];
  }

  lemma FlatOf(t: Tree, d: Tree, x: Tree, c: Tree)
    requires t.kids == [d, x] && d.kids == [c] && x.kids == [] && c.kids == []
    ensures Flat([t]) == [Top(t), Placed(d, 0), Placed(t, 0), Placed(t, 1)]
  {
    TransOfOne(t);
    TransOfOne(d);
    TransOfOne(c);
    assert Trans(c) == [] && Trans(x) == [] && Trans(d) == [Placed(d, 0)];
    assert t.kids[..1] == [d];
    assert TransAll(t.kids) == [Placed(d, 0)];
    assert Level(t) == [Placed(t, 0), Placed(t, 1)];
    assert Tops([t]) == [Top(t)];
  }

  lemma OrphanNeeds()
    ensures var t := OrphanTree(); var d, x := t.kids[0], t.kids[1];
            && Needs(t) == ["o-t-d", "o-t-o-d-c"] && Needs(d) == ["o-d-c"] && Needs(x) == [] && Needs(d.kids[0]) == []
            && Generated(d) == ["o-d-c"] && Names(t.kids) == ["d", "o-d-c"]
  {
    OrphanNames();
  }

  lemma OrphanFlat()
    ensures Flat([OrphanTree()]) == OrphanList()
  {
    var t := OrphanTree();
    var d, x := t.kids[0], t.kids[1];
    OrphanNames();
    OrphanNeeds();
    FlatOf(t, d, x, d.kids[0]);
    assert Top(t) == OrphanList()[0];
    assert SubstAll("o/d", Names(d.kids), []) == [] && Placed(d, 0) == OrphanList()[1];
    assert SubstAll("o/t", Names(t.kids), ["o-d-c"]) == ["o-t-o-d-c"] && Placed(t, 0) == OrphanList()[2];
    assert SubstAll("o/t", Names(t.kids), []) == [] && Placed(t, 1) == OrphanList()[3];
  }

  lemma NoKidsOrderFree(t: Tree)
    ensures t.kids == [] ==> OrderFree(t)
  {
  }

  lemma OrphanLevel()
    ensures OrderFreeLevel(OrphanTree())
  {
    var t := OrphanTree();
    OrphanNeeds();
    OrphanNames();
    forall i, r | 0 <= i < |t.kids| && r in Needs(t.kids[i])
      ensures RenamedOnce(t, r)
    {
      assert r == "o-d-c";
    }
  }

  lemma OrphanOrderFree()
    ensures OrderFreeAll([OrphanTree()])
  {
    var t := OrphanTree();
    var d, x := t.kids[0], t.kids[1];
    OrphanLevel();
    NoKidsOrderFree(d.kids[0]);
    NoKidsOrderFree(x);
    assert Needs(d.kids[0]) == [];
    assert OrderFree(d);
    assert t.kids == [d, x] && OrderFreeAll(t.kids);
  }

  lemma OrphanRequired()
    ensures forall n :: IsRequired(n, OrphanList()) <==> n == "o-t-d" || n == "o-t-o-d-c"
  {
    RequiredAt(OrphanList(), 0, 0);
    RequiredAt(OrphanList(), 0, 1);
  }

  lemma OrphanNamed()
    ensures NameSet(OrphanList()) == {"t", "o-d-c", "o-t-d", "o-t-o-d-c"}
    ensures "d" !in NameSet(OrphanList()) && "o-r" !in NameSet(OrphanList())
  {
    var ds := OrphanList();
    assert ds[0] in ds && ds[1] in ds && ds[2] in ds && ds[3] in ds;
    assert "o-r"[2] == 'r';
  }

  lemma OrphanApart(i: nat, j: nat)
    requires i < j < 4
    ensures Apart(OrphanList(), i, j)
  {
    var ds := OrphanList();
    assert ds[1].name[2] == 'd' && ds[2].name[2] == 't';
    assert "o/t"[2] == 't' && "o/d"[2] == 'd';
  }

  lemma OrphanValid()
    ensures ValidNames(Declaration(OrphanList(), []))
  {
    var ds := OrphanList();
    assert Declaration(ds, []).All() == ds;
    OrphanNamed();
    forall i, j | 0 <= i < j < 4
      ensures Apart(ds, i, j)
    {
      OrphanApart(i, j);
    }
  }

  lemma OrphanAcyclic(rank: string -> nat)
    requires forall n :: rank(n) == |n|
    ensures Acyclic(OrphanList(), rank)
  {
  }

  lemma OrphanResult(r: Result<Declaration>)
    requires Gives(r, [OrphanTree()], [])
    ensures r == Ok(Declaration(OrphanList(), []))
  {
    OrphanFlat();
    OrphanOrderFree();
    OrphanValid();
    assert OrderFreeAll([]) && Flat([]) == [];
    GivesFlat(r, [OrphanTree()], []);
  }

  lemma UnanchoredUngrounded(ds: seq<Dep>, root: string, d: Dep)
    requires d in ds && !AnchoredAt(ds, root, d)
    ensures !AllGrounded(ds)
  {
    RequirerIs(ds, d.name);
    forall k: nat
      ensures !Grounded(ds, d, k)
    {
    }
    assert !HasGround(ds, d);
  }

  lemma OrphanTrees()
    ensures !AllRequired(OrphanList())
    ensures !AllReach(OrphanList(), "o-r") && !AllGrounded(OrphanList())
  {
    var ds := OrphanList();
    OrphanValid();
    OrphanNamed();
    OrphanRequired();
    assert Declaration(ds, []).All() == ds;
    ResolvedTogether(Declaration(ds, []));
    assert ds[1] in ds && !AnchoredAt(ds, "o-r", ds[1]);
    RootedIff(ds, "o-r");
    UnanchoredUngrounded(ds, "o-r", ds[1]);
  }

  lemma OrphanListed()
    ensures ListsAre(Declaration(OrphanList(), []), [OrphanTree()], [])
  {
    OrphanFlat();
    OrphanOrderFree();
    ListIsFlat([OrphanTree()], OrphanList());
    EmptyList();
  }

  lemma EmptyList()
    ensures ListIs([], [])
  {
    assert Tops([]) == [];
  }

  lemma UnrequiredIsOrphan(dd: Declaration, ts: seq<Tree>, us: seq<Tree>)
    requires ListsAre(dd, ts, us) && AllNamed(AllPlaces(ts, us)) && !AllRequired(dd.All())
    ensures !NoOrphans(AllPlaces(ts, us))
  {
    if NoOrphans(AllPlaces(ts, us)) {
      NoOrphansRequired(dd, ts, us);
    }
  }

  lemma OrphanIsOne()
    ensures !NoOrphans(AllPlaces([OrphanTree()], []))
  {
    OrphanListed();
    OrphanForests();
    OrphanTrees();
    ForestsNamed(OrphanWorld(), "o/r");
    assert Declaration(OrphanList(), []).All() == OrphanList();
    UnrequiredIsOrphan(Declaration(OrphanList(), []), [OrphanTree()], []);
  }

  // The list is accepted, its requirements have no circle, and all iteration orders give it. But
  // nobody requires o-d-c, whose parent d is nowhere in the list; no chain of parents leads from
  // it to the root, and rendering goes on for ever.
  lemma OrphanExample(rank: string -> nat)
    requires forall n :: rank(n) == |n|
    ensures Forests(OrphanWorld(), "o/r") == Ok(([OrphanTree()], []))
    ensures forall r :: Gives(r, [OrphanTree()], []) ==> r == Ok(Declaration(OrphanList(), []))
    ensures Acyclic(OrphanList(), rank) && GetName("o/r") !in NameSet(OrphanList())
    ensures !NoOrphans(AllPlaces([OrphanTree()], []))
    ensures !AllReach(OrphanList(), GetName("o/r")) && forall n :: |Rounds(OrphanList(), n)| != |OrphanList()|
  {
    OrphanForests();
    OrphanAcyclic(rank);
    OrphanNames();
    OrphanNamed();
    OrphanTrees();
    OrphanIsOne();
    EndsIff(OrphanList());
    forall r | Gives(r, [OrphanTree()], [])
      ensures r == Ok(Declaration(OrphanList(), []))
    {
      OrphanResult(r);
    }
  }

  // A requirement that can be renamed twice. The repository o/r depends on o/t, which depends on
  // charts named c, o-t-c and x, of which x requires c.

  function OrderWorld(): World {
    World(
      map[
        "o/r" := Config([Declare("t", "o/t", "")], [], "r"),
        "o/t" := Config([Declare("c", "", "chart"), Declare("o-t-c", "", "chart"), NeedsC()], [], "t")],
      map[], {})
  }

  function NeedsC(): Dep {
    Declare("x", "", "chart").(needs := ["c"])
  }

  function OrderTree(): Tree {
    Node(Declare("t", "o/t", ""), [
      Node(Declare("c", "", "chart"), []), Node(Declare("o-t-c", "", "chart"), []), Node(NeedsC(), [])])
  }

  // What comes of renaming c first: x requires the dependency declared as o-t-c.
  function OrderList(): seq<Dep> {
    [
      Declare("t", "o/t", "").(needs := ["o-t-c", "o-t-o-t-c", "o-t-x"]),
      Declare("o-t-c", "", "chart").(parent := "t"),
      Declare("o-t-o-t-c", "", "chart").(parent := "t"),
      Declare("o-t-x", "", "chart").(needs := ["o-t-o-t-c"], parent := "t")]
  }

  lemma OrderForests()
    ensures Forests(OrderWorld(), "o/r") == Ok(([OrderTree()], []))
  {
    var w, t, all := OrderWorld(), OrderTree(), {"o/r", "o/t"};
    var c, g := Declare("c", "", "chart"), Declare("o-t-c", "", "chart");
    ExpandChart(w, all, "c", "chart", "o/t");
    ExpandChart(w, all, "o-t-c", "chart", "o/t");
    ExpandTwo(w, all, c, g, "o/t", t.kids[0], all, t.kids[1], all);
    ExpandMore(w, all, [c, g], "o/t", [t.kids[0], t.kids[1]], all, NeedsC());
    assert [c, g] + [NeedsC()] == [c, g, NeedsC()];
    assert [t.kids[0], t.kids[1]] + [t.kids[2]] == t.kids;
    assert {"o/r"} + {"o/t"} == all;
    ExpandRepo(w, {"o/r"}, "t", "o/t", "o/r", t.kids, all);
    ExpandOne(w, {"o/r"}, Declare("t", "o/t", ""), "o/r");
  }

  lemma NoKidsTrans(ts: seq<Tree>)
    requires forall t :: t in ts ==> t.kids == []
    ensures SizeAll(ts) == |ts| && TransAllIs(ts, []) && TransAll(ts) == []
  {
    if ts != [] {
      var t := ts[|ts| - 1];
      NoKidsTrans(ts[..|ts| - 1]);
      LeafAdds(t.dep, []);
      assert t == Node(t.dep, []) && Trans(t) == [];
    }
  }

  // Three charts without requirements but that the third requires the first, whose new name is
  // the declared name of the second.
  ghost predicate Redeclares(t: Tree) {
    && |t.kids| == 3 && t.dep.parent == "" && (forall k :: k in t.kids ==> k.kids == [] && k.dep.parent == "")
    && NoDuplicates(Names(t.kids))
    && t.kids[1].dep.name == Prefixed(t.dep.repo, t.kids[0].dep.name)
    && t.kids[2].dep.name != Prefixed(t.dep.repo, t.kids[1].dep.name)
    && t.kids[0].dep.needs == [] && t.kids[1].dep.needs == [] && t.kids[2].dep.needs == [t.kids[0].dep.name]
  }

  function Misled(t: Tree): Dep
    requires |t.kids| == 3
  {
    Placed(t, 2).(needs := [Prefixed(t.dep.repo, t.kids[1].dep.name)])
  }

  lemma KidNeeds(t: Tree, i: nat)
    requires Redeclares(t) && i < 3
    ensures Needs(t.kids[i]) == t.kids[i].dep.needs
  {
    assert t.kids[i] in t.kids;
    assert Generated(t.kids[i]) == [];
  }

  lemma FirstFirst(t: Tree) returns (order: seq<string>)
    requires Redeclares(t)
    ensures Lists(order, NameSetOf(t.kids))
    ensures Chase(t.dep.repo, t.kids[0].dep.name, order) == Prefixed(t.dep.repo, t.kids[1].dep.name)
  {
    var repo, c, g, x := t.dep.repo, t.kids[0].dep.name, t.kids[1].dep.name, t.kids[2].dep.name;
    order := Names(t.kids);
    assert order == [c, g, x] && order[0] != order[2] && order[1] != order[2];
    ChaseOne(repo, c);
    ChaseOne(repo, g);
    ChaseOn(repo, c, [c], [g]);
    assert [c] + [g] == [c, g];
    ChaseStays(repo, Prefixed(repo, g), [x]);
    ChaseOn(repo, c, [c, g], [x]);
    assert [c, g] + [x] == [c, g, x];
  }

  function MisledLevel(t: Tree): seq<Dep>
    requires |t.kids| == 3
  {
    [Placed(t, 0), Placed(t, 1), Misled(t)]
  }

  lemma MisledLevelIs(t: Tree)
    requires Redeclares(t)
    ensures LevelIs(t, MisledLevel(t))
  {
    var order := FirstFirst(t);
    forall i | 0 <= i < 3
      ensures ChasedAt(t.dep.repo, order, Raw(t)[i], MisledLevel(t)[i])
    {
      KidNeeds(t, i);
    }
    assert Chased(t.dep.repo, order, Raw(t), MisledLevel(t));
  }

  lemma MisledList(t: Tree)
    requires Redeclares(t)
    ensures ListIs([t], [Top(t)] + MisledLevel(t))
  {
    var level := MisledLevel(t);
    MisledLevelIs(t);
    NoKidsTrans(t.kids);
    assert level[..0] == [] && level[0..] == level;
    assert TransIs(t, level);
    assert [t][..0] == [] && SizeAll([t]) == Size(t);
    assert TransAllIs([t], level);
    assert Tops([t]) == [Top(t)] && ([Top(t)] + level)[1..] == level;
  }

  lemma FlatOfThree(t: Tree)
    requires Redeclares(t)
    ensures Flat([t]) == [Top(t), Placed(t, 0), Placed(t, 1), Placed(t, 2)]
  {
    NoKidsTrans(t.kids);
    TransOfOne(t);
    assert Trans(t) == Level(t) == [Placed(t, 0), Placed(t, 1), Placed(t, 2)];
    assert Tops([t]) == [Top(t)];
  }

  lemma ThirdIsMisled(t: Tree)
    requires Redeclares(t)
    ensures Placed(t, 2) != Misled(t)
  {
    var c, g := t.kids[0].dep.name, t.kids[1].dep.name;
    KidNeeds(t, 2);
    assert Names(t.kids)[0] == c;
    assert Placed(t, 2).needs[0] == Subst(t.dep.repo, Names(t.kids), c) == g;
    PrefixedGrows(t.dep.repo, g, g);
  }

  lemma MisledNotFlat(t: Tree)
    requires Redeclares(t)
    ensures [Top(t)] + MisledLevel(t) != Flat([t])
  {
    var a, b := [Top(t)] + MisledLevel(t), Flat([t]);
    FlatOfThree(t);
    ThirdIsMisled(t);
    assert a[3] == Misled(t) && b[3] == Placed(t, 2);
  }

  lemma MisledEdges(t: Tree)
    requires Redeclares(t)
    ensures NamesKeptAll([], [t]) && ListEdges(Flat([t])) == KidEdges(None, [], [t])
    ensures ListEdges([Top(t)] + MisledLevel(t)) != KidEdges(None, [], [t])
  {
    MisledList(t);
    MisledNotFlat(t);
    forall k | k in t.kids
      ensures NamesKept(Names(t.kids), k)
    {
      assert Generated(k) == [];
    }
    assert NamesKept([], t);
    FlatEdgesIff([t]);
    ListEdgesIff([t], [Top(t)] + MisledLevel(t));
  }

  lemma OrderNames()
    ensures Prefixed("o/t", "c") == "o-t-c" && Prefixed("o/t", "o-t-c") == "o-t-o-t-c"
            && Prefixed("o/t", "x") == "o-t-x"
  {
    DashesOf('o', 't');
  }

  lemma OrderRedeclares()
    ensures Redeclares(OrderTree())
  {
    OrderNames();
    assert Names(OrderTree().kids) == ["c", "o-t-c", "x"];
  }

  lemma OrderIsMisled()
    ensures OrderList() == [Top(OrderTree())] + MisledLevel(OrderTree())
  {
    var t := OrderTree();
    OrderNames();
    OrderRedeclares();
    assert Generated(t) == ["o-t-c", "o-t-o-t-c", "o-t-x"];
    assert Top(t) == OrderList()[0];
    KidNeeds(t, 0);
    KidNeeds(t, 1);
    assert Placed(t, 0) == OrderList()[1] && Placed(t, 1) == OrderList()[2] && Misled(t) == OrderList()[3];
  }

  lemma OrderValid()
    ensures ValidNames(Declaration(OrderList(), []))
  {
    var ds := OrderList();
    assert Declaration(ds, []).All() == ds;
    assert ds[1].name[4] == 'c' && ds[3].name[4] == 'x';
    assert ds[0] in ds && ds[1] in ds && ds[2] in ds && ds[3] in ds;
    forall i, j | 0 <= i < j < 4
      ensures Apart(ds, i, j)
    {
    }
  }

  lemma AcceptedList(ts: seq<Tree>, ds: seq<Dep>)
    requires ListIs(ts, ds) && ValidNames(Declaration(ds, []))
    ensures Gives(Ok(Declaration(ds, [])), ts, [])
  {
    EmptyList();
    assert ListsAre(Declaration(ds, []), ts, []);
  }

  // Nothing generated is redirected, and renamed simultaneously the list has the declared edges.
  // But Get may return, and accept, a list in which x requires the wrong dependency.
  lemma OrderExample()
    ensures Forests(OrderWorld(), "o/r") == Ok(([OrderTree()], []))
    ensures NamesKeptAll([], [OrderTree()]) && ListEdges(Flat([OrderTree()])) == KidEdges(None, [], [OrderTree()])
    ensures Gives(Ok(Declaration(OrderList(), [])), [OrderTree()], [])
    ensures ListEdges(OrderList()) != KidEdges(None, [], [OrderTree()])
  {
    OrderForests();
    OrderRedeclares();
    MisledList(OrderTree());
    MisledEdges(OrderTree());
    OrderIsMisled();
    OrderValid();
    AcceptedList([OrderTree()], OrderList());
  }
}
