/**
  What the resolved list of dependencies says about the declared tree: the
  requirement edges and the repositories.
  */
module DependencyGraph {
  import opened Wrappers
  import opened DependencyTree
  import opened Dependencies
  import opened RepoConfig

  type Edge = (string, string)

  // The requirement edges of a list of records.

  function Bag(from: string, needs: seq<string>): multiset<Edge> {
    if needs == [] then multiset{} else Bag(from, needs[..|needs| - 1]) + multiset{(from, needs[|needs| - 1])}
  }

  function ListEdges(ds: seq<Dep>): multiset<Edge> {
    if ds == [] then multiset{} else ListEdges(ds[..|ds| - 1]) + Bag(ds[|ds| - 1].name, ds[|ds| - 1].needs)
  }

  // The edges of the declared tree under final names: `final` is the final name of the tree's
  // root, which stands among `siblings` declared by `repo`.

  function FinalName(repo: Option<string>, name: string): string {
    match repo
    case None => name
    case Some(r) => Prefixed(r, name)
  }

  // Requirements: of a sibling, if they name one.
  function FinalNeeds(repo: Option<string>, siblings: seq<string>, needs: seq<string>): seq<string> {
    match repo
    case None => needs
    case Some(r) => SubstAll(r, siblings, needs)
  }

  function DeclaredEdges(repo: Option<string>, siblings: seq<string>, t: Tree): multiset<Edge> {
    Bag(FinalName(repo, t.dep.name), FinalNeeds(repo, siblings, t.dep.needs))
  }

  // One edge to each dependency that the tree's root brings.
  function ParentEdges(repo: Option<string>, t: Tree, k: nat): multiset<Edge>
    requires k <= |t.kids|
  {
    if k == 0 then multiset{}
    else
      ParentEdges(repo, t, k - 1)
      + multiset{(FinalName(repo, t.dep.name), FinalName(Some(t.dep.repo), t.kids[k - 1].dep.name))}
  }

  function TreeEdges(repo: Option<string>, siblings: seq<string>, t: Tree): multiset<Edge>
    decreases t
  {
    DeclaredEdges(repo, siblings, t) + ParentEdges(repo, t, |t.kids|)
      + KidEdges(Some(t.dep.repo), Names(t.kids), t.kids)
  }

  function KidEdges(repo: Option<string>, siblings: seq<string>, ts: seq<Tree>): multiset<Edge>
    decreases ts
  {
    if ts == [] then multiset{}
    else KidEdges(repo, siblings, ts[..|ts| - 1]) + TreeEdges(repo, siblings, ts[|ts| - 1])
  }

  // The edges that the records of a tree have: all requirements, those of what is brought
  // included, are redirected to a sibling that they name.

  function FoundEdges(repo: Option<string>, siblings: seq<string>, t: Tree): multiset<Edge>
    decreases t
  {
    Bag(FinalName(repo, t.dep.name), FinalNeeds(repo, siblings, Needs(t)))
    + FoundKidEdges(Some(t.dep.repo), Names(t.kids), t.kids)
  }

  function FoundKidEdges(repo: Option<string>, siblings: seq<string>, ts: seq<Tree>): multiset<Edge>
    decreases ts
  {
    if ts == [] then multiset{}
    else FoundKidEdges(repo, siblings, ts[..|ts| - 1]) + FoundEdges(repo, siblings, ts[|ts| - 1])
  }

  lemma {:induction false} BagJoin(from: string, a: seq<string>, b: seq<string>)
    ensures Bag(from, a + b) == Bag(from, a) + Bag(from, b)
  {
    if b == [] {
      assert a + b == a;
    } else {
      assert (a + b)[..|a + b| - 1] == a + b[..|b| - 1];
      BagJoin(from, a, b[..|b| - 1]);
    }
  }

  lemma {:induction false} EdgesJoin(a: seq<Dep>, b: seq<Dep>)
    ensures ListEdges(a + b) == ListEdges(a) + ListEdges(b)
  {
    if b == [] {
      assert a + b == a;
    } else {
      assert (a + b)[..|a + b| - 1] == a + b[..|b| - 1];
      EdgesJoin(a, b[..|b| - 1]);
    }
  }

  lemma BagMore(from: string, a: seq<string>, x: string)
    ensures Bag(from, a + [x]) == Bag(from, a) + multiset{(from, x)}
  {
    assert (a + [x])[..|a|] == a;
  }

  lemma GeneratedFront(t: Tree, k: nat)
    requires 0 < k <= |t.kids|
    ensures Generated(t)[..k] == Generated(t)[..k - 1] + [FinalName(Some(t.dep.repo), t.kids[k - 1].dep.name)]
  {
  }

  lemma {:induction false} ParentBag(repo: Option<string>, t: Tree, k: nat)
    requires k <= |t.kids|
    ensures Bag(FinalName(repo, t.dep.name), Generated(t)[..k]) == ParentEdges(repo, t, k)
  {
    if k > 0 {
      ParentBag(repo, t, k - 1);
      GeneratedFront(t, k);
      BagMore(FinalName(repo, t.dep.name), Generated(t)[..k - 1], FinalName(Some(t.dep.repo), t.kids[k - 1].dep.name));
    }
  }

  // The record that a tree's root becomes.
  function RecordOf(repo: Option<string>, siblings: seq<string>, parent: string, t: Tree): Dep {
    t.dep.(
    name := FinalName(repo, t.dep.name),
    needs := FinalNeeds(repo, siblings, Needs(t)),
    parent := parent)
  }

  // The records of some trees side by side, and below them.
  function Records(repo: Option<string>, siblings: seq<string>, parent: string, ts: seq<Tree>): seq<Dep> {
    seq(|ts|, i requires 0 <= i < |ts| => RecordOf(repo, siblings, parent, ts[i]))
  }

  lemma LastRecord(repo: Option<string>, siblings: seq<string>, parent: string, ts: seq<Tree>)
    ensures ts != [] ==>
              Records(repo, siblings, parent, ts)
              == Records(repo, siblings, parent, ts[..|ts| - 1]) + [RecordOf(repo, siblings, parent, ts[|ts| - 1])]
  {
  }

  lemma RecordsStep(repo: Option<string>, siblings: seq<string>, parent: string, ts: seq<Tree>)
    requires ts != []
    ensures var d := RecordOf(repo, siblings, parent, ts[|ts| - 1]);
            ListEdges(Records(repo, siblings, parent, ts))
            == ListEdges(Records(repo, siblings, parent, ts[..|ts| - 1])) + Bag(d.name, d.needs)
  {
    LastRecord(repo, siblings, parent, ts);
    var rs, before := Records(repo, siblings, parent, ts), Records(repo, siblings, parent, ts[..|ts| - 1]);
    assert rs[..|rs| - 1] == before;
  }

  // The records of the kids of a tree.
  function KidRecords(t: Tree): seq<Dep> {
    Records(Some(t.dep.repo), Names(t.kids), t.dep.name, t.kids)
  }

  lemma LevelIsKidRecords(t: Tree)
    ensures Level(t) == KidRecords(t)
  {
  }

  lemma TransStep(ts: seq<Tree>)
    requires ts != []
    ensures var t := ts[|ts| - 1];
            ListEdges(TransAll(ts)) == ListEdges(TransAll(ts[..|ts| - 1]))
              + (ListEdges(KidRecords(t)) + ListEdges(TransAll(t.kids)))
  {
    var t := ts[|ts| - 1];
    LevelIsKidRecords(t);
    EdgesJoin(TransAll(ts[..|ts| - 1]), Trans(t));
    EdgesJoin(TransAll(t.kids), Level(t));
  }

  lemma {:induction false} LevelEdges(repo: Option<string>, siblings: seq<string>, parent: string, ts: seq<Tree>)
    ensures ListEdges(Records(repo, siblings, parent, ts)) + ListEdges(TransAll(ts))
            == FoundKidEdges(repo, siblings, ts)
    decreases ts
  {
    if ts != [] {
      var before, t := ts[..|ts| - 1], ts[|ts| - 1];
      LevelEdges(repo, siblings, parent, before);
      LevelEdges(Some(t.dep.repo), Names(t.kids), t.dep.name, t.kids);
      RecordsStep(repo, siblings, parent, ts);
      TransStep(ts);
    }
  }

  // Comparing edges by the length of the names that they lead to: redirecting makes them longer.

  ghost function SomeEdge(edges: multiset<Edge>): Edge
    requires edges != multiset{}
  {
    var e :| e in edges; e
  }

  ghost function Weight(edges: multiset<Edge>): nat {
    if edges == multiset{} then 0 else |SomeEdge(edges).1| + Weight(edges - multiset{SomeEdge(edges)})
  }

  lemma OutOfBoth(edges: multiset<Edge>, e: Edge, f: Edge)
    ensures edges - multiset{f} - multiset{e} == edges - multiset{e} - multiset{f}
  {
  }

  lemma {:induction false} WeightLess(edges: multiset<Edge>, e: Edge)
    requires e in edges
    ensures Weight(edges) == |e.1| + Weight(edges - multiset{e})
  {
    var f := SomeEdge(edges);
    if f != e {
      var x, y := edges - multiset{f}, edges - multiset{e};
      assert e in x && f in y;
      WeightLess(x, e);
      WeightLess(y, f);
      OutOfBoth(edges, e, f);
    }
  }

  lemma {:induction false} WeightJoin(a: multiset<Edge>, b: multiset<Edge>)
    ensures Weight(a + b) == Weight(a) + Weight(b)
    decreases b
  {
    if b == multiset{} {
      assert a + b == a;
    } else {
      var e := SomeEdge(b);
      WeightJoin(a, b - multiset{e});
      WeightLess(a + b, e);
      assert a + b - multiset{e} == a + (b - multiset{e});
    }
  }

  function Length(needs: seq<string>): nat {
    if needs == [] then 0 else Length(needs[..|needs| - 1]) + |needs[|needs| - 1]|
  }

  lemma {:induction false} BagWeight(from: string, needs: seq<string>)
    ensures Weight(Bag(from, needs)) == Length(needs)
  {
    if needs != [] {
      var e := (from, needs[|needs| - 1]);
      BagWeight(from, needs[..|needs| - 1]);
      WeightLess(Bag(from, needs), e);
      assert Bag(from, needs) - multiset{e} == Bag(from, needs[..|needs| - 1]);
    }
  }

  lemma {:induction false} RedirectedLength(repo: Option<string>, siblings: seq<string>, needs: seq<string>)
    requires repo.None? ==> siblings == []
    ensures var found := FinalNeeds(repo, siblings, needs);
            if exists r :: r in needs && r in siblings then Length(found) > Length(needs) else found == needs
  {
    if needs != [] {
      var before, r := needs[..|needs| - 1], needs[|needs| - 1];
      RedirectedLength(repo, siblings, before);
      assert FinalNeeds(repo, siblings, needs)[..|before|] == FinalNeeds(repo, siblings, before);
      assert forall x :: x in needs <==> x in before || x == r;
      if r in siblings {
        PrefixedGrows(repo.value, r, r);
      }
    }
  }

  lemma FinalNeedsJoin(repo: Option<string>, siblings: seq<string>, a: seq<string>, b: seq<string>)
    ensures FinalNeeds(repo, siblings, a + b) == FinalNeeds(repo, siblings, a) + FinalNeeds(repo, siblings, b)
  {
  }

  lemma LongerBag(from: string, a: seq<string>, b: seq<string>, c: seq<string>)
    requires Length(b) > Length(c)
    ensures Weight(Bag(from, a + b)) > Weight(Bag(from, a) + Bag(from, c))
  {
    BagJoin(from, a, b);
    WeightJoin(Bag(from, a), Bag(from, b));
    WeightJoin(Bag(from, a), Bag(from, c));
    BagWeight(from, b);
    BagWeight(from, c);
  }

  // The edges of one tree's root.
  lemma RootEdges(repo: Option<string>, siblings: seq<string>, t: Tree)
    requires repo.None? ==> siblings == []
    ensures var found := Bag(FinalName(repo, t.dep.name), FinalNeeds(repo, siblings, Needs(t)));
            var declared := DeclaredEdges(repo, siblings, t) + ParentEdges(repo, t, |t.kids|);
            if exists g :: g in Generated(t) && g in siblings then Weight(found) > Weight(declared)
            else found == declared
  {
    var from, names := FinalName(repo, t.dep.name), Generated(t);
    var a, b := FinalNeeds(repo, siblings, t.dep.needs), FinalNeeds(repo, siblings, names);
    FinalNeedsJoin(repo, siblings, t.dep.needs, names);
    ParentBag(repo, t, |t.kids|);
    assert names[..|t.kids|] == names;
    RedirectedLength(repo, siblings, names);
    if exists g :: g in names && g in siblings {
      LongerBag(from, a, b, names);
    } else {
      BagJoin(from, a, names);
    }
  }

  lemma {:induction false} TreeRedirected(repo: Option<string>, siblings: seq<string>, t: Tree)
    requires repo.None? ==> siblings == []
    ensures var found, declared := FoundEdges(repo, siblings, t), TreeEdges(repo, siblings, t);
            if NamesKept(siblings, t) then found == declared else Weight(found) > Weight(declared)
    decreases t
  {
    var a := Bag(FinalName(repo, t.dep.name), FinalNeeds(repo, siblings, Needs(t)));
    var b := DeclaredEdges(repo, siblings, t) + ParentEdges(repo, t, |t.kids|);
    RootEdges(repo, siblings, t);
    KidsRedirected(Some(t.dep.repo), Names(t.kids), t.kids);
    WeightJoin(a, FoundKidEdges(Some(t.dep.repo), Names(t.kids), t.kids));
    WeightJoin(b, KidEdges(Some(t.dep.repo), Names(t.kids), t.kids));
  }

  lemma {:induction false} KidsRedirected(repo: Option<string>, siblings: seq<string>, ts: seq<Tree>)
    requires repo.None? ==> siblings == []
    ensures var found, declared := FoundKidEdges(repo, siblings, ts), KidEdges(repo, siblings, ts);
            if NamesKeptAll(siblings, ts) then found == declared else Weight(found) > Weight(declared)
    decreases ts
  {
    if ts != [] {
      var before, t := ts[..|ts| - 1], ts[|ts| - 1];
      KidsRedirected(repo, siblings, before);
      TreeRedirected(repo, siblings, t);
      WeightJoin(FoundKidEdges(repo, siblings, before), FoundEdges(repo, siblings, t));
      WeightJoin(KidEdges(repo, siblings, before), TreeEdges(repo, siblings, t));
      assert forall x :: x in ts <==> x in before || x == t;
    }
  }

  // The list renamed simultaneously has the declared edges, exactly if no name generated for what
  // a dependency brings is also declared beside that dependency. Declared are the requirements, of
  // siblings by their final names, and one edge from every dependency to each one it brings.
  lemma FlatEdgesIff(ts: seq<Tree>)
    requires forall t :: t in ts ==> t.dep.parent == ""
    ensures ListEdges(Flat(ts)) == KidEdges(None, [], ts) <==> NamesKeptAll([], ts)
  {
    assert Tops(ts) == Records(None, [], "", ts);
    LevelEdges(None, [], "", ts);
    EdgesJoin(Tops(ts), TransAll(ts));
    KidsRedirected(None, [], ts);
  }

  // Whatever else a requirement is renamed to is longer still.

  lemma {:induction false} FurtherLength(names: set<string>, a: seq<string>, b: seq<string>)
    requires |a| == |b| && forall j :: 0 <= j < |a| ==> NeedFurther(names, a[j], b[j])
    ensures a == b || Length(a) > Length(b)
  {
    if a != [] {
      FurtherLength(names, a[..|a| - 1], b[..|b| - 1]);
      assert NeedFurther(names, a[|a| - 1], b[|b| - 1]);
      assert a == a[..|a| - 1] + [a[|a| - 1]] && b == b[..|b| - 1] + [b[|b| - 1]];
    }
  }

  function TotalLength(ds: seq<Dep>): nat {
    if ds == [] then 0 else TotalLength(ds[..|ds| - 1]) + Length(ds[|ds| - 1].needs)
  }

  lemma {:induction false} ListWeight(ds: seq<Dep>)
    ensures Weight(ListEdges(ds)) == TotalLength(ds)
  {
    if ds != [] {
      var d := ds[|ds| - 1];
      ListWeight(ds[..|ds| - 1]);
      WeightJoin(ListEdges(ds[..|ds| - 1]), Bag(d.name, d.needs));
      BagWeight(d.name, d.needs);
    }
  }

  lemma SameFront(names: set<string>, a: seq<Dep>, b: seq<Dep>)
    requires SameRecords(names, a, b) && a != []
    ensures SameRecords(names, a[..|a| - 1], b[..|b| - 1])
  {
    var x, y := a[..|a| - 1], b[..|b| - 1];
    forall i | 0 <= i < |x|
      ensures SameRecord(names, x[i], y[i])
    {
      assert SameRecord(names, a[i], b[i]);
    }
  }

  lemma FurtherRecord(names: set<string>, c: Dep, d: Dep)
    requires SameRecord(names, c, d)
    ensures c == d || Length(c.needs) > Length(d.needs)
  {
    FurtherLength(names, c.needs, d.needs);
  }

  lemma {:induction false} FurtherTotal(names: set<string>, a: seq<Dep>, b: seq<Dep>)
    requires SameRecords(names, a, b)
    ensures a == b || TotalLength(a) > TotalLength(b)
  {
    if a != [] {
      var x, y, c, d := a[..|a| - 1], b[..|b| - 1], a[|a| - 1], b[|b| - 1];
      SameFront(names, a, b);
      FurtherTotal(names, x, y);
      assert SameRecord(names, c, d);
      FurtherRecord(names, c, d);
      assert a == x + [c] && b == y + [d];
    }
  }

  // Of the lists that resolving may give, those have the declared edges that are renamed
  // simultaneously, if no generated name is redirected.
  lemma ListEdgesIff(ts: seq<Tree>, ds: seq<Dep>)
    requires ListIs(ts, ds) && forall t :: t in ts ==> t.dep.parent == ""
    ensures ListEdges(ds) == KidEdges(None, [], ts) <==> ds == Flat(ts) && NamesKeptAll([], ts)
  {
    var names := GeneratedInAll(ts);
    ListSame(ts, ds, names);
    FurtherTotal(names, ds, Flat(ts));
    ListWeight(ds);
    ListWeight(Flat(ts));
    FlatEdgesIff(ts);
    assert Tops(ts) == Records(None, [], "", ts);
    LevelEdges(None, [], "", ts);
    EdgesJoin(Tops(ts), TransAll(ts));
    KidsRedirected(None, [], ts);
  }

  ghost predicate EdgesKept(ts: seq<Tree>) {
    forall ds :: ListIs(ts, ds) ==> ListEdges(ds) == KidEdges(None, [], ts)
  }

  // Prefixing preserves the graph, whatever the iteration orders, exactly if no generated name is
  // redirected and no requirement can be renamed twice.
  lemma EdgesKeptIff(ts: seq<Tree>)
    requires forall t :: t in ts ==> t.dep.parent == ""
    ensures EdgesKept(ts) <==> NamesKeptAll([], ts) && OrderFreeAll(ts)
  {
    ListOrderIff(ts);
    if EdgesKept(ts) {
      forall ds | ListIs(ts, ds)
        ensures ds == Flat(ts) && NamesKeptAll([], ts)
      {
        ListEdgesIff(ts, ds);
      }
      ListIsFlat(ts, Flat(ts));
      ListEdgesIff(ts, Flat(ts));
    }
    if NamesKeptAll([], ts) && OrderFreeAll(ts) {
      forall ds | ListIs(ts, ds)
        ensures ListEdges(ds) == KidEdges(None, [], ts)
      {
        ListEdgesIff(ts, ds);
      }
    }
  }

  ghost predicate ResultEdges(dd: Declaration, ts: seq<Tree>, us: seq<Tree>) {
    ListEdges(dd.direct) == KidEdges(None, [], ts) && ListEdges(dd.environment) == KidEdges(None, [], us)
  }

  // So every accepted configuration has the declared edges, exactly if none is accepted or both
  // conditions hold of both forests.
  lemma ResolvedEdgesIff(ts: seq<Tree>, us: seq<Tree>)
    requires forall t :: t in ts + us ==> t.dep.parent == ""
    ensures (forall dd :: Gives(Ok(dd), ts, us) ==> ResultEdges(dd, ts, us))
            <==> (ValidNames(Declaration(Flat(ts), Flat(us))) ==>
                    NamesKeptAll([], ts + us) && OrderFreeAll(ts + us))
  {
    assert forall t :: t in ts + us <==> t in ts || t in us;
    EdgesKeptIff(ts);
    EdgesKeptIff(us);
    if forall dd :: Gives(Ok(dd), ts, us) ==> ResultEdges(dd, ts, us) {
      if ValidNames(Declaration(Flat(ts), Flat(us))) {
        AllListsKept(ts, us);
      }
    }
    if ValidNames(Declaration(Flat(ts), Flat(us))) ==> EdgesKept(ts) && EdgesKept(us) {
      forall dd | Gives(Ok(dd), ts, us)
        ensures ResultEdges(dd, ts, us)
      {
        AcceptedAlike(dd, ts, us);
      }
    }
  }

  lemma AllListsKept(ts: seq<Tree>, us: seq<Tree>)
    requires ValidNames(Declaration(Flat(ts), Flat(us)))
    requires forall dd :: Gives(Ok(dd), ts, us) ==> ResultEdges(dd, ts, us)
    ensures EdgesKept(ts) && EdgesKept(us)
  {
    var a := SomeList(ts);
    var b := SomeList(us);
    forall ds | ListIs(ts, ds)
      ensures ListEdges(ds) == KidEdges(None, [], ts)
    {
      GivenLists(Declaration(ds, b), ts, us);
      assert ResultEdges(Declaration(ds, b), ts, us);
    }
    forall ds | ListIs(us, ds)
      ensures ListEdges(ds) == KidEdges(None, [], us)
    {
      GivenLists(Declaration(a, ds), ts, us);
      assert ResultEdges(Declaration(a, ds), ts, us);
    }
  }

  lemma GivenLists(dd: Declaration, ts: seq<Tree>, us: seq<Tree>)
    requires ListsAre(dd, ts, us) && ValidNames(Declaration(Flat(ts), Flat(us)))
    ensures Gives(Ok(dd), ts, us)
  {
    AcceptedAlike(dd, ts, us);
  }

  // Both hold if no declared name equals a generated one in the same tree.
  lemma ResolvedEdges(r: Result<Declaration>, ts: seq<Tree>, us: seq<Tree>)
    requires Gives(r, ts, us) && r.Ok?
    requires forall t :: t in ts + us ==> t.dep.parent == "" && DeclaredIn(t) !! GeneratedIn(t)
    ensures ResultEdges(r.value, ts, us)
  {
    forall t | t in ts + us
      ensures OrderFree(t) && NamesKept([], t)
    {
      DisjointIsClean(t, []);
    }
    ResolvedEdgesIff(ts, us);
  }

  // Repositories of the result.

  function RepoBag(ds: seq<Dep>): multiset<string> {
    if ds == [] then multiset{}
    else RepoBag(ds[..|ds| - 1]) + if ds[|ds| - 1].repo != "" then multiset{ds[|ds| - 1].repo} else multiset{}
  }

  lemma {:induction false} ReposJoin(a: seq<Dep>, b: seq<Dep>)
    ensures RepoBag(a + b) == RepoBag(a) + RepoBag(b)
  {
    if b == [] {
      assert a + b == a;
    } else {
      assert (a + b)[..|a + b| - 1] == a + b[..|b| - 1];
      ReposJoin(a, b[..|b| - 1]);
    }
  }

  lemma RepoStep(repo: Option<string>, siblings: seq<string>, parent: string, ts: seq<Tree>)
    requires ts != []
    ensures RepoBag(Records(repo, siblings, parent, ts))
            == RepoBag(Records(repo, siblings, parent, ts[..|ts| - 1]))
               + if ts[|ts| - 1].dep.repo != "" then multiset{ts[|ts| - 1].dep.repo} else multiset{}
  {
    LastRecord(repo, siblings, parent, ts);
    var rs, before := Records(repo, siblings, parent, ts), Records(repo, siblings, parent, ts[..|ts| - 1]);
    assert rs[..|rs| - 1] == before;
  }

  lemma RepoTransStep(ts: seq<Tree>)
    requires ts != []
    ensures var t := ts[|ts| - 1];
            RepoBag(TransAll(ts)) == RepoBag(TransAll(ts[..|ts| - 1]))
              + (RepoBag(KidRecords(t)) + RepoBag(TransAll(t.kids)))
  {
    var t := ts[|ts| - 1];
    LevelIsKidRecords(t);
    ReposJoin(TransAll(ts[..|ts| - 1]), Trans(t));
    ReposJoin(TransAll(t.kids), Level(t));
  }

  lemma ReposOfLast(ts: seq<Tree>)
    requires ts != []
    ensures var t := ts[|ts| - 1];
            multiset(ReposAll(ts)) == multiset(ReposAll(ts[..|ts| - 1]))
                                      + ((if t.dep.repo != "" then multiset{t.dep.repo} else multiset{})
                                        + multiset(ReposAll(t.kids)))
  {
  }

  lemma {:induction false} LevelRepos(repo: Option<string>, siblings: seq<string>, parent: string, ts: seq<Tree>)
    ensures RepoBag(Records(repo, siblings, parent, ts)) + RepoBag(TransAll(ts)) == multiset(ReposAll(ts))
    decreases ts
  {
    if ts != [] {
      var before, t := ts[..|ts| - 1], ts[|ts| - 1];
      LevelRepos(repo, siblings, parent, before);
      LevelRepos(Some(t.dep.repo), Names(t.kids), t.dep.name, t.kids);
      RepoStep(repo, siblings, parent, ts);
      RepoTransStep(ts);
      ReposOfLast(ts);
    }
  }

  lemma FlatRepos(ts: seq<Tree>)
    requires forall t :: t in ts ==> t.dep.parent == ""
    ensures RepoBag(Flat(ts)) == multiset(ReposAll(ts))
  {
    assert Tops(ts) == Records(None, [], "", ts);
    LevelRepos(None, [], "", ts);
    ReposJoin(Tops(ts), TransAll(ts));
  }

  lemma {:induction false} SameRepos(names: set<string>, a: seq<Dep>, b: seq<Dep>)
    requires SameRecords(names, a, b)
    ensures RepoBag(a) == RepoBag(b)
  {
    if a != [] {
      SameFront(names, a, b);
      SameRepos(names, a[..|a| - 1], b[..|b| - 1]);
      assert SameRecord(names, a[|a| - 1], b[|b| - 1]);
    }
  }

  // Whatever the order of renaming, the list has each repository, and each dependency reached, once.
  lemma ListRepos(ts: seq<Tree>, ds: seq<Dep>)
    requires ListIs(ts, ds) && forall t :: t in ts ==> t.dep.parent == ""
    ensures RepoBag(ds) == multiset(ReposAll(ts)) && |ds| == SizeAll(ts)
  {
    ListSame(ts, ds, GeneratedInAll(ts));
    SameRepos(GeneratedInAll(ts), ds, Flat(ts));
    FlatRepos(ts);
    FlatCount(ts);
  }

  // Success means that the triggering repository and all repository dependencies are distinct,
  // whatever the reference graph looks like: a cycle is an error.
  lemma ReposDistinct(w: World, repo: string)
    requires Forests(w, repo).Ok?
    ensures var (ts, us) := Forests(w, repo).value;
            NoDuplicates([repo] + ReposAll(ts) + ReposAll(us))
  {
    var config := w.configs[repo];
    var (ts, s) := ExpandAll(w, {repo}, config.direct, repo).value;
    var (us, s') := ExpandAll(w, s, config.environment, repo).value;
    ExpandAllRepos(w, {repo}, config.direct, repo);
    ExpandAllRepos(w, s, config.environment, repo);
    NewReposJoin({repo}, ReposAll(ts), s, ReposAll(us), s');
    assert NewRepos({}, [repo], {repo});
    NewReposJoin({}, [repo], {repo}, ReposAll(ts) + ReposAll(us), s');
    assert [repo] + (ReposAll(ts) + ReposAll(us)) == [repo] + ReposAll(ts) + ReposAll(us);
  }

  // Every tree that the expansion makes is of records with a name and without a parent.

  ghost predicate Proper(t: Tree) {
    t.dep.name != "" && t.dep.parent == "" && ProperAll(t.kids)
  }

  ghost predicate ProperAll(ts: seq<Tree>) {
    forall t :: t in ts ==> Proper(t)
  }

  lemma {:induction false} ExpandProper(w: World, seen: set<string>, d: Dep, home: string)
    requires Expand(w, seen, d, home).Ok?
    ensures Proper(Expand(w, seen, d, home).value.0)
    decreases w.configs.Keys - seen, 0
  {
    if d.repo != "" {
      ExpandAllProper(w, seen + {d.repo}, w.configs[d.repo].direct, d.repo);
    }
  }

  lemma {:induction false} ExpandAllProper(w: World, seen: set<string>, ds: seq<Dep>, home: string)
    requires ExpandAll(w, seen, ds, home).Ok?
    ensures ProperAll(ExpandAll(w, seen, ds, home).value.0)
    decreases w.configs.Keys - seen, |ds| + 1
  {
    if ds != [] {
      var (ts, s) := ExpandAll(w, seen, ds[..|ds| - 1], home).value;
      ExpandAllProper(w, seen, ds[..|ds| - 1], home);
      assert w.configs.Keys - s <= w.configs.Keys - seen;
      ExpandProper(w, s, ds[|ds| - 1], home);
    }
  }

  lemma ForestsProper(w: World, repo: string)
    requires Forests(w, repo).Ok?
    ensures ProperAll(Forests(w, repo).value.0) && ProperAll(Forests(w, repo).value.1)
  {
    var config := w.configs[repo];
    ExpandAllProper(w, {repo}, config.direct, repo);
    ExpandAllProper(w, ExpandAll(w, {repo}, config.direct, repo).value.1, config.environment, repo);
  }

  // A dependency appears in the list once for each time it is reached.
  lemma FlatCount(ts: seq<Tree>)
    ensures |Flat(ts)| == SizeAll(ts)
  {
    TransAllCounts(ts);
  }

  // Who requires whom.

  ghost predicate IsRequired(x: string, ds: seq<Dep>) {
    exists i, j :: 0 <= i < |ds| && 0 <= j < |ds[i].needs| && ds[i].needs[j] == x
  }

  lemma RequiredAt(ds: seq<Dep>, i: nat, j: nat)
    ensures i < |ds| && j < |ds[i].needs| ==> IsRequired(ds[i].needs[j], ds)
  {
  }

  // Requirements in a list are requirements in a longer one.
  lemma RequiredIn(x: string, a: seq<Dep>, b: seq<Dep>)
    requires IsRequired(x, a) && forall d :: d in a ==> d in b
    ensures IsRequired(x, b)
  {
    var i, j :| 0 <= i < |a| && 0 <= j < |a[i].needs| && a[i].needs[j] == x;
    assert a[i] in b;
    var k :| 0 <= k < |b| && b[k] == a[i];
    RequiredAt(b, k, j);
  }
}
