/**
  Resolving the dependencies of a repository. The requirements of the
  dependencies that a repository brings are renamed one old name at a time, in
  whatever order the map of renamings is iterated.
  */
module Dependencies {
  import opened Wrappers
  import opened DependencyTree

  // Renaming one requirement.

  // What the renamings of `order`, one after the other, make of r.
  function Chase(repo: string, r: string, order: seq<string>): string {
    if order == [] then r
    else
      var q, was := Chase(repo, r, order[..|order| - 1]), order[|order| - 1];
      if q == was then Prefixed(repo, was) else q
  }

  lemma {:induction false} ChaseStays(repo: string, r: string, order: seq<string>)
    requires r !in order
    ensures Chase(repo, r, order) == r
  {
    if order != [] {
      ChaseStays(repo, r, order[..|order| - 1]);
    }
  }

  lemma {:induction false} ChaseOnce(repo: string, r: string, order: seq<string>)
    requires NoDuplicates(order) && r in order && Prefixed(repo, r) !in order
    ensures Chase(repo, r, order) == Prefixed(repo, r)
  {
    var before := order[..|order| - 1];
    if order[|order| - 1] == r {
      ChaseStays(repo, r, before);
    } else {
      ChaseOnce(repo, r, before);
    }
  }

  lemma {:induction false} ChaseGrows(repo: string, r: string, order: seq<string>)
    ensures |Chase(repo, r, order)| >= |r|
  {
    if order != [] {
      ChaseGrows(repo, r, order[..|order| - 1]);
      PrefixedGrows(repo, order[|order| - 1], r);
    }
  }

  lemma {:induction false} ChaseOn(repo: string, r: string, a: seq<string>, b: seq<string>)
    ensures Chase(repo, r, a + b) == Chase(repo, Chase(repo, r, a), b)
  {
    if b == [] {
      assert a + b == a;
    } else {
      assert (a + b)[..|a + b| - 1] == a + b[..|b| - 1];
      ChaseOn(repo, r, a, b[..|b| - 1]);
    }
  }

  lemma ChaseOne(repo: string, r: string)
    ensures Chase(repo, r, [r]) == Prefixed(repo, r)
  {
    assert [r][..0] == [];
  }

  lemma ChaseTwice(repo: string, r: string, names: set<string>) returns (order: seq<string>)
    requires r in names && Prefixed(repo, r) in names
    ensures Lists(order, names) && |Chase(repo, r, order)| > |Prefixed(repo, r)|
  {
    var p := Prefixed(repo, r);
    PrefixedGrows(repo, r, r);
    PrefixedGrows(repo, p, p);
    var rest := SomeListing(names - {r, p});
    order := [r, p] + rest;
    ChaseOne(repo, r);
    ChaseOne(repo, p);
    assert [r, p] == [r] + [p];
    ChaseOn(repo, r, [r], [p]);
    ChaseOn(repo, r, [r, p], rest);
    ChaseGrows(repo, Prefixed(repo, p), rest);
  }

  ghost predicate OrderIrrelevant(repo: string, names: set<string>, r: string) {
    forall order :: Lists(order, names) ==> Chase(repo, r, order) == if r in names then Prefixed(repo, r) else r
  }

  // Every iteration order gives a requirement its one new name exactly if that name is not
  // renamed in turn.
  lemma RenameOrderIff(repo: string, names: set<string>, r: string)
    ensures OrderIrrelevant(repo, names, r) <==> !(r in names && Prefixed(repo, r) in names)
  {
    if r in names && Prefixed(repo, r) in names {
      var order := ChaseTwice(repo, r, names);
    } else {
      forall order | Lists(order, names)
        ensures Chase(repo, r, order) == if r in names then Prefixed(repo, r) else r
      {
        if r in names {
          ChaseOnce(repo, r, order);
        } else {
          ChaseStays(repo, r, order);
        }
      }
    }
  }

  // Renaming a level of the tree.

  // The records of t's dependencies with their new names, before their requirements are renamed.
  function Raw(t: Tree): (ds: seq<Dep>)
    ensures |ds| == |t.kids|
  {
    seq(|t.kids|, i requires 0 <= i < |t.kids| =>
      t.kids[i].dep.(
      name := Prefixed(t.dep.repo, t.kids[i].dep.name),
      needs := Needs(t.kids[i]),
      parent := t.dep.name))
  }

  ghost predicate ChasedAt(repo: string, order: seq<string>, a: Dep, b: Dep) {
    && b == a.(needs := b.needs)
    && |b.needs| == |a.needs|
    && forall j :: 0 <= j < |a.needs| ==> b.needs[j] == Chase(repo, a.needs[j], order)
  }

  ghost predicate Chased(repo: string, order: seq<string>, a: seq<Dep>, b: seq<Dep>) {
    |a| == |b| && forall i :: 0 <= i < |a| ==> ChasedAt(repo, order, a[i], b[i])
  }

  // No requirement of t's dependencies that is renamed at all can be renamed twice.
  ghost predicate RenamedOnce(t: Tree, r: string) {
    r in Names(t.kids) ==> Prefixed(t.dep.repo, r) !in Names(t.kids)
  }

  ghost predicate OrderFreeLevel(t: Tree) {
    forall i, r :: 0 <= i < |t.kids| && r in Needs(t.kids[i]) ==> RenamedOnce(t, r)
  }

  ghost predicate OrderFree(t: Tree) {
    OrderFreeLevel(t) && OrderFreeAll(t.kids)
  }

  ghost predicate OrderFreeAll(ts: seq<Tree>) {
    forall t :: t in ts ==> OrderFree(t)
  }

  // No name generated for what a dependency brings is a declared name beside that dependency.

  ghost predicate NamesKept(siblings: seq<string>, t: Tree)
    decreases t
  {
    (forall g :: g in Generated(t) ==> g !in siblings) && NamesKeptAll(Names(t.kids), t.kids)
  }

  ghost predicate NamesKeptAll(siblings: seq<string>, ts: seq<Tree>)
    decreases ts
  {
    forall t :: t in ts ==> NamesKept(siblings, t)
  }

  // All names declared in a tree, and all names generated below its root.

  function DeclaredIn(t: Tree): set<string>
    decreases t
  {
    {t.dep.name} + DeclaredInAll(t.kids)
  }

  function DeclaredInAll(ts: seq<Tree>): set<string>
    decreases ts
  {
    if ts == [] then {} else DeclaredInAll(ts[..|ts| - 1]) + DeclaredIn(ts[|ts| - 1])
  }

  function GeneratedIn(t: Tree): set<string>
    decreases t
  {
    (set g | g in Generated(t)) + GeneratedInAll(t.kids)
  }

  function GeneratedInAll(ts: seq<Tree>): set<string>
    decreases ts
  {
    if ts == [] then {} else GeneratedInAll(ts[..|ts| - 1]) + GeneratedIn(ts[|ts| - 1])
  }

  lemma {:induction false} DeclaredMember(ts: seq<Tree>, i: nat)
    ensures i < |ts| ==> DeclaredIn(ts[i]) <= DeclaredInAll(ts) && GeneratedIn(ts[i]) <= GeneratedInAll(ts)
  {
    if i < |ts| - 1 {
      DeclaredMember(ts[..|ts| - 1], i);
    }
  }

  lemma SiblingsDeclared(t: Tree)
    ensures forall n :: n in Names(t.kids) ==> n in DeclaredIn(t) && Prefixed(t.dep.repo, n) in GeneratedIn(t)
  {
    forall n | n in Names(t.kids)
      ensures n in DeclaredIn(t) && Prefixed(t.dep.repo, n) in GeneratedIn(t)
    {
      var j :| 0 <= j < |t.kids| && Names(t.kids)[j] == n;
      DeclaredMember(t.kids, j);
      assert Generated(t)[j] == Prefixed(t.dep.repo, n);
    }
  }

  // No name clashes if no declared name equals a generated one.
  lemma {:induction false} DisjointIsClean(t: Tree, siblings: seq<string>)
    requires DeclaredIn(t) !! GeneratedIn(t)
    requires forall n :: n in siblings ==> n !in GeneratedIn(t)
    ensures OrderFree(t) && NamesKept(siblings, t)
    decreases t
  {
    SiblingsDeclared(t);
    forall i | 0 <= i < |t.kids|
      ensures OrderFree(t.kids[i]) && NamesKept(Names(t.kids), t.kids[i])
    {
      DeclaredMember(t.kids, i);
      DisjointIsClean(t.kids[i], Names(t.kids));
    }
    assert forall g :: g in Generated(t) ==> g in GeneratedIn(t);
  }

  // `level` is what renaming in some order makes of the records of t's dependencies.
  ghost predicate LevelIs(t: Tree, level: seq<Dep>) {
    exists order :: Lists(order, NameSetOf(t.kids)) && Chased(t.dep.repo, order, Raw(t), level)
  }

  lemma ChasedIsPlaced(t: Tree, i: nat, order: seq<string>, b: Dep)
    requires i < |t.kids| && OrderFreeLevel(t) && Lists(order, NameSetOf(t.kids))
    requires ChasedAt(t.dep.repo, order, Raw(t)[i], b)
    ensures b == Placed(t, i)
  {
    var needs := Raw(t)[i].needs;
    forall j | 0 <= j < |needs|
      ensures b.needs[j] == Placed(t, i).needs[j]
    {
      assert RenamedOnce(t, needs[j]);
      RenameOrderIff(t.dep.repo, NameSetOf(t.kids), needs[j]);
    }
  }

  lemma PlacedIsChased(t: Tree, i: nat, order: seq<string>)
    requires i < |t.kids| && OrderFreeLevel(t) && Lists(order, NameSetOf(t.kids))
    ensures ChasedAt(t.dep.repo, order, Raw(t)[i], Placed(t, i))
  {
    var needs := Raw(t)[i].needs;
    forall j | 0 <= j < |needs|
      ensures Placed(t, i).needs[j] == Chase(t.dep.repo, needs[j], order)
    {
      assert RenamedOnce(t, needs[j]);
      RenameOrderIff(t.dep.repo, NameSetOf(t.kids), needs[j]);
    }
  }

  lemma LevelIsOne(t: Tree, level: seq<Dep>)
    requires OrderFreeLevel(t)
    ensures LevelIs(t, level) <==> level == Level(t)
  {
    if LevelIs(t, level) {
      var order :| Lists(order, NameSetOf(t.kids)) && Chased(t.dep.repo, order, Raw(t), level);
      forall i | 0 <= i < |level|
        ensures level[i] == Level(t)[i]
      {
        assert ChasedAt(t.dep.repo, order, Raw(t)[i], level[i]);
        ChasedIsPlaced(t, i, order, level[i]);
      }
    }
    var order := SomeListing(NameSetOf(t.kids));
    forall i | 0 <= i < |t.kids|
      ensures ChasedAt(t.dep.repo, order, Raw(t)[i], Level(t)[i])
    {
      PlacedIsChased(t, i, order);
    }
    assert Chased(t.dep.repo, order, Raw(t), Level(t));
  }

  // The level after renaming in one order.
  function ChasedBy(repo: string, order: seq<string>, ds: seq<Dep>): seq<Dep> {
    seq(|ds|, i requires 0 <= i < |ds| =>
      ds[i].(needs := seq(|ds[i].needs|, j requires 0 <= j < |ds[i].needs| => Chase(repo, ds[i].needs[j], order))))
  }

  lemma ChasedByIs(repo: string, order: seq<string>, ds: seq<Dep>)
    ensures Chased(repo, order, ds, ChasedBy(repo, order, ds))
  {
    forall i | 0 <= i < |ds|
      ensures ChasedAt(repo, order, ds[i], ChasedBy(repo, order, ds)[i])
    {
    }
  }

  // All iteration orders give a level the same records, the ones renamed simultaneously, exactly
  // if no requirement can be renamed twice.
  lemma LevelOrderIff(t: Tree)
    ensures (forall level :: LevelIs(t, level) ==> level == Level(t)) <==> OrderFreeLevel(t)
  {
    if OrderFreeLevel(t) {
      forall level | LevelIs(t, level)
        ensures level == Level(t)
      {
        LevelIsOne(t, level);
      }
    } else {
      var i, r :| 0 <= i < |t.kids| && r in Needs(t.kids[i]) && !RenamedOnce(t, r);
      var j :| 0 <= j < |Needs(t.kids[i])| && Needs(t.kids[i])[j] == r;
      var order := ChaseTwice(t.dep.repo, r, NameSetOf(t.kids));
      var level := ChasedBy(t.dep.repo, order, Raw(t));
      ChasedByIs(t.dep.repo, order, Raw(t));
      assert LevelIs(t, level);
      assert level[i].needs[j] == Chase(t.dep.repo, r, order);
      assert Level(t)[i].needs[j] == Prefixed(t.dep.repo, r);
    }
  }

  // All that may be recorded for a tree, and for some trees side by side: each level in some order.

  ghost predicate TransIs(t: Tree, ds: seq<Dep>)
    decreases t, 1
  {
    |ds| == Size(t) - 1
    && TransAllIs(t.kids, ds[..|ds| - |t.kids|]) && LevelIs(t, ds[|ds| - |t.kids|..])
  }

  ghost predicate TransAllIs(ts: seq<Tree>, ds: seq<Dep>)
    decreases ts, 0
  {
    |ds| == Extra(ts)
    && (ts != [] ==>
          var n := Extra(ts[..|ts| - 1]);
          TransAllIs(ts[..|ts| - 1], ds[..n]) && TransIs(ts[|ts| - 1], ds[n..]))
  }

  // The lists that resolving may give for the declarations that expand to ts.
  ghost predicate ListIs(ts: seq<Tree>, ds: seq<Dep>) {
    |ts| <= |ds| && ds[..|ts|] == Tops(ts) && TransAllIs(ts, ds[|ts|..])
  }

  lemma {:induction false} TransAllIsOne(ts: seq<Tree>, ds: seq<Dep>)
    requires OrderFreeAll(ts)
    ensures TransAllIs(ts, ds) <==> ds == TransAll(ts)
    decreases ts, 0
  {
    TransAllCounts(ts);
    if ts != [] {
      var before, t := ts[..|ts| - 1], ts[|ts| - 1];
      TransAllCounts(before);
      TransCounts(t);
      if |ds| == Extra(ts) {
        var n := Extra(before);
        TransAllIsOne(before, ds[..n]);
        TransIsOne(t, ds[n..]);
        assert ds == ds[..n] + ds[n..];
        assert TransAll(ts)[..n] == TransAll(before) && TransAll(ts)[n..] == Trans(t);
      }
    }
  }

  lemma {:induction false} TransIsOne(t: Tree, ds: seq<Dep>)
    requires OrderFree(t)
    ensures TransIs(t, ds) <==> ds == Trans(t)
    decreases t, 1
  {
    TransCounts(t);
    if |ds| == Size(t) - 1 {
      var n := |ds| - |t.kids|;
      TransAllIsOne(t.kids, ds[..n]);
      LevelIsOne(t, ds[n..]);
      assert ds == ds[..n] + ds[n..];
      assert Trans(t)[..n] == TransAll(t.kids) && Trans(t)[n..] == Level(t);
    }
  }

  // Where no requirement can be renamed twice, there is one list.
  lemma ListIsFlat(ts: seq<Tree>, ds: seq<Dep>)
    requires OrderFreeAll(ts)
    ensures ListIs(ts, ds) <==> ds == Flat(ts)
  {
    if |ts| <= |ds| {
      TransAllIsOne(ts, ds[|ts|..]);
      assert ds == ds[..|ts|] + ds[|ts|..];
      assert Flat(ts)[..|ts|] == Tops(ts) && Flat(ts)[|ts|..] == TransAll(ts);
    }
  }

  // Some list there always is, and another one if some requirement can be renamed twice.

  lemma SomeLevel(t: Tree) returns (level: seq<Dep>)
    ensures LevelIs(t, level)
    ensures !OrderFreeLevel(t) ==> level != Level(t)
  {
    if OrderFreeLevel(t) {
      level := Level(t);
      LevelIsOne(t, level);
    } else {
      LevelOrderIff(t);
      level :| LevelIs(t, level) && level != Level(t);
    }
  }

  lemma {:induction false} SomeTransAll(ts: seq<Tree>) returns (ds: seq<Dep>)
    ensures TransAllIs(ts, ds)
    ensures !OrderFreeAll(ts) ==> ds != TransAll(ts)
    decreases ts, 0
  {
    if ts == [] {
      ds := [];
    } else {
      var before, t := ts[..|ts| - 1], ts[|ts| - 1];
      var a := SomeTransAll(before);
      var b := SomeTrans(t);
      ds := a + b;
      TransAllCounts(before);
      assert ds[..|a|] == a && ds[|a|..] == b;
      assert TransAll(ts)[..|a|] == TransAll(before) && TransAll(ts)[|a|..] == Trans(t);
      assert forall x :: x in ts ==> x in before || x == t;
    }
  }

  lemma {:induction false} SomeTrans(t: Tree) returns (ds: seq<Dep>)
    ensures TransIs(t, ds)
    ensures !OrderFree(t) ==> ds != Trans(t)
    decreases t, 1
  {
    var a := SomeTransAll(t.kids);
    var b := SomeLevel(t);
    ds := a + b;
    TransAllCounts(t.kids);
    assert |b| == |t.kids|;
    assert ds[..|a|] == a && ds[|a|..] == b;
    assert Trans(t)[..|a|] == TransAll(t.kids) && Trans(t)[|a|..] == Level(t);
  }

  lemma SomeList(ts: seq<Tree>) returns (ds: seq<Dep>)
    ensures ListIs(ts, ds)
    ensures !OrderFreeAll(ts) ==> ds != Flat(ts)
  {
    var a := SomeTransAll(ts);
    ds := Tops(ts) + a;
    assert ds[..|ts|] == Tops(ts) && ds[|ts|..] == a && Flat(ts)[|ts|..] == TransAll(ts);
  }

  // The resolved list does not depend on the iteration orders exactly if no requirement can be
  // renamed twice.
  lemma ListOrderIff(ts: seq<Tree>)
    ensures (forall ds :: ListIs(ts, ds) ==> ds == Flat(ts)) <==> OrderFreeAll(ts)
  {
    if OrderFreeAll(ts) {
      forall ds | ListIs(ts, ds)
        ensures ds == Flat(ts)
      {
        ListIsFlat(ts, ds);
      }
    } else {
      var ds := SomeList(ts);
    }
  }

  // Whatever the order, the records agree in everything but requirements. A requirement that is
  // renamed further than once becomes longer with each time, and names another dependency.

  lemma {:induction false} ChaseLands(repo: string, r: string, order: seq<string>) returns (x: string)
    requires NoDuplicates(order) && r in order
    ensures x in order && Chase(repo, r, order) == Prefixed(repo, x)
    ensures x == r || |Prefixed(repo, x)| > |Prefixed(repo, r)|
  {
    var before, last := order[..|order| - 1], order[|order| - 1];
    if r == last {
      ChaseStays(repo, r, before);
      x := r;
    } else {
      x := ChaseLands(repo, r, before);
      if Prefixed(repo, x) == last {
        PrefixedGrows(repo, last, last);
        x := last;
      }
    }
  }

  ghost predicate NeedFurther(names: set<string>, x: string, y: string) {
    x == y || (|x| > |y| && x in names && y in names)
  }

  ghost predicate SameRecord(names: set<string>, a: Dep, b: Dep) {
    && a == b.(needs := a.needs) && |a.needs| == |b.needs|
    && forall j :: 0 <= j < |a.needs| ==> NeedFurther(names, a.needs[j], b.needs[j])
  }

  ghost predicate SameRecords(names: set<string>, a: seq<Dep>, b: seq<Dep>) {
    |a| == |b| && forall i :: 0 <= i < |a| ==> SameRecord(names, a[i], b[i])
  }

  lemma SameJoin(names: set<string>, a: seq<Dep>, b: seq<Dep>, c: seq<Dep>, d: seq<Dep>)
    requires SameRecords(names, a, b) && SameRecords(names, c, d)
    ensures SameRecords(names, a + c, b + d)
  {
    forall i | 0 <= i < |a + c|
      ensures SameRecord(names, (a + c)[i], (b + d)[i])
    {
      assert if i < |a| then SameRecord(names, a[i], b[i]) else SameRecord(names, c[i - |a|], d[i - |a|]);
    }
  }

  lemma {:induction false} TransAllSame(ts: seq<Tree>, ds: seq<Dep>, names: set<string>)
    requires TransAllIs(ts, ds) && GeneratedInAll(ts) <= names
    ensures SameRecords(names, ds, TransAll(ts))
    decreases ts
  {
    if ts != [] {
      var t, n := ts[|ts| - 1], Extra(ts[..|ts| - 1]);
      var last := ds[n..];
      var m := |last| - |t.kids|;
      TransAllSame(ts[..|ts| - 1], ds[..n], names);
      TransAllSame(t.kids, last[..m], names);
      LevelSame(t, last[m..], names);
      SameJoin(names, last[..m], TransAll(t.kids), last[m..], Level(t));
      assert last == last[..m] + last[m..] && ds == ds[..n] + last;
      SameJoin(names, ds[..n], TransAll(ts[..|ts| - 1]), last, Trans(t));
    }
  }

  lemma NeedSame(t: Tree, order: seq<string>, r: string, names: set<string>)
    requires Lists(order, NameSetOf(t.kids)) && GeneratedIn(t) <= names
    ensures NeedFurther(names, Chase(t.dep.repo, r, order), Subst(t.dep.repo, Names(t.kids), r))
  {
    if r in order {
      var x := ChaseLands(t.dep.repo, r, order);
      SiblingsDeclared(t);
    } else {
      ChaseStays(t.dep.repo, r, order);
    }
  }

  lemma LevelSame(t: Tree, level: seq<Dep>, names: set<string>)
    requires LevelIs(t, level) && GeneratedIn(t) <= names
    ensures SameRecords(names, level, Level(t))
  {
    var order :| Lists(order, NameSetOf(t.kids)) && Chased(t.dep.repo, order, Raw(t), level);
    forall i | 0 <= i < |level|
      ensures SameRecord(names, level[i], Level(t)[i])
    {
      assert ChasedAt(t.dep.repo, order, Raw(t)[i], level[i]);
      forall j | 0 <= j < |level[i].needs|
        ensures NeedFurther(names, level[i].needs[j], Level(t)[i].needs[j])
      {
        NeedSame(t, order, Raw(t)[i].needs[j], names);
      }
    }
  }

  lemma ListSame(ts: seq<Tree>, ds: seq<Dep>, names: set<string>)
    requires ListIs(ts, ds) && GeneratedInAll(ts) <= names
    ensures SameRecords(names, ds, Flat(ts))
  {
    TransAllSame(ts, ds[|ts|..], names);
    assert SameRecords(names, Tops(ts), Tops(ts));
    SameJoin(names, ds[..|ts|], Tops(ts), ds[|ts|..], TransAll(ts));
    assert ds == ds[..|ts|] + ds[|ts|..];
  }

  // Resolving.

  // The parser leaves the parent empty.
  ghost predicate Parsed(ds: seq<Dep>) {
    forall i :: 0 <= i < |ds| ==> ds[i].parent == ""
  }

  ghost predicate AllParsed(w: World) {
    forall r :: r in w.configs ==> Parsed(w.configs[r].direct) && Parsed(w.configs[r].environment)
  }

  function Replaced(d: Dep, was: string, now: string): Dep {
    d.(needs := seq(|d.needs|, j requires 0 <= j < |d.needs| => if d.needs[j] == was then now else d.needs[j]))
  }

  method RenameRequires(ds: seq<Dep>, was: string, now: string) returns (out: seq<Dep>)
    ensures |out| == |ds| && forall i :: 0 <= i < |ds| ==> out[i] == Replaced(ds[i], was, now)
  {
    out := ds;
    for i := 0 to |ds|
      invariant |out| == |ds|
      invariant forall k :: 0 <= k < |ds| ==> out[k] == if k < i then Replaced(ds[k], was, now) else ds[k]
    {
      var needs := ds[i].needs;
      for j := 0 to |needs|
        invariant |needs| == |ds[i].needs|
        invariant forall k :: 0 <= k < |needs| ==>
                    needs[k] == if k < j && ds[i].needs[k] == was then now else ds[i].needs[k]
      {
        if needs[j] == was {
          needs := needs[j := now];
        }
      }
      out := out[i := out[i].(needs := needs)];
    }
  }

  lemma ChasedMore(repo: string, order: seq<string>, a: seq<Dep>, b: seq<Dep>, was: string, c: seq<Dep>)
    requires Chased(repo, order, a, b)
    requires |c| == |b| && forall i :: 0 <= i < |b| ==> c[i] == Replaced(b[i], was, Prefixed(repo, was))
    ensures Chased(repo, order + [was], a, c)
  {
    assert (order + [was])[..|order|] == order;
    forall i | 0 <= i < |a|
      ensures ChasedAt(repo, order + [was], a[i], c[i])
    {
      assert ChasedAt(repo, order, a[i], b[i]);
    }
  }

  // The renaming of one level, by a map that sends each old name to its new one.
  method RenameLevel(ghost t: Tree, raw: seq<Dep>, renames: map<string, string>) returns (deps: seq<Dep>)
    requires raw == Raw(t) && renames.Keys == NameSetOf(t.kids)
    requires forall n :: n in renames ==> renames[n] == Prefixed(t.dep.repo, n)
    ensures LevelIs(t, deps) && (OrderFreeLevel(t) ==> deps == Level(t))
  {
    deps := raw;
    var rest := renames.Keys;
    ghost var order: seq<string> := [];
    while rest != {}
      invariant rest <= renames.Keys && Lists(order, renames.Keys - rest)
      invariant Chased(t.dep.repo, order, raw, deps)
      decreases rest
    {
      var was :| was in rest;
      var renamed := RenameRequires(deps, was, renames[was]);
      ChasedMore(t.dep.repo, order, raw, deps, was, renamed);
      deps, order, rest := renamed, order + [was], rest - {was};
    }
    assert LevelIs(t, deps) by {
      assert renames.Keys - rest == NameSetOf(t.kids);
    }
    if OrderFreeLevel(t) {
      LevelIsOne(t, deps);
    }
  }

  // `now` is `before` with the records of a tree, or of some, added.

  ghost predicate Adds(t: Tree, now: seq<Dep>, before: seq<Dep>) {
    before <= now && TransIs(t, now[|before|..])
  }

  ghost predicate AddsAll(ts: seq<Tree>, now: seq<Dep>, before: seq<Dep>) {
    before <= now && TransAllIs(ts, now[|before|..])
  }

  lemma {:induction false} ErrorStays(w: World, seen: set<string>, ds: seq<Dep>, home: string, k: nat)
    requires k <= |ds| && ExpandAll(w, seen, ds[..k], home).Err?
    ensures ExpandAll(w, seen, ds, home) == ExpandAll(w, seen, ds[..k], home)
  {
    if k < |ds| {
      assert ds[..|ds| - 1][..k] == ds[..k];
      ErrorStays(w, seen, ds[..|ds| - 1], home, k);
    } else {
      assert ds[..k] == ds;
    }
  }

  // What is kept of the dependencies processed so far for the repository dependency d.
  ghost predicate LevelSoFar(d: Dep, kids: seq<Tree>, dep: Dep, deps: seq<Dep>, renames: map<string, string>) {
    && dep == d.(needs := d.needs + Generated(Node(d, kids)))
    && deps == Raw(Node(d, kids))
    && renames.Keys == NameSetOf(kids)
    && (forall n :: n in renames ==> renames[n] == Prefixed(d.repo, n))
  }

  lemma LevelStart(d: Dep)
    ensures LevelSoFar(d, [], d, [], map[])
  {
    assert d.needs + [] == d.needs;
  }

  lemma LevelMore(d: Dep, kids: seq<Tree>, dep: Dep, deps: seq<Dep>, renames: map<string, string>, kid: Tree)
    requires LevelSoFar(d, kids, dep, deps, renames)
    ensures var name := Prefixed(d.repo, kid.dep.name);
            LevelSoFar(d, kids + [kid], dep.(needs := dep.needs + [name]),
            deps + [Top(kid).(name := name, parent := d.name)], renames[kid.dep.name := name])
  {
    var name := Prefixed(d.repo, kid.dep.name);
    assert Generated(Node(d, kids + [kid])) == Generated(Node(d, kids)) + [name];
    assert Raw(Node(d, kids + [kid])) == Raw(Node(d, kids)) + [Top(kid).(name := name, parent := d.name)];
    assert Names(kids + [kid]) == Names(kids) + [kid.dep.name];
    assert NameSetOf(kids + [kid]) == NameSetOf(kids) + {kid.dep.name};
  }

  // The kids are the expansion of ds.
  ghost predicate Expanded(w: World, seen: set<string>, ds: seq<Dep>, home: string, kids: seq<Tree>,
                           after: set<string>) {
    ExpandAll(w, seen, ds, home) == Ok((kids, after)) && seen <= after
  }

  lemma ExpandedMore(w: World, seen: set<string>, ds: seq<Dep>, home: string, i: nat, kids: seq<Tree>,
                     after: set<string>, kid: Tree, later: set<string>)
    requires i < |ds| && Expanded(w, seen, ds[..i], home, kids, after)
    requires Expand(w, after, ds[i], home) == Ok((kid, later))
    ensures Expanded(w, seen, ds[..i + 1], home, kids + [kid], later)
  {
    assert ds[..i + 1][..i] == ds[..i];
  }

  lemma LeafAdds(d: Dep, now: seq<Dep>)
    ensures Adds(Node(d, []), now, now)
  {
    var t := Node(d, []);
    assert Lists([], NameSetOf(t.kids)) && Chased(d.repo, [], Raw(t), []);
    assert LevelIs(t, []);
  }

  lemma AddsMore(kids: seq<Tree>, kid: Tree, before: seq<Dep>, now: seq<Dep>, later: seq<Dep>)
    requires AddsAll(kids, now, before) && Adds(kid, later, now)
    ensures AddsAll(kids + [kid], later, before)
  {
    var n := Extra(kids);
    assert (kids + [kid])[..|kids|] == kids;
    assert later[|before|..][..n] == now[|before|..] && later[|before|..][n..] == later[|now|..];
  }

  lemma ExpandFails(w: World, seen: set<string>, ds: seq<Dep>, home: string, i: nat, kids: seq<Tree>,
                    after: set<string>)
    requires i < |ds| && ExpandAll(w, seen, ds[..i], home) == Ok((kids, after)) && Expand(w, after, ds[i], home).Err?
    ensures ExpandAll(w, seen, ds, home) == Err(Expand(w, after, ds[i], home).error)
  {
    assert ds[..i + 1][..i] == ds[..i];
    ErrorStays(w, seen, ds, home, i + 1);
  }

  lemma LevelDone(t: Tree, now: seq<Dep>, before: seq<Dep>, level: seq<Dep>)
    requires AddsAll(t.kids, now, before) && LevelIs(t, level)
    ensures Adds(t, now + level, before)
  {
    var added := (now + level)[|before|..];
    assert added[..|added| - |t.kids|] == now[|before|..] && added[|added| - |t.kids|..] == level;
  }

  class Resolver {
    var repomap: set<string>
    var transitive: seq<Dep>

    constructor (repo: string)
      ensures repomap == {repo} && transitive == []
    {
      repomap, transitive := {repo}, [];
    }

    method ProcessDep(w: World, d: Dep, home: string) returns (r: Result<Dep>)
      requires d.parent == "" && AllParsed(w)
      modifies this
      ensures match Expand(w, old(repomap), d, home)
              case Err(e) => r == Err(e)
              case Ok((t, s)) =>
                r == Ok(Top(t)) && repomap == s && Adds(t, transitive, old(transitive))
      decreases w.configs.Keys - repomap, 0
    {
      if d.repo != "" && (d.chartPath != "" || d.chartRepoPath != "") {
        return Err(TwoSources);
      }
      if d.chartPath != "" && d.chartRepoPath != "" {
        return Err(TwoCharts);
      }
      if d.repo != "" {
        if d.repo in repomap {
          return Err(DuplicateRepo);
        }
        repomap := repomap + {d.repo};
        if d.repo !in w.configs {
          return Err(NotFound);
        }
        var config := w.configs[d.repo];
        var dep := d;
        if dep.name == "" {
          dep := dep.(name := config.chart);
        }
        if dep.name == "" {
          return Err(NoChartName);
        }
        r := ProcessDirect(w, dep, config.direct);
      } else if d.chartPath != "" || d.chartRepoPath != "" {
        if d.branchOptions {
          return Err(BranchOptions);
        }
        if d.chartPath == "" && d.chartRepoPath in w.malformed {
          return Err(Malformed);
        }
        var dep := d;
        if dep.name == "" {
          dep := dep.(name := ChartOf(w, home, d));
        }
        if dep.name == "" {
          return Err(NoChartName);
        }
        assert dep.needs + [] == dep.needs;
        LeafAdds(dep, transitive);
        r := Ok(dep);
      } else {
        r := Err(NoSource);
      }
    }

    // The rest of a repository dependency: everything that its own acyl.yml declares.
    method ProcessDirect(w: World, d: Dep, direct: seq<Dep>) returns (r: Result<Dep>)
      requires d.parent == "" && AllParsed(w) && Parsed(direct)
      modifies this
      ensures match ExpandAll(w, old(repomap), direct, d.repo)
              case Err(e) => r == Err(e)
              case Ok((kids, s)) =>
                r == Ok(Top(Node(d, kids))) && repomap == s
                && Adds(Node(d, kids), transitive, old(transitive))
      decreases w.configs.Keys - repomap, |direct| + 2
    {
      ghost var before := transitive;
      var e, dep, deps, renames, kids := ProcessEach(w, d, direct);
      if e.Some? {
        return Err(e.value);
      }
      var level := RenameLevel(Node(d, kids), deps, renames);
      LevelDone(Node(d, kids), transitive, before, level);
      transitive := transitive + level;
      r := Ok(dep);
    }

    // The loop over the declared dependencies, up to the first error.
    method ProcessEach(w: World, d: Dep, direct: seq<Dep>)
      returns (e: Option<Error>, dep: Dep, deps: seq<Dep>, renames: map<string, string>, ghost kids: seq<Tree>)
      requires d.parent == "" && AllParsed(w) && Parsed(direct)
      modifies this
      ensures e.Some? ==> ExpandAll(w, old(repomap), direct, d.repo) == Err(e.value)
      ensures e.None? ==> Expanded(w, old(repomap), direct, d.repo, kids, repomap)
      ensures e.None? ==> AddsAll(kids, transitive, old(transitive)) && LevelSoFar(d, kids, dep, deps, renames)
      decreases w.configs.Keys - repomap, |direct| + 1
    {
      ghost var seen, start := repomap, transitive;
      e, dep, deps, renames, kids := None, d, [], map[], [];
      LevelStart(d);
      assert direct[..0] == [] && start[|start|..] == [];
      for i := 0 to |direct|
        invariant Expanded(w, seen, direct[..i], d.repo, kids, repomap)
        invariant AddsAll(kids, transitive, start) && LevelSoFar(d, kids, dep, deps, renames)
      {
        ghost var was, known, expanded := transitive, repomap, Expand(w, repomap, direct[i], d.repo);
        assert w.configs.Keys - repomap <= w.configs.Keys - seen;
        var x := ProcessDep(w, direct[i], d.repo);
        if x.Err? {
          ExpandFails(w, seen, direct, d.repo, i, kids, known);
          e := Some(x.error);
          return;
        }
        ghost var kid := expanded.value.0;
        LevelMore(d, kids, dep, deps, renames, kid);
        ExpandedMore(w, seen, direct, d.repo, i, kids, known, kid, repomap);
        AddsMore(kids, kid, start, was, transitive);
        var dd := x.value;
        var name := Prefixed(d.repo, dd.name);
        deps := deps + [dd.(name := name, parent := dep.name)];
        renames := renames[dd.name := name];
        dep := dep.(needs := dep.needs + [name]);
        kids := kids + [kid];
      }
      assert direct[..|direct|] == direct;
    }
  }
}
