/**
  Where a resolved dependency stands in the declared trees, what its noted
  parent names, and which dependencies end up required by nobody.
  */
module DependencyOrphans {
  import opened Wrappers
  import opened DependencyTree
  import opened Dependencies
  import opened RepoConfig
  import opened DependencyGraph
  import opened ProgressTree
  import opened RenderTree

  // A dependency of the triggering repository, or a kid that `host` brings. A host that is not at
  // the top is brought by `outer`.
  datatype Place = TopOf(tree: Tree) | Below(outer: Option<Tree>, host: Tree, kid: Tree)

  function TreeAt(p: Place): Tree {
    match p
    case TopOf(t) => t
    case Below(_, _, k) => k
  }

  // Who brings the dependency.
  function Bringer(p: Place): Option<Tree> {
    match p
    case TopOf(_) => None
    case Below(_, h, _) => Some(h)
  }

  function FinalNameAt(p: Place): string {
    match p
    case TopOf(t) => t.dep.name
    case Below(_, h, k) => Prefixed(h.dep.repo, k.dep.name)
  }

  // The record of what h brings as k, before its requirements are renamed.
  function RawOf(h: Tree, k: Tree): Dep {
    k.dep.(name := Prefixed(h.dep.repo, k.dep.name), needs := Needs(k), parent := h.dep.name)
  }

  // d may be the record of the dependency at p: renamed in some order, or in the one that f gives.

  ghost predicate Fits(p: Place, d: Dep) {
    match p
    case TopOf(t) => d == Top(t)
    case Below(_, h, k) =>
      exists order :: Lists(order, NameSetOf(h.kids)) && ChasedAt(h.dep.repo, order, RawOf(h, k), d)
  }

  ghost predicate FitsBy(f: Tree -> seq<string>, p: Place, d: Dep) {
    match p
    case TopOf(t) => d == Top(t)
    case Below(_, h, k) => ChasedAt(h.dep.repo, f(h), RawOf(h, k), d)
  }

  ghost predicate AllFit(ps: seq<Place>, ds: seq<Dep>) {
    |ps| == |ds| && forall n :: 0 <= n < |ps| ==> Fits(ps[n], ds[n])
  }

  ghost predicate AllFitBy(f: Tree -> seq<string>, ps: seq<Place>, ds: seq<Dep>) {
    |ps| == |ds| && forall n :: 0 <= n < |ps| ==> FitsBy(f, ps[n], ds[n])
  }

  // The places of the flat list.

  function PlacesBelow(outer: Option<Tree>, t: Tree): seq<Place>
    decreases t
  {
    PlacesBelowAll(Some(t), t.kids) + LevelPlaces(outer, t)
  }

  function PlacesBelowAll(outer: Option<Tree>, ts: seq<Tree>): seq<Place>
    decreases ts
  {
    if ts == [] then [] else PlacesBelowAll(outer, ts[..|ts| - 1]) + PlacesBelow(outer, ts[|ts| - 1])
  }

  function Places(ts: seq<Tree>): seq<Place> {
    TopPlaces(ts) + PlacesBelowAll(None, ts)
  }

  // The records of every list that resolving may give, place by place.

  lemma FitJoin(a: seq<Place>, b: seq<Place>, c: seq<Dep>, d: seq<Dep>)
    requires AllFit(a, c) && AllFit(b, d)
    ensures AllFit(a + b, c + d)
  {
    forall n | 0 <= n < |a + b|
      ensures Fits((a + b)[n], (c + d)[n])
    {
      assert if n < |a| then Fits(a[n], c[n]) else Fits(b[n - |a|], d[n - |a|]);
    }
  }

  function LevelPlaces(outer: Option<Tree>, t: Tree): (ps: seq<Place>)
    ensures |ps| == |t.kids|
  {
    seq(|t.kids|, i requires 0 <= i < |t.kids| => Below(outer, t, t.kids[i]))
  }

  lemma LevelFits(outer: Option<Tree>, t: Tree, level: seq<Dep>)
    requires LevelIs(t, level)
    ensures AllFit(LevelPlaces(outer, t), level)
  {
    var order :| Lists(order, NameSetOf(t.kids)) && Chased(t.dep.repo, order, Raw(t), level);
    forall i | 0 <= i < |t.kids|
      ensures Fits(LevelPlaces(outer, t)[i], level[i])
    {
      assert ChasedAt(t.dep.repo, order, Raw(t)[i], level[i]);
    }
  }

  lemma {:induction false} BelowFit(outer: Option<Tree>, ts: seq<Tree>, ds: seq<Dep>)
    requires TransAllIs(ts, ds)
    ensures AllFit(PlacesBelowAll(outer, ts), ds)
    decreases ts
  {
    if ts != [] {
      var before, t, n := ts[..|ts| - 1], ts[|ts| - 1], Extra(ts[..|ts| - 1]);
      var last := ds[n..];
      var m := |last| - |t.kids|;
      BelowFit(outer, before, ds[..n]);
      BelowFit(Some(t), t.kids, last[..m]);
      LevelFits(outer, t, last[m..]);
      FitJoin(PlacesBelowAll(Some(t), t.kids), LevelPlaces(outer, t), last[..m], last[m..]);
      assert last == last[..m] + last[m..] && ds == ds[..n] + last;
      FitJoin(PlacesBelowAll(outer, before), PlacesBelow(outer, t), ds[..n], last);
    }
  }

  function TopPlaces(ts: seq<Tree>): (ps: seq<Place>)
    ensures |ps| == |ts|
  {
    seq(|ts|, i requires 0 <= i < |ts| => TopOf(ts[i]))
  }

  lemma ListFits(ts: seq<Tree>, ds: seq<Dep>)
    requires ListIs(ts, ds)
    ensures AllFit(Places(ts), ds)
  {
    BelowFit(None, ts, ds[|ts|..]);
    forall i | 0 <= i < |ts|
      ensures Fits(TopPlaces(ts)[i], Tops(ts)[i])
    {
    }
    FitJoin(TopPlaces(ts), PlacesBelowAll(None, ts), Tops(ts), ds[|ts|..]);
    assert ds == ds[..|ts|] + ds[|ts|..];
  }

  // The list that comes of renaming every level in the order that f gives.

  function TransBy(f: Tree -> seq<string>, t: Tree): seq<Dep>
    decreases t
  {
    TransAllBy(f, t.kids) + ChasedBy(t.dep.repo, f(t), Raw(t))
  }

  function TransAllBy(f: Tree -> seq<string>, ts: seq<Tree>): seq<Dep>
    decreases ts
  {
    if ts == [] then [] else TransAllBy(f, ts[..|ts| - 1]) + TransBy(f, ts[|ts| - 1])
  }

  ghost predicate Orders(f: Tree -> seq<string>) {
    forall t :: Lists(f(t), NameSetOf(t.kids))
  }

  lemma {:induction false} TransAllByIs(f: Tree -> seq<string>, ts: seq<Tree>)
    requires Orders(f)
    ensures TransAllIs(ts, TransAllBy(f, ts))
    decreases ts, 0
  {
    if ts != [] {
      var a, b := TransAllBy(f, ts[..|ts| - 1]), TransBy(f, ts[|ts| - 1]);
      TransAllByIs(f, ts[..|ts| - 1]);
      TransByIs(f, ts[|ts| - 1]);
      assert (a + b)[..|a|] == a && (a + b)[|a|..] == b;
    }
  }

  lemma {:induction false} TransByIs(f: Tree -> seq<string>, t: Tree)
    requires Orders(f)
    ensures TransIs(t, TransBy(f, t))
    decreases t, 1
  {
    var a, b := TransAllBy(f, t.kids), ChasedBy(t.dep.repo, f(t), Raw(t));
    TransAllByIs(f, t.kids);
    ChasedByIs(t.dep.repo, f(t), Raw(t));
    assert LevelIs(t, b);
    assert (a + b)[..|a|] == a && (a + b)[|a|..] == b;
  }

  lemma FitByJoin(f: Tree -> seq<string>, a: seq<Place>, b: seq<Place>, c: seq<Dep>, d: seq<Dep>)
    requires AllFitBy(f, a, c) && AllFitBy(f, b, d)
    ensures AllFitBy(f, a + b, c + d)
  {
    forall n | 0 <= n < |a + b|
      ensures FitsBy(f, (a + b)[n], (c + d)[n])
    {
      assert if n < |a| then FitsBy(f, a[n], c[n]) else FitsBy(f, b[n - |a|], d[n - |a|]);
    }
  }

  lemma {:induction false} BelowFitBy(f: Tree -> seq<string>, outer: Option<Tree>, ts: seq<Tree>)
    ensures AllFitBy(f, PlacesBelowAll(outer, ts), TransAllBy(f, ts))
    decreases ts
  {
    if ts != [] {
      var before, t := ts[..|ts| - 1], ts[|ts| - 1];
      var level := ChasedBy(t.dep.repo, f(t), Raw(t));
      BelowFitBy(f, outer, before);
      BelowFitBy(f, Some(t), t.kids);
      ChasedByIs(t.dep.repo, f(t), Raw(t));
      forall i | 0 <= i < |t.kids|
        ensures FitsBy(f, LevelPlaces(outer, t)[i], level[i])
      {
        assert ChasedAt(t.dep.repo, f(t), Raw(t)[i], level[i]);
      }
      FitByJoin(f, PlacesBelowAll(Some(t), t.kids), LevelPlaces(outer, t), TransAllBy(f, t.kids), level);
      FitByJoin(f, PlacesBelowAll(outer, before), PlacesBelow(outer, t), TransAllBy(f, before), TransBy(f, t));
    }
  }

  lemma ListBy(f: Tree -> seq<string>, ts: seq<Tree>) returns (ds: seq<Dep>)
    requires Orders(f)
    ensures ListIs(ts, ds) && AllFitBy(f, Places(ts), ds)
  {
    ds := Tops(ts) + TransAllBy(f, ts);
    TransAllByIs(f, ts);
    assert ds[..|ts|] == Tops(ts) && ds[|ts|..] == TransAllBy(f, ts);
    BelowFitBy(f, None, ts);
    forall i | 0 <= i < |ts|
      ensures FitsBy(f, TopPlaces(ts)[i], Tops(ts)[i])
    {
    }
    FitByJoin(f, TopPlaces(ts), PlacesBelowAll(None, ts), Tops(ts), TransAllBy(f, ts));
  }

  // With a place, the places of what stands there brings, of its siblings, and of its host.

  ghost predicate HasKids(ps: seq<Place>, p: Place) {
    forall c :: c in TreeAt(p).kids ==> Below(Bringer(p), TreeAt(p), c) in ps
  }

  ghost predicate HasSiblings(ps: seq<Place>, p: Place) {
    p.Below? ==> p.kid in p.host.kids && forall s :: s in p.host.kids ==> p.(kid := s) in ps
  }

  ghost predicate IsHost(p: Place, h: Place) {
    p.Below? && TreeAt(h) == p.host && Bringer(h) == p.outer
  }

  ghost predicate HasHost(ps: seq<Place>, p: Place) {
    p.Below? ==> exists h :: h in ps && IsHost(p, h)
  }

  ghost predicate Closed(ps: seq<Place>) {
    forall p :: p in ps ==> HasKids(ps, p) && HasSiblings(ps, p) && HasHost(ps, p)
  }

  // The same, as far as it goes, for the places below some trees.
  ghost predicate ClosedBelow(outer: Option<Tree>, ts: seq<Tree>, ps: seq<Place>, p: Place) {
    && p.Below? && HasKids(ps, p) && HasSiblings(ps, p)
    && ((p.outer == outer && p.host in ts) || HasHost(ps, p))
  }

  lemma ClosedInMore(outer: Option<Tree>, ts: seq<Tree>, ps: seq<Place>, p: Place, us: seq<Tree>, qs: seq<Place>)
    requires ClosedBelow(outer, ts, ps, p)
    requires (forall t :: t in ts ==> t in us) && (forall q :: q in ps ==> q in qs)
    ensures ClosedBelow(outer, us, qs, p)
  {
    if HasHost(ps, p) {
      var h :| h in ps && IsHost(p, h);
      assert h in qs;
    }
  }

  lemma KidPlaced(outer: Option<Tree>, t: Tree, c: Tree)
    requires c in t.kids
    ensures Below(outer, t, c) in PlacesBelow(outer, t)
  {
    var i :| 0 <= i < |t.kids| && t.kids[i] == c;
    assert LevelPlaces(outer, t)[i] == Below(outer, t, c);
  }

  lemma {:induction false} KidsPlaced(outer: Option<Tree>, ts: seq<Tree>, t: Tree, c: Tree)
    requires t in ts && c in t.kids
    ensures Below(outer, t, c) in PlacesBelowAll(outer, ts)
  {
    if t == ts[|ts| - 1] {
      KidPlaced(outer, t, c);
    } else {
      KidsPlaced(outer, ts[..|ts| - 1], t, c);
    }
  }

  lemma {:induction false} BelowClosed(outer: Option<Tree>, ts: seq<Tree>, p: Place)
    requires p in PlacesBelowAll(outer, ts)
    ensures ClosedBelow(outer, ts, PlacesBelowAll(outer, ts), p)
    decreases ts
  {
    var before, t, all := ts[..|ts| - 1], ts[|ts| - 1], PlacesBelowAll(outer, ts);
    if p in PlacesBelowAll(outer, before) {
      BelowClosed(outer, before, p);
      ClosedInMore(outer, before, PlacesBelowAll(outer, before), p, ts, all);
    } else if p in PlacesBelowAll(Some(t), t.kids) {
      BelowClosed(Some(t), t.kids, p);
      InnerClosed(outer, ts, p);
    } else {
      LevelClosed(outer, ts, p);
    }
  }

  lemma InnerClosed(outer: Option<Tree>, ts: seq<Tree>, p: Place)
    requires ts != []
    requires var t := ts[|ts| - 1]; ClosedBelow(Some(t), t.kids, PlacesBelowAll(Some(t), t.kids), p)
    ensures ClosedBelow(outer, ts, PlacesBelowAll(outer, ts), p)
  {
    var t, all := ts[|ts| - 1], PlacesBelowAll(outer, ts);
    assert forall q :: q in PlacesBelowAll(Some(t), t.kids) ==> q in PlacesBelow(outer, t);
    ClosedInMore(Some(t), t.kids, PlacesBelowAll(Some(t), t.kids), p, t.kids, all);
    if p.outer == Some(t) && p.host in t.kids {
      KidPlaced(outer, t, p.host);
      assert IsHost(p, Below(outer, t, p.host));
    }
  }

  lemma LevelClosed(outer: Option<Tree>, ts: seq<Tree>, p: Place)
    requires ts != [] && p.Below? && p.outer == outer && p.host == ts[|ts| - 1] && p.kid in p.host.kids
    ensures ClosedBelow(outer, ts, PlacesBelowAll(outer, ts), p)
  {
    var t := ts[|ts| - 1];
    forall s | s in t.kids
      ensures Below(outer, t, s) in PlacesBelow(outer, t)
    {
      KidPlaced(outer, t, s);
    }
    forall c | c in p.kid.kids
      ensures Below(Some(t), p.kid, c) in PlacesBelowAll(Some(t), t.kids)
    {
      KidsPlaced(Some(t), t.kids, p.kid, c);
    }
  }

  lemma ClosedAt(ts: seq<Tree>, p: Place)
    requires p in Places(ts)
    ensures HasKids(Places(ts), p) && HasSiblings(Places(ts), p) && HasHost(Places(ts), p)
  {
    var tops := TopPlaces(ts);
    if p.TopOf? && p in tops {
      forall c | c in p.tree.kids
        ensures Below(None, p.tree, c) in PlacesBelowAll(None, ts)
      {
        KidsPlaced(None, ts, p.tree, c);
      }
    } else {
      BelowClosed(None, ts, p);
      ClosedInMore(None, ts, PlacesBelowAll(None, ts), p, ts, Places(ts));
      if p.outer.None? && p.host in ts {
        var i :| 0 <= i < |ts| && ts[i] == p.host;
        assert tops[i] == TopOf(p.host) && IsHost(p, TopOf(p.host));
      }
    }
  }

  lemma ClosedJoin(a: seq<Place>, b: seq<Place>)
    requires Closed(a) && Closed(b)
    ensures Closed(a + b)
  {
    forall p | p in a + b
      ensures HasKids(a + b, p) && HasSiblings(a + b, p) && HasHost(a + b, p)
    {
      var ps := if p in a then a else b;
      assert forall q :: q in ps ==> q in a + b;
      assert HasKids(ps, p) && HasSiblings(ps, p) && HasHost(ps, p);
    }
  }

  function AllPlaces(ts: seq<Tree>, us: seq<Tree>): seq<Place> {
    Places(ts) + Places(us)
  }

  lemma AllClosed(ts: seq<Tree>, us: seq<Tree>)
    ensures Closed(AllPlaces(ts, us))
  {
    forall p | p in Places(ts)
      ensures HasKids(Places(ts), p) && HasSiblings(Places(ts), p) && HasHost(Places(ts), p)
    {
      ClosedAt(ts, p);
    }
    forall p | p in Places(us)
      ensures HasKids(Places(us), p) && HasSiblings(Places(us), p) && HasHost(Places(us), p)
    {
      ClosedAt(us, p);
    }
    ClosedJoin(Places(ts), Places(us));
  }

  lemma ResultFits(dd: Declaration, ts: seq<Tree>, us: seq<Tree>)
    requires ListsAre(dd, ts, us)
    ensures AllFit(AllPlaces(ts, us), dd.All())
  {
    ListFits(ts, dd.direct);
    ListFits(us, dd.environment);
    FitJoin(Places(ts), Places(us), dd.direct, dd.environment);
  }

  // What a noted parent names.

  lemma FitName(p: Place, d: Dep)
    requires Fits(p, d)
    ensures d.name == FinalNameAt(p)
            && d.parent == match p case TopOf(t) => t.dep.parent case Below(_, h, _) => h.dep.name
  {
  }

  // A dependency that is brought notes the name of the record of the one that brings it, exactly
  // if that is a direct dependency: deeper down the latter is renamed after it has been noted.
  lemma ParentNamedIff(dd: Declaration, ts: seq<Tree>, us: seq<Tree>, n: nat) returns (m: nat)
    requires ListsAre(dd, ts, us) && n < |AllPlaces(ts, us)| && AllPlaces(ts, us)[n].Below?
    ensures var ps, ds := AllPlaces(ts, us), dd.All();
            |ps| == |ds| && m < |ps| && IsHost(ps[n], ps[m]) && (ds[n].parent == ds[m].name <==> ps[m].TopOf?)
  {
    var ps, ds := AllPlaces(ts, us), dd.All();
    AllClosed(ts, us);
    ResultFits(dd, ts, us);
    assert ps[n] in ps && HasHost(ps, ps[n]);
    var h :| h in ps && IsHost(ps[n], h);
    m :| 0 <= m < |ps| && ps[m] == h;
    FitName(ps[n], ds[n]);
    FitName(ps[m], ds[m]);
    if h.Below? {
      PrefixedGrows(h.host.dep.repo, h.kid.dep.name, "");
    }
  }

  // Who is required.

  // One of the dependencies brought beside p requires it.
  ghost predicate SiblingNeeds(p: Place) {
    p.Below? && exists s :: s in p.host.kids && p.kid.dep.name in Needs(s)
  }

  // A dependency declares that it requires g, and declares no sibling of that name.
  ghost predicate DeclaredNeed(ps: seq<Place>, g: string) {
    exists q :: q in ps && g in TreeAt(q).dep.needs && (q.Below? ==> g !in Names(q.host.kids))
  }

  // What p's host brings as p has not been redirected to a sibling of the host; or one brought
  // beside p requires it, and is not redirected either; or some other dependency names it.
  ghost predicate Wanted(ps: seq<Place>, p: Place) {
    p.Below? && p.outer.Some? ==>
      || FinalNameAt(p) !in Names(p.outer.value.kids)
      || (FinalNameAt(p) !in Names(p.host.kids) && SiblingNeeds(p))
      || DeclaredNeed(ps, FinalNameAt(p))
  }

  ghost predicate NoOrphans(ps: seq<Place>) {
    forall p :: p in ps ==> Wanted(ps, p)
  }

  lemma GeneratedAt(t: Tree, k: Tree)
    requires k in t.kids
    ensures Prefixed(t.dep.repo, k.dep.name) in Generated(t) && k.dep.name in Names(t.kids)
  {
    var i :| 0 <= i < |t.kids| && t.kids[i] == k;
    assert Generated(t)[i] == Prefixed(t.dep.repo, k.dep.name) && Names(t.kids)[i] == k.dep.name;
  }

  // What every order leaves of a requirement: itself, if it names no sibling, and its new name, if
  // that is not renamed in turn.

  lemma NeedStays(p: Place, d: Dep, r: string)
    requires Fits(p, d) && r in Needs(TreeAt(p)) && (p.Below? ==> r !in Names(p.host.kids))
    ensures r in d.needs
  {
    if p.Below? {
      var order :| Lists(order, NameSetOf(p.host.kids)) && ChasedAt(p.host.dep.repo, order, RawOf(p.host, p.kid), d);
      var j :| 0 <= j < |Needs(p.kid)| && Needs(p.kid)[j] == r;
      ChaseStays(p.host.dep.repo, r, order);
      assert d.needs[j] == r;
    }
  }

  lemma NeedRenamed(p: Place, d: Dep, r: string)
    requires Fits(p, d) && p.Below? && r in Needs(p.kid)
    requires r in Names(p.host.kids) && Prefixed(p.host.dep.repo, r) !in Names(p.host.kids)
    ensures Prefixed(p.host.dep.repo, r) in d.needs
  {
    var order :| Lists(order, NameSetOf(p.host.kids)) && ChasedAt(p.host.dep.repo, order, RawOf(p.host, p.kid), d);
    var j :| 0 <= j < |Needs(p.kid)| && Needs(p.kid)[j] == r;
    ChaseOnce(p.host.dep.repo, r, order);
    assert d.needs[j] == Prefixed(p.host.dep.repo, r);
  }

  lemma RecordAt(ps: seq<Place>, ds: seq<Dep>, q: Place) returns (i: nat)
    requires AllFit(ps, ds) && q in ps
    ensures i < |ds| && ps[i] == q && Fits(q, ds[i])
  {
    i :| 0 <= i < |ps| && ps[i] == q;
  }

  lemma RequiredBy(ds: seq<Dep>, i: nat, g: string)
    requires i < |ds| && g in ds[i].needs
    ensures IsRequired(g, ds)
  {
    var j :| 0 <= j < |ds[i].needs| && ds[i].needs[j] == g;
    RequiredAt(ds, i, j);
  }

  lemma WantedIsRequired(ps: seq<Place>, ds: seq<Dep>, p: Place)
    requires Closed(ps) && AllFit(ps, ds) && p in ps && p.Below? && Wanted(ps, p)
    ensures IsRequired(FinalNameAt(p), ds)
  {
    var g := FinalNameAt(p);
    assert HasSiblings(ps, p) && HasHost(ps, p);
    GeneratedAt(p.host, p.kid);
    if p.outer.None? || g !in Names(p.outer.value.kids) {
      var h :| h in ps && IsHost(p, h);
      var i := RecordAt(ps, ds, h);
      NeedStays(h, ds[i], g);
      RequiredBy(ds, i, g);
    } else if g !in Names(p.host.kids) && SiblingNeeds(p) {
      var s :| s in p.host.kids && p.kid.dep.name in Needs(s);
      var i := RecordAt(ps, ds, p.(kid := s));
      NeedRenamed(p.(kid := s), ds[i], p.kid.dep.name);
      RequiredBy(ds, i, g);
    } else {
      var q :| q in ps && g in TreeAt(q).dep.needs && (q.Below? ==> g !in Names(q.host.kids));
      var i := RecordAt(ps, ds, q);
      NeedStays(q, ds[i], g);
      RequiredBy(ds, i, g);
    }
  }

  // Orders that rename c first of all, and c's new name next.

  ghost predicate StartsWith(order: seq<string>, c: string, g: string) {
    && (c in order ==> order[0] == c)
    && (c in order && g in order && c != g ==> order[1] == g)
  }

  lemma SomeStart(c: string, g: string, names: set<string>)
    ensures exists order :: Lists(order, names) && StartsWith(order, c, g)
  {
    var rest := SomeListing(names - {c, g});
    var order := (if c in names then [c] else []) + (if g in names && g != c then [g] else []) + rest;
    assert Lists(order, names) && StartsWith(order, c, g);
  }

  ghost function Start(c: string, g: string, names: set<string>): (order: seq<string>)
    ensures Lists(order, names) && StartsWith(order, c, g)
  {
    SomeStart(c, g, names);
    var order :| Lists(order, names) && StartsWith(order, c, g);
    order
  }

  // In such an order nothing else becomes c's new name, and that does not stay if it is renamed.

  lemma {:induction false} OnlyFirst(repo: string, r: string, order: seq<string>)
    requires NoDuplicates(order) && order != [] && r != order[0] && r != Prefixed(repo, order[0])
    ensures Chase(repo, r, order) != Prefixed(repo, order[0])
  {
    if |order| == 1 {
      assert order[..0] == [];
    } else {
      OnlyFirst(repo, r, order[..|order| - 1]);
      PrefixedGrows(repo, order[|order| - 1], order[0]);
    }
  }

  lemma {:induction false} NotSecond(repo: string, r: string, order: seq<string>)
    requires NoDuplicates(order) && |order| > 1 && order[1] == Prefixed(repo, order[0])
    ensures Chase(repo, r, order) != order[1]
  {
    PrefixedGrows(repo, order[|order| - 1], order[0]);
    if |order| > 2 {
      NotSecond(repo, r, order[..|order| - 1]);
    } else {
      PrefixedGrows(repo, order[1], order[1]);
    }
  }

  ghost predicate NamesApart(ps: seq<Place>) {
    forall i, j :: 0 <= i < j < |ps| ==> FinalNameAt(ps[i]) != FinalNameAt(ps[j])
  }

  lemma SamePlace(ps: seq<Place>, p: Place, q: Place)
    requires NamesApart(ps) && p in ps && q in ps && FinalNameAt(p) == FinalNameAt(q)
    ensures p == q
  {
    var i :| 0 <= i < |ps| && ps[i] == p;
    var j :| 0 <= j < |ps| && ps[j] == q;
    assert i == j;
  }

  lemma BroughtUnder(t: Tree, g: string) returns (k: Tree)
    requires g in Generated(t)
    ensures k in t.kids && g == Prefixed(t.dep.repo, k.dep.name)
  {
    var i :| 0 <= i < |t.kids| && Generated(t)[i] == g;
    k := t.kids[i];
  }

  // A requirement of p's name that is not renamed, or is p's own under its declared name.

  lemma PlainNeed(ps: seq<Place>, p: Place, q: Place)
    requires Closed(ps) && NamesApart(ps) && p in ps && p.Below? && q in ps
    requires FinalNameAt(p) in Needs(TreeAt(q)) && (q.Below? ==> FinalNameAt(p) !in Names(q.host.kids))
    ensures Wanted(ps, p)
  {
    var g := FinalNameAt(p);
    if g in TreeAt(q).dep.needs {
      assert DeclaredNeed(ps, g);
    } else {
      assert HasKids(ps, q);
      var k := BroughtUnder(TreeAt(q), g);
      SamePlace(ps, p, Below(Bringer(q), TreeAt(q), k));
    }
  }

  lemma RenamedNeed(ps: seq<Place>, p: Place, q: Place, r: string, order: seq<string>)
    requires Closed(ps) && NamesApart(ps) && p in ps && p.Below? && q in ps && q.Below?
    requires Lists(order, NameSetOf(q.host.kids)) && StartsWith(order, p.kid.dep.name, FinalNameAt(p))
    requires r in Needs(q.kid) && r in Names(q.host.kids) && Chase(q.host.dep.repo, r, order) == FinalNameAt(p)
    ensures Wanted(ps, p)
  {
    var c, g := p.kid.dep.name, FinalNameAt(p);
    var x := ChaseLands(q.host.dep.repo, r, order);
    assert HasSiblings(ps, q) && HasSiblings(ps, p);
    var i :| 0 <= i < |q.host.kids| && Names(q.host.kids)[i] == x;
    SamePlace(ps, p, q.(kid := q.host.kids[i]));
    GeneratedAt(p.host, p.kid);
    PrefixedGrows(p.host.dep.repo, c, c);
    if g in order {
      NotSecond(p.host.dep.repo, r, order);
      assert false;
    } else if r != c {
      OnlyFirst(p.host.dep.repo, r, order);
      assert false;
    } else {
      assert q.kid in p.host.kids && c in Needs(q.kid);
    }
  }

  lemma NeedMakesWanted(ps: seq<Place>, f: Tree -> seq<string>, p: Place, q: Place, d: Dep)
    requires Closed(ps) && NamesApart(ps) && p in ps && p.Below? && q in ps && Orders(f)
    requires forall t :: StartsWith(f(t), p.kid.dep.name, FinalNameAt(p))
    requires FitsBy(f, q, d) && FinalNameAt(p) in d.needs
    ensures Wanted(ps, p)
  {
    var g := FinalNameAt(p);
    var j :| 0 <= j < |d.needs| && d.needs[j] == g;
    var r := Needs(TreeAt(q))[j];
    if q.Below? {
      assert Lists(f(q.host), NameSetOf(q.host.kids));
      if r in Names(q.host.kids) {
        RenamedNeed(ps, p, q, r, f(q.host));
      } else {
        ChaseStays(q.host.dep.repo, r, f(q.host));
        PlainNeed(ps, p, q);
      }
    } else {
      PlainNeed(ps, p, q);
    }
  }

  // In some list, what is not wanted is required by nobody.
  lemma UnwantedList(ts: seq<Tree>, us: seq<Tree>, p: Place) returns (dd: Declaration)
    requires NamesApart(AllPlaces(ts, us)) && p in AllPlaces(ts, us) && p.Below?
    ensures ListsAre(dd, ts, us) && (IsRequired(FinalNameAt(p), dd.All()) ==> Wanted(AllPlaces(ts, us), p))
  {
    var ps := AllPlaces(ts, us);
    var c, g := p.kid.dep.name, FinalNameAt(p);
    ghost var f := (t: Tree) => Start(c, g, NameSetOf(t.kids));
    var direct := ListBy(f, ts);
    var environment := ListBy(f, us);
    dd := Declaration(direct, environment);
    FitByJoin(f, Places(ts), Places(us), direct, environment);
    AllClosed(ts, us);
    var ds := dd.All();
    if IsRequired(g, ds) {
      var i, j :| 0 <= i < |ds| && 0 <= j < |ds[i].needs| && ds[i].needs[j] == g;
      assert FitsBy(f, ps[i], ds[i]) && ps[i] in ps;
      NeedMakesWanted(ps, f, p, ps[i], ds[i]);
    }
  }

  ghost predicate AlwaysRequired(ts: seq<Tree>, us: seq<Tree>, n: string) {
    forall dd :: ListsAre(dd, ts, us) ==> IsRequired(n, dd.All())
  }

  // What is brought is required, whatever the iteration orders, exactly if it is wanted.
  lemma AlwaysRequiredIff(ts: seq<Tree>, us: seq<Tree>, p: Place)
    requires NamesApart(AllPlaces(ts, us)) && p in AllPlaces(ts, us) && p.Below?
    ensures AlwaysRequired(ts, us, FinalNameAt(p)) <==> Wanted(AllPlaces(ts, us), p)
  {
    var dd := UnwantedList(ts, us, p);
    if Wanted(AllPlaces(ts, us), p) {
      AllClosed(ts, us);
      forall other | ListsAre(other, ts, us)
        ensures IsRequired(FinalNameAt(p), other.All())
      {
        ResultFits(other, ts, us);
        WantedIsRequired(AllPlaces(ts, us), other.All(), p);
      }
    }
  }

  // What expanding gives: everything has a name, and nothing at the top notes a parent.
  ghost predicate AllNamed(ps: seq<Place>) {
    forall p :: p in ps ==> TreeAt(p).dep.name != "" && TreeAt(p).dep.parent == ""
  }

  // The records that note a parent are those of what is brought.
  lemma ParentNoted(ps: seq<Place>, ds: seq<Dep>, i: nat)
    requires Closed(ps) && AllNamed(ps) && AllFit(ps, ds) && i < |ps|
    ensures ds[i].name == FinalNameAt(ps[i]) && (ds[i].parent != "" <==> ps[i].Below?)
  {
    FitName(ps[i], ds[i]);
    assert ps[i] in ps && HasHost(ps, ps[i]);
    if ps[i].Below? {
      var h :| h in ps && IsHost(ps[i], h);
    }
  }

  ghost predicate AllAlwaysRequired(ts: seq<Tree>, us: seq<Tree>) {
    forall dd :: ListsAre(dd, ts, us) ==> AllRequired(dd.All())
  }

  // Whatever notes a parent is required, for all iteration orders, exactly if every name that was
  // generated for what a dependency brings and is also declared beside that dependency is
  // required otherwise.
  lemma AllRequiredIff(ts: seq<Tree>, us: seq<Tree>)
    requires NamesApart(AllPlaces(ts, us)) && AllNamed(AllPlaces(ts, us))
    ensures AllAlwaysRequired(ts, us) <==> NoOrphans(AllPlaces(ts, us))
  {
    var ps := AllPlaces(ts, us);
    AllClosed(ts, us);
    if AllAlwaysRequired(ts, us) {
      forall p | p in ps
        ensures Wanted(ps, p)
      {
        if p.Below? {
          RequiredWanted(ts, us, p);
        }
      }
    }
    if NoOrphans(ps) {
      forall dd | ListsAre(dd, ts, us)
        ensures AllRequired(dd.All())
      {
        NoOrphansRequired(dd, ts, us);
      }
    }
  }

  lemma RequiredWanted(ts: seq<Tree>, us: seq<Tree>, p: Place)
    requires NamesApart(AllPlaces(ts, us)) && AllNamed(AllPlaces(ts, us)) && AllAlwaysRequired(ts, us)
    requires p in AllPlaces(ts, us) && p.Below?
    ensures Wanted(AllPlaces(ts, us), p)
  {
    var ps := AllPlaces(ts, us);
    AllClosed(ts, us);
    forall dd | ListsAre(dd, ts, us)
      ensures IsRequired(FinalNameAt(p), dd.All())
    {
      ResultFits(dd, ts, us);
      var i := RecordAt(ps, dd.All(), p);
      ParentNoted(ps, dd.All(), i);
      assert dd.All()[i] in dd.All();
    }
    AlwaysRequiredIff(ts, us, p);
  }

  lemma NoOrphansRequired(dd: Declaration, ts: seq<Tree>, us: seq<Tree>)
    requires ListsAre(dd, ts, us) && AllNamed(AllPlaces(ts, us)) && NoOrphans(AllPlaces(ts, us))
    ensures AllRequired(dd.All())
  {
    var ps, ds := AllPlaces(ts, us), dd.All();
    AllClosed(ts, us);
    ResultFits(dd, ts, us);
    forall d | d in ds && d.parent != ""
      ensures IsRequired(d.name, ds)
    {
      var i :| 0 <= i < |ds| && ds[i] == d;
      ParentNoted(ps, ds, i);
      assert ps[i] in ps;
      WantedIsRequired(ps, ds, ps[i]);
    }
  }

  // Resolved configurations.

  lemma {:induction false} BelowProper(outer: Option<Tree>, ts: seq<Tree>, p: Place)
    requires p in PlacesBelowAll(outer, ts) && ProperAll(ts)
    ensures Proper(TreeAt(p))
    decreases ts
  {
    var before, t := ts[..|ts| - 1], ts[|ts| - 1];
    assert t in ts && forall x :: x in before ==> x in ts;
    if p in PlacesBelowAll(outer, before) {
      BelowProper(outer, before, p);
    } else if p in PlacesBelowAll(Some(t), t.kids) {
      BelowProper(Some(t), t.kids, p);
    } else {
      assert Proper(t) && ProperAll(t.kids);
      assert p.kid in t.kids;
    }
  }

  lemma ForestsNamed(w: World, repo: string)
    requires Forests(w, repo).Ok?
    ensures var (ts, us) := Forests(w, repo).value; AllNamed(AllPlaces(ts, us))
  {
    var (ts, us) := Forests(w, repo).value;
    ForestsProper(w, repo);
    forall p | p in AllPlaces(ts, us)
      ensures Proper(TreeAt(p))
    {
      if p in PlacesBelowAll(None, ts) {
        BelowProper(None, ts, p);
      } else if p in PlacesBelowAll(None, us) {
        BelowProper(None, us, p);
      }
    }
  }

  lemma {:induction false} KeptBelow(outer: Option<Tree>, siblings: seq<string>, ts: seq<Tree>, p: Place)
    requires p in PlacesBelowAll(outer, ts) && NamesKeptAll(siblings, ts)
    requires outer.Some? ==> siblings == Names(outer.value.kids)
    ensures p.Below? && (p.outer.Some? ==> FinalNameAt(p) !in Names(p.outer.value.kids))
    decreases ts
  {
    var before, t := ts[..|ts| - 1], ts[|ts| - 1];
    assert t in ts && forall x :: x in before ==> x in ts;
    if p in PlacesBelowAll(outer, before) {
      KeptBelow(outer, siblings, before, p);
    } else if p in PlacesBelowAll(Some(t), t.kids) {
      KeptBelow(Some(t), Names(t.kids), t.kids, p);
    } else {
      GeneratedAt(t, p.kid);
    }
  }

  // Where prefixing preserves the graph, everything brought is required.
  lemma KeptNoOrphans(ts: seq<Tree>, us: seq<Tree>)
    requires NamesKeptAll([], ts) && NamesKeptAll([], us)
    ensures NoOrphans(AllPlaces(ts, us))
  {
    forall p | p in AllPlaces(ts, us)
      ensures Wanted(AllPlaces(ts, us), p)
    {
      if p in PlacesBelowAll(None, ts) {
        KeptBelow(None, [], ts, p);
      } else if p in PlacesBelowAll(None, us) {
        KeptBelow(None, [], us, p);
      }
    }
  }

  // An accepted result for a repository, in which no dependency has the root's name.
  ghost predicate ResolvesTo(w: World, repo: string, dd: Declaration) {
    && Forests(w, repo).Ok?
    && Gives(Ok(dd), Forests(w, repo).value.0, Forests(w, repo).value.1)
    && GetName(repo) !in NameSet(dd.All())
  }

  function PlacesOf(w: World, repo: string): seq<Place>
    requires Forests(w, repo).Ok?
  {
    AllPlaces(Forests(w, repo).value.0, Forests(w, repo).value.1)
  }

  lemma UniqueApart(ps: seq<Place>, ds: seq<Dep>)
    requires AllFit(ps, ds) && UniqueNames(ds)
    ensures NamesApart(ps)
  {
    forall i, j | 0 <= i < j < |ps|
      ensures FinalNameAt(ps[i]) != FinalNameAt(ps[j])
    {
      FitName(ps[i], ds[i]);
      FitName(ps[j], ds[j]);
      assert ds[i].name != ds[j].name;
    }
  }

  lemma ResolvedIsFromGet(w: World, repo: string, dd: Declaration)
    requires ResolvesTo(w, repo, dd)
    ensures var (ts, us) := Forests(w, repo).value;
            ListsAre(dd, ts, us) && AllNamed(AllPlaces(ts, us)) && NamesApart(AllPlaces(ts, us))
    ensures FromGet(dd.All(), GetName(repo))
  {
    var (ts, us) := Forests(w, repo).value;
    ForestsNamed(w, repo);
    ResultFits(dd, ts, us);
    WellNamedUnique(dd.All());
    UniqueApart(AllPlaces(ts, us), dd.All());
    ResolvedTogether(dd);
  }

  lemma ResolvedTogether(dd: Declaration)
    requires ValidNames(dd)
    ensures Resolved(dd.All(), NameSet(dd.All()))
  {
    var ds := dd.All();
    forall i, j | 0 <= i < |ds| && 0 <= j < |ds[i].needs|
      ensures ds[i].needs[j] in NameSet(ds)
    {
      if i < |dd.direct| {
        assert ds[i] == dd.direct[i];
        assert dd.direct[i].needs[j] in NameSet(dd.direct);
        assert forall d :: d in dd.direct ==> d in ds;
      } else {
        assert ds[i] == dd.environment[i - |dd.direct|];
      }
    }
  }

  // Without orphans and circular requirements the progress tree is a tree with one node for each
  // dependency and one for the root, and rendering ends, whatever the iteration orders.
  lemma ResolvedTrees(w: World, repo: string, dd: Declaration, rank: string -> nat)
    requires ResolvesTo(w, repo, dd) && NoOrphans(PlacesOf(w, repo)) && Acyclic(dd.All(), rank)
    ensures var tree := Nodes(dd.All(), GetName(repo), |dd.All()|);
            |tree| == |dd.All()| + 1 && tree.Keys == NameSet(dd.All()) + {GetName(repo)}
            && AllReach(dd.All(), GetName(repo))
    ensures exists n :: |Rounds(dd.All(), n)| == |dd.All()|
  {
    var (ts, us) := Forests(w, repo).value;
    ResolvedIsFromGet(w, repo, dd);
    NoOrphansRequired(dd, ts, us);
    RootedTree(dd.All(), GetName(repo), rank);
    RequiredEnds(dd.All(), rank);
  }

  // What an orphan's host was called before it was renamed is, by chance, the name of a node.
  ghost predicate Adopted(names: set<string>, p: Place) {
    p.Below? && p.host.dep.name in names
  }

  ghost predicate NoLostOrphans(ps: seq<Place>, names: set<string>) {
    forall p :: p in ps ==> Wanted(ps, p) || Adopted(names, p)
  }

  lemma OnlyResult(dd: Declaration, other: Declaration, ts: seq<Tree>, us: seq<Tree>)
    requires OrderFreeAll(ts) && OrderFreeAll(us) && ListsAre(dd, ts, us) && ListsAre(other, ts, us)
    ensures dd == other
  {
    ListIsFlat(ts, dd.direct);
    ListIsFlat(us, dd.environment);
    ListIsFlat(ts, other.direct);
    ListIsFlat(us, other.environment);
  }

  lemma AnchoredAtIff(dd: Declaration, ts: seq<Tree>, us: seq<Tree>, root: string, i: nat)
    requires OrderFreeAll(ts) && OrderFreeAll(us) && ListsAre(dd, ts, us)
    requires NamesApart(AllPlaces(ts, us)) && AllNamed(AllPlaces(ts, us)) && i < |AllPlaces(ts, us)|
    ensures var ps, ds := AllPlaces(ts, us), dd.All();
            |ps| == |ds|
            && (AnchoredAt(ds, root, ds[i]) <==> Wanted(ps, ps[i]) || Adopted(NameSet(ds) + {root}, ps[i]))
  {
    var ps, ds := AllPlaces(ts, us), dd.All();
    AllClosed(ts, us);
    ResultFits(dd, ts, us);
    ParentNoted(ps, ds, i);
    FitName(ps[i], ds[i]);
    if ps[i].Below? {
      AlwaysRequiredIff(ts, us, ps[i]);
      forall other | ListsAre(other, ts, us)
        ensures other == dd
      {
        OnlyResult(dd, other, ts, us);
      }
    }
  }

  lemma AnchoredIff(dd: Declaration, ts: seq<Tree>, us: seq<Tree>, root: string)
    requires OrderFreeAll(ts) && OrderFreeAll(us) && ListsAre(dd, ts, us)
    requires NamesApart(AllPlaces(ts, us)) && AllNamed(AllPlaces(ts, us))
    ensures Anchored(dd.All(), root) <==> NoLostOrphans(AllPlaces(ts, us), NameSet(dd.All()) + {root})
  {
    var ps, ds := AllPlaces(ts, us), dd.All();
    ResultFits(dd, ts, us);
    forall i | 0 <= i < |ps|
      ensures AnchoredAt(ds, root, ds[i]) <==> Wanted(ps, ps[i]) || Adopted(NameSet(ds) + {root}, ps[i])
    {
      AnchoredAtIff(dd, ts, us, root, i);
    }
    if Anchored(ds, root) {
      forall p | p in ps
        ensures Wanted(ps, p) || Adopted(NameSet(ds) + {root}, p)
      {
        var i :| 0 <= i < |ps| && ps[i] == p;
        assert ds[i] in ds && AnchoredAt(ds, root, ds[i]);
      }
    }
    if NoLostOrphans(ps, NameSet(ds) + {root}) {
      forall d | d in ds
        ensures AnchoredAt(ds, root, d)
      {
        var i :| 0 <= i < |ds| && ds[i] == d;
        assert ps[i] in ps;
      }
    }
  }

  // If no requirement can be renamed twice, every chain of parents reaches the root exactly if no
  // orphan is lost and there is no circle.
  lemma ResolvedRootedIff(w: World, repo: string, dd: Declaration)
    requires ResolvesTo(w, repo, dd)
    requires var (ts, us) := Forests(w, repo).value; OrderFreeAll(ts) && OrderFreeAll(us)
    ensures var ds, root := dd.All(), GetName(repo);
            AllReach(ds, root) <==>
              NoLostOrphans(PlacesOf(w, repo), NameSet(ds) + {root})
              && forall c :: !Circle(Nodes(ds, root, |ds|), root, c)
  {
    var (ts, us) := Forests(w, repo).value;
    ResolvedIsFromGet(w, repo, dd);
    AnchoredIff(dd, ts, us, GetName(repo));
    RootedIff(dd.All(), GetName(repo));
  }
}
