/**
  The configuration of an environment: the dependencies of the triggering
  repository and everything they bring, with their names validated.
  */
module RepoConfig {
  import opened Wrappers
  import opened DependencyTree
  import opened DependencyErrors
  import opened Dependencies

  datatype Declaration = Declaration(direct: seq<Dep>, environment: seq<Dep>) {
    function All(): seq<Dep> {
      direct + environment
    }
  }

  // Validation of names.

  function NameSet(ds: seq<Dep>): set<string> {
    set d | d in ds :: d.name
  }

  ghost predicate Apart(ds: seq<Dep>, i: nat, j: nat) {
    && i < |ds| && j < |ds|
    && ds[i].name != ds[j].name
    && (BranchMatchable(ds[i]) && BranchMatchable(ds[j]) ==> ds[i].repo != ds[j].repo)
  }

  ghost predicate WellNamed(ds: seq<Dep>) {
    && (forall i :: 0 <= i < |ds| ==> ds[i].name != "")
    && forall i, j :: 0 <= i < j < |ds| ==> Apart(ds, i, j)
  }

  ghost predicate Resolved(ds: seq<Dep>, names: set<string>) {
    forall i, j :: 0 <= i < |ds| && 0 <= j < |ds[i].needs| ==> ds[i].needs[j] in names
  }

  // Direct dependencies may require direct ones, environment dependencies any.
  ghost predicate ValidNames(dd: Declaration) {
    && WellNamed(dd.All())
    && Resolved(dd.direct, NameSet(dd.direct))
    && Resolved(dd.environment, NameSet(dd.All()))
  }

  // The names and matchable repositories of `ds` are recorded in nm and rm.
  ghost predicate Recorded(ds: seq<Dep>, nm: set<string>, rm: set<string>) {
    && nm == NameSet(ds)
    && forall r :: r in rm <==> exists d :: d in ds && BranchMatchable(d) && d.repo == r
  }

  lemma RecordedMore(ds: seq<Dep>, nm: set<string>, rm: set<string>, d: Dep)
    requires Recorded(ds, nm, rm)
    ensures Recorded(ds + [d], nm + {d.name}, if BranchMatchable(d) then rm + {d.repo} else rm)
  {
    assert forall x :: x in ds + [d] <==> x in ds || x == d;
    assert NameSet(ds + [d]) == nm + {d.name};
  }

  lemma WellNamedMore(ds: seq<Dep>, nm: set<string>, rm: set<string>, d: Dep)
    requires Recorded(ds, nm, rm)
    ensures WellNamed(ds + [d])
            <==> WellNamed(ds) && d.name != "" && d.name !in nm && (BranchMatchable(d) ==> d.repo !in rm)
  {
    var k := |ds|;
    if WellNamed(ds + [d]) {
      assert (ds + [d])[k] == d;
      forall i | 0 <= i < k
        ensures Apart(ds + [d], i, k) && ds[i] == (ds + [d])[i]
      {
      }
      forall i, j | 0 <= i < j < k
        ensures Apart(ds, i, j)
      {
        assert Apart(ds + [d], i, j);
      }
      assert forall i :: 0 <= i < k ==> ds[i].name == (ds + [d])[i].name;
    }
    if WellNamed(ds) && d.name != "" && d.name !in nm && (BranchMatchable(d) ==> d.repo !in rm) {
      forall i, j | 0 <= i < j < k + 1
        ensures Apart(ds + [d], i, j)
      {
        assert ds[i] in ds;
        assert j < k ==> Apart(ds, i, j);
      }
    }
  }

  lemma {:induction false} WellNamedPrefix(ds: seq<Dep>, k: nat)
    requires k <= |ds| && WellNamed(ds)
    ensures WellNamed(ds[..k])
  {
    forall i, j | 0 <= i < j < k
      ensures Apart(ds[..k], i, j)
    {
      assert Apart(ds, i, j);
    }
  }

  // One of the two lists, behind those already recorded.
  method CheckNames(ghost before: seq<Dep>, deps: seq<Dep>, nm0: set<string>, rm0: set<string>)
    returns (ok: bool, nm: set<string>, rm: set<string>)
    requires WellNamed(before) && Recorded(before, nm0, rm0)
    ensures ok <==> WellNamed(before + deps) && Resolved(deps, NameSet(before + deps))
    ensures ok ==> Recorded(before + deps, nm, rm)
  {
    nm, rm := nm0, rm0;
    assert before + deps[..0] == before;
    for i := 0 to |deps|
      invariant WellNamed(before + deps[..i]) && Recorded(before + deps[..i], nm, rm)
    {
      var d := deps[i];
      assert before + deps[..i + 1] == before + deps[..i] + [d];
      WellNamedMore(before + deps[..i], nm, rm, d);
      RecordedMore(before + deps[..i], nm, rm, d);
      if d.name == "" || d.name in nm || (BranchMatchable(d) && d.repo in rm) {
        NotWellNamed(before, deps, i);
        return false, nm, rm;
      }
      nm := nm + {d.name};
      if BranchMatchable(d) {
        rm := rm + {d.repo};
      }
    }
    assert deps[..|deps|] == deps;
    for i := 0 to |deps|
      invariant forall k, j :: 0 <= k < i && 0 <= j < |deps[k].needs| ==> deps[k].needs[j] in nm
    {
      for j := 0 to |deps[i].needs|
        invariant forall l :: 0 <= l < j ==> deps[i].needs[l] in nm
      {
        if deps[i].needs[j] !in nm {
          return false, nm, rm;
        }
      }
    }
    ok := true;
  }

  lemma NotWellNamed(before: seq<Dep>, deps: seq<Dep>, i: nat)
    requires i < |deps| && !WellNamed(before + deps[..i + 1])
    ensures !WellNamed(before + deps)
  {
    assert (before + deps)[..|before| + i + 1] == before + deps[..i + 1];
    if WellNamed(before + deps) {
      WellNamedPrefix(before + deps, |before| + i + 1);
    }
  }

  method ValidateNames(dd: Declaration) returns (ok: bool)
    ensures ok <==> ValidNames(dd)
  {
    var nm, rm: set<string> := {}, {};
    assert [] + dd.direct == dd.direct;
    ok, nm, rm := CheckNames([], dd.direct, nm, rm);
    if !ok {
      if WellNamed(dd.All()) {
        WellNamedPrefix(dd.All(), |dd.direct|);
        assert dd.All()[..|dd.direct|] == dd.direct;
      }
      return;
    }
    ok, nm, rm := CheckNames(dd.direct, dd.environment, nm, rm);
  }

  // Resolving the whole configuration.

  // The trees of the direct and of the environment dependencies.
  function Forests(w: World, repo: string): Result<(seq<Tree>, seq<Tree>)> {
    if repo !in w.configs then Err(NotFound)
    else
      match ExpandAll(w, {repo}, w.configs[repo].direct, repo)
      case Err(e) => Err(e)
      case Ok((ts, s)) =>
        match ExpandAll(w, s, w.configs[repo].environment, repo)
        case Err(e) => Err(e)
        case Ok((us, s')) => Ok((ts, us))
  }

  // Resolving one list after the other is resolving both together.
  lemma ForestsJoined(w: World, repo: string)
    ensures repo in w.configs ==>
              var config := w.configs[repo];
              match Forests(w, repo)
              case Err(e) => ExpandAll(w, {repo}, config.direct + config.environment, repo) == Err(e)
              case Ok(_) => ExpandAll(w, {repo}, config.direct + config.environment, repo).Ok?
  {
    if repo in w.configs {
      ExpandJoin(w, {repo}, w.configs[repo].direct, w.configs[repo].environment, repo);
    }
  }

  // The loop over the dependencies that the triggering repository declares.
  method ProcessTops(r: Resolver, w: World, ds: seq<Dep>, home: string)
    returns (e: Option<Error>, tops: seq<Dep>, ghost trees: seq<Tree>)
    requires AllParsed(w) && Parsed(ds) && r.transitive == []
    modifies r
    ensures e.Some? ==> ExpandAll(w, old(r.repomap), ds, home) == Err(e.value)
    ensures e.None? ==> ExpandAll(w, old(r.repomap), ds, home) == Ok((trees, r.repomap))
    ensures e.None? ==> tops == Tops(trees) && TransAllIs(trees, r.transitive)
  {
    ghost var seen := r.repomap;
    e, tops, trees := None, [], [];
    assert ds[..0] == [] && r.transitive[0..] == [];
    for i := 0 to |ds|
      invariant Expanded(w, seen, ds[..i], home, trees, r.repomap)
      invariant AddsAll(trees, r.transitive, []) && tops == Tops(trees)
    {
      ghost var was, known, expanded := r.transitive, r.repomap, Expand(w, r.repomap, ds[i], home);
      var x := r.ProcessDep(w, ds[i], home);
      if x.Err? {
        ExpandFails(w, seen, ds, home, i, trees, known);
        e := Some(x.error);
        return;
      }
      ghost var t := expanded.value.0;
      ExpandedMore(w, seen, ds, home, i, trees, known, t, r.repomap);
      AddsMore(trees, t, [], was, r.transitive);
      assert Tops(trees + [t]) == Tops(trees) + [Top(t)];
      tops := tops + [x.value];
      trees := trees + [t];
    }
    assert ds[..|ds|] == ds && r.transitive[0..] == r.transitive;
  }

  // The lists are those of the declared forests, with each level renamed in some order.
  ghost predicate ListsAre(dd: Declaration, ts: seq<Tree>, us: seq<Tree>) {
    ListIs(ts, dd.direct) && ListIs(us, dd.environment)
  }

  ghost predicate Gives(r: Result<Declaration>, ts: seq<Tree>, us: seq<Tree>) {
    exists dd :: ListsAre(dd, ts, us) && r == if ValidNames(dd) then Ok(dd) else Err(BadNames)
  }

  lemma ListDone(ts: seq<Tree>, tops: seq<Dep>, transitive: seq<Dep>)
    requires tops == Tops(ts) && TransAllIs(ts, transitive)
    ensures ListIs(ts, tops + transitive)
  {
    assert (tops + transitive)[..|ts|] == tops && (tops + transitive)[|ts|..] == transitive;
  }

  lemma Given(dd: Declaration, ts: seq<Tree>, us: seq<Tree>, ok: bool)
    requires ListIs(ts, dd.direct) && ListIs(us, dd.environment) && (ok <==> ValidNames(dd))
    ensures Gives(if ok then Ok(dd) else Err(BadNames), ts, us)
  {
    assert ListsAre(dd, ts, us);
  }

  method Get(w: World, repo: string) returns (r: Result<Declaration>)
    requires AllParsed(w)
    ensures ErrorIs(w, repo, r)
    ensures match Forests(w, repo)
            case Err(e) => r == Err(e)
            case Ok((ts, us)) => Gives(r, ts, us)
  {
    ForestsJoined(w, repo);
    if repo !in w.configs {
      return Err(NotFound);
    }
    var resolver := new Resolver(repo);
    var e, direct, ts := ProcessTops(resolver, w, w.configs[repo].direct, repo);
    if e.Some? {
      r := Err(e.value);
      ErrorIsFirst(w, repo, r);
      return;
    }
    ListDone(ts, direct, resolver.transitive);
    direct := direct + resolver.transitive;
    resolver.transitive := [];
    var f, environment, us := ProcessTops(resolver, w, w.configs[repo].environment, repo);
    if f.Some? {
      r := Err(f.value);
      ErrorIsFirst(w, repo, r);
      return;
    }
    ListDone(us, environment, resolver.transitive);
    environment := environment + resolver.transitive;
    var dd := Declaration(direct, environment);
    var ok := ValidateNames(dd);
    Given(dd, ts, us, ok);
    r := if ok then Ok(dd) else Err(BadNames);
    ErrorIsFirst(w, repo, r);
  }

  // If no requirement can be renamed twice, there is one result.
  lemma GivesFlat(r: Result<Declaration>, ts: seq<Tree>, us: seq<Tree>)
    requires OrderFreeAll(ts) && OrderFreeAll(us)
    ensures var dd := Declaration(Flat(ts), Flat(us));
            Gives(r, ts, us) <==> r == if ValidNames(dd) then Ok(dd) else Err(BadNames)
  {
    var dd := Declaration(Flat(ts), Flat(us));
    ListIsFlat(ts, dd.direct);
    ListIsFlat(us, dd.environment);
    assert ListsAre(dd, ts, us);
    forall other | ListsAre(other, ts, us)
      ensures other == dd
    {
      ListIsFlat(ts, other.direct);
      ListIsFlat(us, other.environment);
    }
  }

  // Whether a configuration is accepted does not depend on the iteration orders.

  lemma GeneratedNamed(ts: seq<Tree>, t: Tree)
    requires t in ts
    ensures (set g | g in Generated(t)) <= NameSet(Level(t))
  {
    forall g | g in Generated(t)
      ensures g in NameSet(Level(t))
    {
      var i :| 0 <= i < |t.kids| && Generated(t)[i] == g;
      assert Level(t)[i] in Level(t) && Level(t)[i].name == g;
    }
  }

  lemma {:induction false} AllGeneratedNamed(ts: seq<Tree>)
    ensures GeneratedInAll(ts) <= NameSet(TransAll(ts))
    decreases ts
  {
    if ts != [] {
      var before, t := ts[..|ts| - 1], ts[|ts| - 1];
      AllGeneratedNamed(before);
      AllGeneratedNamed(t.kids);
      GeneratedNamed(ts, t);
      assert TransAll(ts) == TransAll(before) + (TransAll(t.kids) + Level(t));
      NamesOfJoin(TransAll(before), TransAll(t.kids) + Level(t));
      NamesOfJoin(TransAll(t.kids), Level(t));
    }
  }

  lemma NamesOfJoin(a: seq<Dep>, b: seq<Dep>)
    ensures NameSet(a + b) == NameSet(a) + NameSet(b)
  {
    assert forall d :: d in a + b <==> d in a || d in b;
  }

  // The final names of what some trees bring are names of their list.
  lemma GeneratedListed(ts: seq<Tree>)
    ensures GeneratedInAll(ts) <= NameSet(Flat(ts))
  {
    AllGeneratedNamed(ts);
    NamesOfJoin(Tops(ts), TransAll(ts));
  }

  lemma SameNames(names: set<string>, a: seq<Dep>, b: seq<Dep>)
    requires SameRecords(names, a, b)
    ensures NameSet(a) == NameSet(b)
  {
    forall i | 0 <= i < |a|
      ensures a[i].name == b[i].name && a[i] in a && b[i] in b
    {
      assert SameRecord(names, a[i], b[i]);
    }
  }

  lemma SameWellNamed(names: set<string>, a: seq<Dep>, b: seq<Dep>)
    requires SameRecords(names, a, b)
    ensures WellNamed(a) <==> WellNamed(b)
  {
    forall i | 0 <= i < |a|
      ensures a[i] == b[i].(needs := a[i].needs)
    {
      assert SameRecord(names, a[i], b[i]);
    }
    forall i, j | 0 <= i < j < |a|
      ensures Apart(a, i, j) <==> Apart(b, i, j)
    {
    }
    assert forall i :: 0 <= i < |a| ==> (a[i].name != "" <==> b[i].name != "");
  }

  lemma SameResolved(names: set<string>, a: seq<Dep>, b: seq<Dep>, known: set<string>)
    requires SameRecords(names, a, b) && names <= known
    ensures Resolved(a, known) <==> Resolved(b, known)
  {
    forall i, j | 0 <= i < |a| && 0 <= j < |a[i].needs|
      ensures |b[i].needs| == |a[i].needs| && (a[i].needs[j] in known <==> b[i].needs[j] in known)
    {
      assert SameRecord(names, a[i], b[i]);
      assert NeedFurther(names, a[i].needs[j], b[i].needs[j]);
    }
    forall i | 0 <= i < |a|
      ensures |b[i].needs| == |a[i].needs|
    {
      assert SameRecord(names, a[i], b[i]);
    }
  }

  lemma AcceptedAlike(dd: Declaration, ts: seq<Tree>, us: seq<Tree>)
    requires ListsAre(dd, ts, us)
    ensures ValidNames(dd) <==> ValidNames(Declaration(Flat(ts), Flat(us)))
  {
    var flat := Declaration(Flat(ts), Flat(us));
    var direct, all := NameSet(flat.direct), NameSet(flat.All());
    GeneratedListed(ts);
    GeneratedListed(us);
    NamesOfJoin(flat.direct, flat.environment);
    ListSame(ts, dd.direct, direct);
    ListSame(ts, dd.direct, all);
    ListSame(us, dd.environment, all);
    SameJoin(all, dd.direct, flat.direct, dd.environment, flat.environment);
    SameNames(direct, dd.direct, flat.direct);
    SameNames(all, dd.All(), flat.All());
    SameWellNamed(all, dd.All(), flat.All());
    SameResolved(direct, dd.direct, flat.direct, direct);
    SameResolved(all, dd.environment, flat.environment, all);
  }
}
