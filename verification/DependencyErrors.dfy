/**
  How resolving fails: with the error of the first offending declaration, in the
  order in which declarations are read.
  */
module DependencyErrors {
  import opened Wrappers
  import opened DependencyTree
  import opened Dependencies

  // Where something is declared: by its number among the declarations of the triggering repository,
  // or among those of the repository declared at the address without the last number.
  type Address = seq<nat>

  // What is declared there, and by which repository.
  function At(w: World, ds: seq<Dep>, home: string, p: Address): Option<(Dep, string)>
    decreases |p|
  {
    if p == [] || p[0] >= |ds| then None
    else if |p| == 1 then Some((ds[p[0]], home))
    else
      var r := ds[p[0]].repo;
      if r == "" || r !in w.configs then None else At(w, w.configs[r].direct, r, p[1..])
  }

  // A repository is read before what it declares, and that before what is declared beside it later.
  predicate Before(p: Address, q: Address) {
    q != [] && (p == [] || p[0] < q[0] || (p[0] == q[0] && Before(p[1..], q[1..])))
  }

  lemma {:induction false} BeforeOrder(p: Address, q: Address)
    ensures p == q || Before(p, q) || Before(q, p)
    ensures Before(p, q) ==> p != q && !Before(q, p)
  {
    if p != [] && q != [] {
      BeforeOrder(p[1..], q[1..]);
      assert p == [p[0]] + p[1..] && q == [q[0]] + q[1..];
    }
  }

  ghost predicate DeclaredAt(w: World, ds: seq<Dep>, home: string, q: Address, repo: string) {
    repo != "" && At(w, ds, home, q).Some? && At(w, ds, home, q).value.0.repo == repo
  }

  ghost predicate Declared(w: World, ds: seq<Dep>, home: string, repo: string) {
    exists q :: DeclaredAt(w, ds, home, q, repo)
  }

  ghost predicate DeclaredBefore(w: World, ds: seq<Dep>, home: string, p: Address, repo: string, q: Address) {
    Before(q, p) && DeclaredAt(w, ds, home, q, repo)
  }

  // The repository has been seen before anything was read, or is declared at an earlier address.
  ghost predicate Had(w: World, seen: set<string>, ds: seq<Dep>, home: string, p: Address, repo: string) {
    repo in seen || exists q :: DeclaredBefore(w, ds, home, p, repo, q)
  }

  predicate ChartOnly(d: Dep) {
    d.repo == "" && (d.chartPath == "") != (d.chartRepoPath == "")
  }

  // The chart, in the declaring repository or anywhere, has no name.
  predicate Nameless(w: World, home: string, d: Dep) {
    if d.chartPath != "" then (home, d.chartPath) in w.charts ==> w.charts[(home, d.chartPath)] == ""
    else ("", d.chartRepoPath) in w.charts ==> w.charts[("", d.chartRepoPath)] == ""
  }

  // What each error is about, for the declaration d of the repository home; had says that d's
  // repository has been had.
  predicate Offence(w: World, d: Dep, home: string, had: bool, e: Error) {
    match e
    case TwoSources => d.repo != "" && (d.chartPath != "" || d.chartRepoPath != "")
    case TwoCharts => d.repo == "" && d.chartPath != "" && d.chartRepoPath != ""
    case NoSource => d.repo == "" && d.chartPath == "" && d.chartRepoPath == ""
    case DuplicateRepo => BranchMatchable(d) && had
    case NotFound => BranchMatchable(d) && !had && d.repo !in w.configs
    case NoChartName =>
      d.name == "" &&
      if BranchMatchable(d) then !had && d.repo in w.configs && w.configs[d.repo].chart == ""
      else ChartOnly(d) && !d.branchOptions && !MalformedPath(w, d) && Nameless(w, home, d)
    case BranchOptions => ChartOnly(d) && d.branchOptions
    case Malformed => ChartOnly(d) && !d.branchOptions && MalformedPath(w, d)
    case BadNames => false
  }

  predicate MalformedPath(w: World, d: Dep) {
    d.chartPath == "" && d.chartRepoPath in w.malformed
  }

  ghost predicate Offends(w: World, seen: set<string>, ds: seq<Dep>, home: string, p: Address, e: Error) {
    At(w, ds, home, p).Some? &&
    var (d, h) := At(w, ds, home, p).value;
    Offence(w, d, h, Had(w, seen, ds, home, p, d.repo), e)
  }

  ghost predicate Clean(w: World, seen: set<string>, ds: seq<Dep>, home: string, p: Address) {
    forall e :: !Offends(w, seen, ds, home, p, e)
  }

  ghost predicate FirstOffence(w: World, seen: set<string>, ds: seq<Dep>, home: string, p: Address, e: Error) {
    Offends(w, seen, ds, home, p, e) && forall q :: Before(q, p) ==> Clean(w, seen, ds, home, q)
  }

  // The seen repositories afterwards are those seen before and those declared.
  ghost predicate Known(w: World, seen: set<string>, ds: seq<Dep>, home: string, after: set<string>) {
    forall r :: r in after <==> r in seen || Declared(w, ds, home, r)
  }

  // One more declaration.

  predicate InLast(before: seq<Dep>, p: Address) {
    p != [] && p[0] == |before|
  }

  predicate InBefore(before: seq<Dep>, p: Address) {
    p == [] || p[0] < |before|
  }

  // An address within the last declaration, seen from there.
  function Inner(p: Address): Address
    requires p != []
  {
    [0] + p[1..]
  }

  lemma AtEarlier(w: World, before: seq<Dep>, d: Dep, home: string, p: Address)
    requires InBefore(before, p)
    ensures At(w, before + [d], home, p) == At(w, before, home, p)
  {
  }

  lemma AtLast(w: World, before: seq<Dep>, d: Dep, home: string, p: Address)
    requires InLast(before, p)
    ensures At(w, before + [d], home, p) == At(w, [d], home, Inner(p))
  {
    assert Inner(p)[1..] == p[1..];
  }

  lemma HadEarlier(w: World, seen: set<string>, before: seq<Dep>, d: Dep, home: string, p: Address, r: string)
    requires InBefore(before, p)
    ensures Had(w, seen, before + [d], home, p, r) <==> Had(w, seen, before, home, p, r)
  {
    forall q | Before(q, p)
      ensures DeclaredBefore(w, before + [d], home, p, r, q) <==> DeclaredBefore(w, before, home, p, r, q)
    {
      AtEarlier(w, before, d, home, q);
    }
  }

  lemma HadLast(w: World, seen: set<string>, before: seq<Dep>, d: Dep, home: string, p: Address, r: string,
                s: set<string>)
    requires InLast(before, p) && Known(w, seen, before, home, s)
    ensures Had(w, seen, before + [d], home, p, r) <==> Had(w, s, [d], home, Inner(p), r)
  {
    if q :| DeclaredBefore(w, before + [d], home, p, r, q) {
      if InBefore(before, q) {
        AtEarlier(w, before, d, home, q);
        assert DeclaredAt(w, before, home, q, r);
      } else {
        AtLast(w, before, d, home, q);
        assert DeclaredBefore(w, [d], home, Inner(p), r, Inner(q));
      }
    }
    if q :| DeclaredAt(w, before, home, q, r) {
      AtEarlier(w, before, d, home, q);
      assert DeclaredBefore(w, before + [d], home, p, r, q);
    }
    if q :| DeclaredBefore(w, [d], home, Inner(p), r, q) {
      var outer := [|before|] + q[1..];
      assert outer[1..] == q[1..] && Inner(outer) == q;
      AtLast(w, before, d, home, outer);
      assert DeclaredBefore(w, before + [d], home, p, r, outer);
    }
  }

  lemma OffendsEarlier(w: World, seen: set<string>, before: seq<Dep>, d: Dep, home: string, p: Address, e: Error)
    requires InBefore(before, p)
    ensures Offends(w, seen, before + [d], home, p, e) <==> Offends(w, seen, before, home, p, e)
  {
    AtEarlier(w, before, d, home, p);
    if At(w, before, home, p).Some? {
      HadEarlier(w, seen, before, d, home, p, At(w, before, home, p).value.0.repo);
    }
  }

  lemma OffendsLast(w: World, seen: set<string>, before: seq<Dep>, d: Dep, home: string, p: Address, e: Error,
                    s: set<string>)
    requires InLast(before, p) && Known(w, seen, before, home, s)
    ensures Offends(w, seen, before + [d], home, p, e) <==> Offends(w, s, [d], home, Inner(p), e)
  {
    AtLast(w, before, d, home, p);
    if At(w, before + [d], home, p).Some? {
      HadLast(w, seen, before, d, home, p, At(w, before + [d], home, p).value.0.repo, s);
    }
  }

  // One repository further in.

  lemma AtBelow(w: World, d: Dep, home: string, p: Address)
    requires BranchMatchable(d) && d.repo in w.configs && p != []
    ensures At(w, [d], home, [0] + p) == At(w, w.configs[d.repo].direct, d.repo, p)
  {
    assert ([0] + p)[1..] == p;
  }

  lemma HadBelow(w: World, seen: set<string>, d: Dep, home: string, p: Address, r: string)
    requires BranchMatchable(d) && d.repo in w.configs && p != []
    ensures Had(w, seen, [d], home, [0] + p, r) <==> Had(w, seen + {d.repo}, w.configs[d.repo].direct, d.repo, p, r)
  {
    var ds := w.configs[d.repo].direct;
    assert ([0] + p)[1..] == p;
    if q :| DeclaredBefore(w, [d], home, [0] + p, r, q) {
      if q != [0] {
        assert q == [0] + q[1..];
        AtBelow(w, d, home, q[1..]);
        assert DeclaredBefore(w, ds, d.repo, p, r, q[1..]);
      }
    }
    if q :| DeclaredBefore(w, ds, d.repo, p, r, q) {
      AtBelow(w, d, home, q);
      assert ([0] + q)[1..] == q;
      assert DeclaredBefore(w, [d], home, [0] + p, r, [0] + q);
    }
    if r == d.repo {
      assert DeclaredBefore(w, [d], home, [0] + p, r, [0]);
    }
  }

  lemma OffendsBelow(w: World, seen: set<string>, d: Dep, home: string, p: Address, e: Error)
    requires BranchMatchable(d) && d.repo in w.configs && p != []
    ensures Offends(w, seen, [d], home, [0] + p, e)
            <==> Offends(w, seen + {d.repo}, w.configs[d.repo].direct, d.repo, p, e)
  {
    AtBelow(w, d, home, p);
    if At(w, [d], home, [0] + p).Some? {
      HadBelow(w, seen, d, home, p, At(w, [d], home, [0] + p).value.0.repo);
    }
  }

  // What resolving comes to, in these terms.
  ghost predicate ResultIs<T>(w: World, seen: set<string>, ds: seq<Dep>, home: string, r: Result<(T, set<string>)>) {
    match r
    case Ok((_, s)) => (forall p :: Clean(w, seen, ds, home, p)) && Known(w, seen, ds, home, s)
    case Err(e) => exists p :: FirstOffence(w, seen, ds, home, p, e)
  }

  lemma NothingBefore(q: Address)
    ensures Before(q, [0]) ==> q == []
  {
    var first: Address := [0];
    assert q != [] ==> !Before(q[1..], first[1..]);
  }

  // One declaration by itself.

  lemma OffendsAlone(w: World, seen: set<string>, d: Dep, home: string, e: Error)
    ensures Offends(w, seen, [d], home, [0], e) <==> Offence(w, d, home, d.repo in seen, e)
  {
    forall q | Before(q, [0])
      ensures q == []
    {
      NothingBefore(q);
    }
  }

  lemma FirstAlone(w: World, seen: set<string>, d: Dep, home: string, e: Error)
    requires Offence(w, d, home, d.repo in seen, e)
    ensures Expand(w, seen, d, home) == Err(e)
    ensures FirstOffence(w, seen, [d], home, [0], e)
  {
    OffendsAlone(w, seen, d, home, e);
    forall q | Before(q, [0])
      ensures Clean(w, seen, [d], home, q)
    {
      NothingBefore(q);
    }
  }

  ghost predicate Faultless(w: World, seen: set<string>, d: Dep, home: string) {
    forall e :: !Offence(w, d, home, d.repo in seen, e)
  }

  lemma FaultlessExpands(w: World, seen: set<string>, d: Dep, home: string)
    requires Faultless(w, seen, d, home)
    ensures if d.repo == "" then Expand(w, seen, d, home).Ok? && Expand(w, seen, d, home).value.1 == seen
            else BranchMatchable(d) && d.repo !in seen && d.repo in w.configs &&
                 match ExpandAll(w, seen + {d.repo}, w.configs[d.repo].direct, d.repo)
                 case Err(e) => Expand(w, seen, d, home) == Err(e)
                 case Ok((_, s)) => Expand(w, seen, d, home).Ok? && Expand(w, seen, d, home).value.1 == s
  {
    var had := d.repo in seen;
    assert !Offence(w, d, home, had, TwoSources) && !Offence(w, d, home, had, TwoCharts);
    assert !Offence(w, d, home, had, NoSource) && !Offence(w, d, home, had, DuplicateRepo);
    assert !Offence(w, d, home, had, NotFound) && !Offence(w, d, home, had, NoChartName);
    assert !Offence(w, d, home, had, BranchOptions) && !Offence(w, d, home, had, Malformed);
  }

  lemma CleanFirst(w: World, seen: set<string>, d: Dep, home: string)
    requires Faultless(w, seen, d, home)
    ensures Clean(w, seen, [d], home, []) && Clean(w, seen, [d], home, [0])
  {
    forall e
      ensures !Offends(w, seen, [d], home, [0], e)
    {
      OffendsAlone(w, seen, d, home, e);
    }
  }

  lemma ChartResult(w: World, seen: set<string>, d: Dep, home: string)
    requires Faultless(w, seen, d, home) && d.repo == ""
    ensures ResultIs(w, seen, [d], home, Expand(w, seen, d, home))
  {
    FaultlessExpands(w, seen, d, home);
    CleanFirst(w, seen, d, home);
    forall p: Address
      ensures At(w, [d], home, p).Some? ==> p == [0]
    {
    }
  }

  // An address in d is d's own, or one of what its repository declares.
  lemma WhereIn(w: World, d: Dep, home: string, p: Address)
    requires At(w, [d], home, p).Some?
    ensures p == [0] || (p[1..] != [] && p == [0] + p[1..])
  {
  }

  lemma CleanBelow(w: World, seen: set<string>, d: Dep, home: string, p: Address)
    requires Faultless(w, seen, d, home) && BranchMatchable(d) && d.repo in w.configs && p != []
    ensures Clean(w, seen, [d], home, [0] + p) <==> Clean(w, seen + {d.repo}, w.configs[d.repo].direct, d.repo, p)
  {
    var ds := w.configs[d.repo].direct;
    forall e
      ensures Offends(w, seen, [d], home, [0] + p, e) <==> Offends(w, seen + {d.repo}, ds, d.repo, p, e)
    {
      OffendsBelow(w, seen, d, home, p, e);
    }
  }

  lemma KnownBelow(w: World, seen: set<string>, d: Dep, home: string, after: set<string>)
    requires BranchMatchable(d) && d.repo in w.configs
    requires Known(w, seen + {d.repo}, w.configs[d.repo].direct, d.repo, after)
    ensures Known(w, seen, [d], home, after)
  {
    var ds := w.configs[d.repo].direct;
    assert DeclaredAt(w, [d], home, [0], d.repo);
    forall r
      ensures Declared(w, [d], home, r) <==> r == d.repo || Declared(w, ds, d.repo, r)
    {
      if q :| DeclaredAt(w, [d], home, q, r) {
        WhereIn(w, d, home, q);
        if q != [0] {
          AtBelow(w, d, home, q[1..]);
          assert DeclaredAt(w, ds, d.repo, q[1..], r);
        }
      }
      if q :| DeclaredAt(w, ds, d.repo, q, r) {
        AtBelow(w, d, home, q);
        assert DeclaredAt(w, [d], home, [0] + q, r);
      }
    }
  }

  lemma FirstBelow(w: World, seen: set<string>, d: Dep, home: string, p: Address, e: Error)
    requires Faultless(w, seen, d, home) && BranchMatchable(d) && d.repo in w.configs
    requires FirstOffence(w, seen + {d.repo}, w.configs[d.repo].direct, d.repo, p, e)
    ensures FirstOffence(w, seen, [d], home, [0] + p, e)
  {
    OffendsBelow(w, seen, d, home, p, e);
    CleanFirst(w, seen, d, home);
    assert ([0] + p)[1..] == p;
    forall q | Before(q, [0] + p)
      ensures Clean(w, seen, [d], home, q)
    {
      if At(w, [d], home, q).Some? && q != [0] {
        WhereIn(w, d, home, q);
        CleanBelow(w, seen, d, home, q[1..]);
      }
    }
  }

  lemma RepoResult(w: World, seen: set<string>, d: Dep, home: string)
    requires Faultless(w, seen, d, home) && d.repo != ""
    requires d.repo in w.configs ==>
               var ds := w.configs[d.repo].direct;
               ResultIs(w, seen + {d.repo}, ds, d.repo, ExpandAll(w, seen + {d.repo}, ds, d.repo))
    ensures ResultIs(w, seen, [d], home, Expand(w, seen, d, home))
  {
    FaultlessExpands(w, seen, d, home);
    var ds := w.configs[d.repo].direct;
    match ExpandAll(w, seen + {d.repo}, ds, d.repo) {
      case Err(e) =>
        var p :| FirstOffence(w, seen + {d.repo}, ds, d.repo, p, e);
        FirstBelow(w, seen, d, home, p, e);
      case Ok((_, s)) =>
        KnownBelow(w, seen, d, home, s);
        CleanFirst(w, seen, d, home);
        forall p
          ensures Clean(w, seen, [d], home, p)
        {
          if At(w, [d], home, p).Some? && p != [0] {
            WhereIn(w, d, home, p);
            CleanBelow(w, seen, d, home, p[1..]);
          }
        }
    }
  }

  // Declarations side by side.

  lemma CleanEarlier(w: World, seen: set<string>, before: seq<Dep>, d: Dep, home: string, p: Address)
    requires InBefore(before, p)
    ensures Clean(w, seen, before + [d], home, p) <==> Clean(w, seen, before, home, p)
  {
    forall e
      ensures Offends(w, seen, before + [d], home, p, e) <==> Offends(w, seen, before, home, p, e)
    {
      OffendsEarlier(w, seen, before, d, home, p, e);
    }
  }

  lemma CleanLast(w: World, seen: set<string>, before: seq<Dep>, d: Dep, home: string, p: Address, s: set<string>)
    requires InLast(before, p) && Known(w, seen, before, home, s)
    ensures Clean(w, seen, before + [d], home, p) <==> Clean(w, s, [d], home, Inner(p))
  {
    forall e
      ensures Offends(w, seen, before + [d], home, p, e) <==> Offends(w, s, [d], home, Inner(p), e)
    {
      OffendsLast(w, seen, before, d, home, p, e, s);
    }
  }

  lemma FirstEarlier(w: World, seen: set<string>, before: seq<Dep>, d: Dep, home: string, p: Address, e: Error)
    requires FirstOffence(w, seen, before, home, p, e)
    ensures FirstOffence(w, seen, before + [d], home, p, e)
  {
    OffendsEarlier(w, seen, before, d, home, p, e);
    forall q | Before(q, p)
      ensures Clean(w, seen, before + [d], home, q)
    {
      CleanEarlier(w, seen, before, d, home, q);
    }
  }

  lemma FirstLast(w: World, seen: set<string>, before: seq<Dep>, d: Dep, home: string, p: Address, e: Error,
                  s: set<string>) returns (outer: Address)
    requires Known(w, seen, before, home, s) && (forall q :: Clean(w, seen, before, home, q))
    requires FirstOffence(w, s, [d], home, p, e)
    ensures FirstOffence(w, seen, before + [d], home, outer, e)
  {
    outer := [|before|] + p[1..];
    assert outer[1..] == p[1..] && Inner(outer) == p;
    OffendsLast(w, seen, before, d, home, outer, e, s);
    forall q | Before(q, outer)
      ensures Clean(w, seen, before + [d], home, q)
    {
      if InBefore(before, q) {
        CleanEarlier(w, seen, before, d, home, q);
      } else {
        CleanLast(w, seen, before, d, home, q, s);
      }
    }
  }

  lemma KnownMore(w: World, seen: set<string>, before: seq<Dep>, d: Dep, home: string, mid: set<string>,
                  after: set<string>)
    requires Known(w, seen, before, home, mid) && Known(w, mid, [d], home, after)
    ensures Known(w, seen, before + [d], home, after)
  {
    forall r
      ensures Declared(w, before + [d], home, r) <==> Declared(w, before, home, r) || Declared(w, [d], home, r)
    {
      if q :| DeclaredAt(w, before + [d], home, q, r) {
        if InBefore(before, q) {
          AtEarlier(w, before, d, home, q);
          assert DeclaredAt(w, before, home, q, r);
        } else {
          AtLast(w, before, d, home, q);
          assert DeclaredAt(w, [d], home, Inner(q), r);
        }
      }
      if q :| DeclaredAt(w, before, home, q, r) {
        AtEarlier(w, before, d, home, q);
        assert DeclaredAt(w, before + [d], home, q, r);
      }
      if q :| DeclaredAt(w, [d], home, q, r) {
        var outer := [|before|] + q[1..];
        assert outer[1..] == q[1..] && Inner(outer) == q;
        AtLast(w, before, d, home, outer);
        assert DeclaredAt(w, before + [d], home, outer, r);
      }
    }
  }

  lemma {:induction false} ExpandResult(w: World, seen: set<string>, d: Dep, home: string)
    ensures ResultIs(w, seen, [d], home, Expand(w, seen, d, home))
    decreases w.configs.Keys - seen, 0
  {
    if e :| Offence(w, d, home, d.repo in seen, e) {
      FirstAlone(w, seen, d, home, e);
    } else if d.repo == "" {
      ChartResult(w, seen, d, home);
    } else {
      FaultlessExpands(w, seen, d, home);
      ExpandAllResult(w, seen + {d.repo}, w.configs[d.repo].direct, d.repo);
      RepoResult(w, seen, d, home);
    }
  }

  // Resolving succeeds with no declaration offending, and else fails with the first offence.
  lemma {:induction false} ExpandAllResult(w: World, seen: set<string>, ds: seq<Dep>, home: string)
    ensures ResultIs(w, seen, ds, home, ExpandAll(w, seen, ds, home))
    decreases w.configs.Keys - seen, |ds| + 1
  {
    if ds != [] {
      var before, d := ds[..|ds| - 1], ds[|ds| - 1];
      assert ds == before + [d];
      ExpandAllResult(w, seen, before, home);
      match ExpandAll(w, seen, before, home) {
        case Err(e) =>
          var p :| FirstOffence(w, seen, before, home, p, e);
          FirstEarlier(w, seen, before, d, home, p, e);
        case Ok((_, s)) =>
          assert w.configs.Keys - s <= w.configs.Keys - seen;
          ExpandResult(w, s, d, home);
          LastResult(w, seen, before, d, home, s);
      }
    }
  }

  lemma LastResult(w: World, seen: set<string>, before: seq<Dep>, d: Dep, home: string, s: set<string>)
    requires ExpandAll(w, seen, before, home).Ok? && ExpandAll(w, seen, before, home).value.1 == s
    requires ResultIs(w, seen, before, home, ExpandAll(w, seen, before, home))
    requires ResultIs(w, s, [d], home, Expand(w, s, d, home))
    ensures ResultIs(w, seen, before + [d], home, ExpandAll(w, seen, before + [d], home))
  {
    assert (before + [d])[..|before|] == before;
    match Expand(w, s, d, home) {
      case Err(e) =>
        var p :| FirstOffence(w, s, [d], home, p, e);
        var outer := FirstLast(w, seen, before, d, home, p, e, s);
      case Ok((_, after)) =>
        KnownMore(w, seen, before, d, home, s, after);
        forall p
          ensures Clean(w, seen, before + [d], home, p)
        {
          if InBefore(before, p) {
            CleanEarlier(w, seen, before, d, home, p);
          } else if InLast(before, p) {
            CleanLast(w, seen, before, d, home, p, s);
          }
        }
    }
  }

  // There is one first offence, and it is one error.
  lemma OneFirst(w: World, seen: set<string>, ds: seq<Dep>, home: string, p: Address, e: Error, q: Address, f: Error)
    requires FirstOffence(w, seen, ds, home, p, e) && FirstOffence(w, seen, ds, home, q, f)
    ensures p == q && e == f
  {
    BeforeOrder(p, q);
  }

  lemma ExpandJoin(w: World, seen: set<string>, a: seq<Dep>, b: seq<Dep>, home: string)
    ensures match ExpandAll(w, seen, a, home)
            case Err(e) => ExpandAll(w, seen, a + b, home) == Err(e)
            case Ok((ts, s)) =>
              match ExpandAll(w, s, b, home)
              case Err(e) => ExpandAll(w, seen, a + b, home) == Err(e)
              case Ok((us, s')) => ExpandAll(w, seen, a + b, home) == Ok((ts + us, s'))
    decreases |b|
  {
    if b == [] {
      assert a + b == a;
      if ExpandAll(w, seen, a, home).Ok? {
        var (ts, s) := ExpandAll(w, seen, a, home).value;
        assert ts + [] == ts;
      }
    } else {
      assert (a + b)[..|a + b| - 1] == a + b[..|b| - 1];
      ExpandJoin(w, seen, a, b[..|b| - 1], home);
      forall ts: seq<Tree>, us: seq<Tree>, t
        ensures (ts + us) + [t] == ts + (us + [t])
      {
      }
    }
  }

  // The triggering repository refers to itself, or something that it refers to does: along an
  // address, a repository is declared that has been on the way.
  ghost predicate CircleAt(w: World, repo: string, ds: seq<Dep>, p: Address, q: Address) {
    && q < p && At(w, ds, repo, p).Some?
    && var r := At(w, ds, repo, p).value.0.repo;
       r != "" && if q == [] then r == repo else DeclaredAt(w, ds, repo, q, r)
  }

  lemma {:induction false} BeginningBefore(q: Address, p: Address)
    requires q < p
    ensures Before(q, p)
  {
    if q != [] {
      BeginningBefore(q[1..], p[1..]);
    }
  }

  // A circle makes resolving fail; if nothing else is wrong, with the error for a repeated repository.
  lemma CircleFails(w: World, repo: string, ds: seq<Dep>, p: Address, q: Address)
    requires CircleAt(w, repo, ds, p, q)
    ensures ExpandAll(w, {repo}, ds, repo).Err?
    ensures (forall x, e :: Offends(w, {repo}, ds, repo, x, e) ==> e == DuplicateRepo)
            ==> ExpandAll(w, {repo}, ds, repo) == Err(DuplicateRepo)
  {
    ExpandAllResult(w, {repo}, ds, repo);
    BeginningBefore(q, p);
    var (d, h) := At(w, ds, repo, p).value;
    assert q != [] ==> DeclaredBefore(w, ds, repo, p, d.repo, q);
    assert Offends(w, {repo}, ds, repo, p, if BranchMatchable(d) then DuplicateRepo else TwoSources);
    assert !Clean(w, {repo}, ds, repo, p);
  }

  // The result of resolving the triggering repository: its first offence, or none at all.
  ghost predicate ErrorIs<T>(w: World, repo: string, r: Result<T>) {
    if repo !in w.configs then r == Err(NotFound)
    else
      var ds := w.configs[repo].direct + w.configs[repo].environment;
      && (forall e :: e != BadNames ==> (r == Err(e) <==> exists p :: FirstOffence(w, {repo}, ds, repo, p, e)))
      && (r.Ok? || r == Err(BadNames) <==> forall p :: Clean(w, {repo}, ds, repo, p))
  }

  lemma ErrorIsFirst<T>(w: World, repo: string, r: Result<T>)
    requires repo in w.configs
    requires var ds := w.configs[repo].direct + w.configs[repo].environment;
             match ExpandAll(w, {repo}, ds, repo)
             case Err(e) => r == Err(e)
             case Ok(_) => r.Ok? || r == Err(BadNames)
    ensures ErrorIs(w, repo, r)
  {
    var ds := w.configs[repo].direct + w.configs[repo].environment;
    ExpandAllResult(w, {repo}, ds, repo);
    match ExpandAll(w, {repo}, ds, repo) {
      case Err(e) =>
        var p :| FirstOffence(w, {repo}, ds, repo, p, e);
        assert !Clean(w, {repo}, ds, repo, p);
        forall q, f | FirstOffence(w, {repo}, ds, repo, q, f)
          ensures f == e
        {
          OneFirst(w, {repo}, ds, repo, p, e, q, f);
        }
      case Ok(_) =>
        forall q, f
          ensures !FirstOffence(w, {repo}, ds, repo, q, f)
        {
          assert Clean(w, {repo}, ds, repo, q);
        }
    }
  }
}
