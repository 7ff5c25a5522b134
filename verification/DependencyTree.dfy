/**
  What resolving the dependencies of a repository comes to, as a tree: every
  repository dependency brings the direct dependencies that its own acyl.yml
  declares. The records of the resulting flat list carry final names.
  */
module DependencyTree {
  import opened Wrappers

  // One declared dependency. `branchOptions` says that branch matching is disabled or a default
  // branch is set; `needs` is the requires list; `parent` is not read from the file.
  datatype Dep = Dep(
    name: string,
    repo: string,
    chartPath: string,
    chartRepoPath: string,
    branchOptions: bool,
    needs: seq<string>,
    parent: string)

  // A dependency on a repository and nothing else.
  predicate BranchMatchable(d: Dep) {
    d.repo != "" && d.chartPath == "" && d.chartRepoPath == ""
  }

  // What a repository's files hold: its dependencies and the name in its chart ("" if the chart
  // name cannot be found out).
  datatype Config = Config(direct: seq<Dep>, environment: seq<Dep>, chart: string)

  // Everything that can be fetched. A repository whose ref or acyl.yml cannot be had is missing.
  datatype World = World(configs: map<string, Config>, charts: map<(string, string), string>, malformed: set<string>)

  datatype Error =
    | TwoSources | TwoCharts | NoSource | DuplicateRepo | NotFound | NoChartName | BranchOptions | Malformed | BadNames

  datatype Result<+T> = Ok(value: T) | Err(error: Error)

  datatype Tree = Node(dep: Dep, kids: seq<Tree>)

  // Names.

  function Dashes(s: string): string {
    if s == [] then [] else [if s[0] == '/' then '-' else s[0]] + Dashes(s[1..])
  }

  // A text longer than 64 characters is cut to 63.
  function GetName(repo: string): string {
    var s := Dashes(repo);
    if |s| > 64 then s[..63] else s
  }

  function Prefixed(repo: string, name: string): string {
    GetName(repo) + "-" + name
  }

  lemma {:induction false} DashesIs(s: string)
    ensures |Dashes(s)| == |s| && forall i :: 0 <= i < |s| ==> Dashes(s)[i] == if s[i] == '/' then '-' else s[i]
  {
    if s != [] {
      DashesIs(s[1..]);
    }
  }

  // The repository's name with dashes for slashes, to at most 64 characters.
  lemma GetNameIs(repo: string)
    ensures |GetName(repo)| == if |repo| <= 64 then |repo| else 63
    ensures forall i :: 0 <= i < |GetName(repo)| ==> GetName(repo)[i] == if repo[i] == '/' then '-' else repo[i]
  {
    DashesIs(repo);
  }

  lemma PrefixedGrows(repo: string, name: string, other: string)
    ensures Prefixed(repo, name) == GetName(repo) + ['-'] + name
    ensures |Prefixed(repo, name)| > |name|
    ensures Prefixed(repo, name) == Prefixed(repo, other) <==> name == other
  {
    var k := |GetName(repo)| + 1;
    assert Prefixed(repo, name)[k..] == name && Prefixed(repo, other)[k..] == other;
  }

  // Expanding declarations into trees, with the set of repositories seen so far.

  function ChartOf(w: World, home: string, d: Dep): string {
    var key := if d.chartPath != "" then (home, d.chartPath) else ("", d.chartRepoPath);
    if key in w.charts then w.charts[key] else ""
  }

  function Expand(w: World, seen: set<string>, d: Dep, home: string): (r: Result<(Tree, set<string>)>)
    ensures r.Ok? ==> seen <= r.value.1
    decreases w.configs.Keys - seen, 0
  {
    if d.repo != "" && (d.chartPath != "" || d.chartRepoPath != "") then Err(TwoSources)
    else if d.chartPath != "" && d.chartRepoPath != "" then Err(TwoCharts)
    else if d.repo != "" then
      if d.repo in seen then Err(DuplicateRepo)
      else if d.repo !in w.configs then Err(NotFound)
      else
        var config := w.configs[d.repo];
        var name := if d.name != "" then d.name else config.chart;
        if name == "" then Err(NoChartName)
        else
          match ExpandAll(w, seen + {d.repo}, config.direct, d.repo)
          case Err(e) => Err(e)
          case Ok((kids, s)) => Ok((Node(d.(name := name, parent := ""), kids), s))
    else if d.chartPath != "" || d.chartRepoPath != "" then
      if d.branchOptions then Err(BranchOptions)
      else if d.chartPath == "" && d.chartRepoPath in w.malformed then Err(Malformed)
      else
        var name := if d.name != "" then d.name else ChartOf(w, home, d);
        if name == "" then Err(NoChartName) else Ok((Node(d.(name := name, parent := ""), []), seen))
    else Err(NoSource)
  }

  function ExpandAll(w: World, seen: set<string>, ds: seq<Dep>, home: string): (r: Result<(seq<Tree>, set<string>)>)
    ensures r.Ok? ==> seen <= r.value.1 && |r.value.0| == |ds|
    decreases w.configs.Keys - seen, |ds| + 1
  {
    if ds == [] then Ok(([], seen))
    else
      match ExpandAll(w, seen, ds[..|ds| - 1], home)
      case Err(e) => Err(e)
      case Ok((ts, s)) =>
        assert w.configs.Keys - s <= w.configs.Keys - seen;
        match Expand(w, s, ds[|ds| - 1], home)
        case Err(e) => Err(e)
        case Ok((t, s')) => Ok((ts + [t], s'))
  }

  // The records that a tree gives rise to.

  function Names(ts: seq<Tree>): (names: seq<string>)
    ensures |names| == |ts|
  {
    seq(|ts|, i requires 0 <= i < |ts| => ts[i].dep.name)
  }

  function Generated(t: Tree): (names: seq<string>)
    ensures |names| == |t.kids|
  {
    seq(|t.kids|, i requires 0 <= i < |t.kids| => Prefixed(t.dep.repo, t.kids[i].dep.name))
  }

  function NameSetOf(ts: seq<Tree>): set<string> {
    set n | n in Names(ts)
  }

  // What the root of a tree requires before its level is renamed: what is declared, and all that
  // it brings.
  function Needs(t: Tree): seq<string> {
    t.dep.needs + Generated(t)
  }

  // A requirement under its final name, among the names declared by one repository.
  function Subst(repo: string, siblings: seq<string>, r: string): string {
    if r in siblings then Prefixed(repo, r) else r
  }

  function SubstAll(repo: string, siblings: seq<string>, needs: seq<string>): (s: seq<string>)
    ensures |s| == |needs|
  {
    seq(|needs|, j requires 0 <= j < |needs| => Subst(repo, siblings, needs[j]))
  }

  // The record of a direct dependency of the triggering repository.
  function Top(t: Tree): Dep {
    t.dep.(needs := Needs(t))
  }

  // The record of the i-th dependency that t brings, with all its requirements renamed at once.
  function Placed(t: Tree, i: nat): Dep
    requires i < |t.kids|
  {
    var k := t.kids[i];
    k.dep.(
    name := Prefixed(t.dep.repo, k.dep.name),
    needs := SubstAll(t.dep.repo, Names(t.kids), Needs(k)),
    parent := t.dep.name)
  }

  function Level(t: Tree): (ds: seq<Dep>)
    ensures |ds| == |t.kids|
  {
    seq(|t.kids|, i requires 0 <= i < |t.kids| => Placed(t, i))
  }

  function Trans(t: Tree): seq<Dep> {
    TransAll(t.kids) + Level(t)
  }

  function TransAll(ts: seq<Tree>): seq<Dep> {
    if ts == [] then [] else TransAll(ts[..|ts| - 1]) + Trans(ts[|ts| - 1])
  }

  function Tops(ts: seq<Tree>): (ds: seq<Dep>)
    ensures |ds| == |ts|
  {
    seq(|ts|, i requires 0 <= i < |ts| => Top(ts[i]))
  }

  // The flat list for the declarations that expand to ts.
  function Flat(ts: seq<Tree>): seq<Dep> {
    Tops(ts) + TransAll(ts)
  }

  // Every dependency reached appears once.

  function Size(t: Tree): (n: nat)
    ensures n > 0
  {
    1 + SizeAll(t.kids)
  }

  function SizeAll(ts: seq<Tree>): (n: nat)
    ensures n >= |ts|
  {
    if ts == [] then 0 else SizeAll(ts[..|ts| - 1]) + Size(ts[|ts| - 1])
  }

  // The number of dependencies below some trees.
  function Extra(ts: seq<Tree>): nat {
    SizeAll(ts) - |ts|
  }

  lemma {:induction false} TransCounts(t: Tree)
    ensures |Trans(t)| == Size(t) - 1
  {
    TransAllCounts(t.kids);
  }

  lemma {:induction false} TransAllCounts(ts: seq<Tree>)
    ensures |ts| + |TransAll(ts)| == SizeAll(ts)
  {
    if ts != [] {
      TransAllCounts(ts[..|ts| - 1]);
      TransCounts(ts[|ts| - 1]);
    }
  }

  // Repositories.

  function Repos(t: Tree): seq<string> {
    (if t.dep.repo != "" then [t.dep.repo] else []) + ReposAll(t.kids)
  }

  function ReposAll(ts: seq<Tree>): seq<string> {
    if ts == [] then [] else ReposAll(ts[..|ts| - 1]) + Repos(ts[|ts| - 1])
  }

  // The repositories are distinct, new, and now recorded as seen.
  ghost predicate NewRepos(seen: set<string>, repos: seq<string>, after: set<string>) {
    && NoDuplicates(repos)
    && (forall r :: r in repos ==> r !in seen)
    && (forall r :: r in after <==> r in seen || r in repos)
  }

  lemma NewReposJoin(seen: set<string>, a: seq<string>, mid: set<string>, b: seq<string>, after: set<string>)
    requires NewRepos(seen, a, mid) && NewRepos(mid, b, after)
    ensures NewRepos(seen, a + b, after)
  {
    forall i, j | 0 <= i < j < |a + b|
      ensures (a + b)[i] != (a + b)[j]
    {
      if i < |a| <= j {
        assert a[i] in a && b[j - |a|] in b;
      }
    }
  }

  lemma {:induction false} ExpandRepos(w: World, seen: set<string>, d: Dep, home: string)
    requires Expand(w, seen, d, home).Ok?
    ensures var (t, s) := Expand(w, seen, d, home).value; NewRepos(seen, Repos(t), s)
    decreases w.configs.Keys - seen, 0
  {
    if d.repo != "" {
      ExpandAllRepos(w, seen + {d.repo}, w.configs[d.repo].direct, d.repo);
      var (kids, s) := ExpandAll(w, seen + {d.repo}, w.configs[d.repo].direct, d.repo).value;
      NewReposJoin(seen, [d.repo], seen + {d.repo}, ReposAll(kids), s);
    } else {
      assert ReposAll([]) == [];
    }
  }

  lemma {:induction false} ExpandAllRepos(w: World, seen: set<string>, ds: seq<Dep>, home: string)
    requires ExpandAll(w, seen, ds, home).Ok?
    ensures var (ts, s) := ExpandAll(w, seen, ds, home).value; NewRepos(seen, ReposAll(ts), s)
    decreases w.configs.Keys - seen, |ds| + 1
  {
    if ds != [] {
      var (ts, s) := ExpandAll(w, seen, ds[..|ds| - 1], home).value;
      var (t, s') := Expand(w, s, ds[|ds| - 1], home).value;
      ExpandAllRepos(w, seen, ds[..|ds| - 1], home);
      assert w.configs.Keys - s <= w.configs.Keys - seen;
      ExpandRepos(w, s, ds[|ds| - 1], home);
      NewReposJoin(seen, ReposAll(ts), s, Repos(t), s');
      assert (ts + [t])[..|ts|] == ts;
    }
  }
}
