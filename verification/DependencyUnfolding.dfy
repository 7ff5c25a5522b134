/**
  When resolving succeeds: exactly if the declarations unfold to a finite tree
  of well-formed dependencies in which no repository appears twice.
  */
module DependencyUnfolding {
  import opened DependencyTree

  // Exactly one of repository, chart path and chart repository path is given.
  predicate OneSource(d: Dep) {
    if d.repo != "" then d.chartPath == "" && d.chartRepoPath == "" else (d.chartPath == "") != (d.chartRepoPath == "")
  }

  // A dependency has the name that is declared, or else the one in its chart: that of its repository,
  // the one at its path in the declaring repository, or the one at its path in any repository.
  ghost predicate NamedBy(w: World, d: Dep, home: string, name: string) {
    if d.name != "" then name == d.name
    else if d.repo != "" then d.repo in w.configs && name == w.configs[d.repo].chart
    else if d.chartPath != "" then (home, d.chartPath) in w.charts && name == w.charts[(home, d.chartPath)]
    else ("", d.chartRepoPath) in w.charts && name == w.charts[("", d.chartRepoPath)]
  }

  // t is d with everything that d brings, whatever repositories those are.
  ghost predicate Unfolds(w: World, d: Dep, home: string, t: Tree)
    decreases t
  {
    && OneSource(d)
    && NamedBy(w, d, home, t.dep.name) && t.dep.name != "" && t.dep == d.(name := t.dep.name, parent := "")
    && if d.repo != "" then d.repo in w.configs && UnfoldsAll(w, w.configs[d.repo].direct, d.repo, t.kids)
       else t.kids == [] && !d.branchOptions && (d.chartPath == "" ==> d.chartRepoPath !in w.malformed)
  }

  ghost predicate UnfoldsAll(w: World, ds: seq<Dep>, home: string, ts: seq<Tree>)
    decreases ts
  {
    |ds| == |ts|
    && (ds != [] ==>
          UnfoldsAll(w, ds[..|ds| - 1], home, ts[..|ts| - 1]) && Unfolds(w, ds[|ds| - 1], home, ts[|ts| - 1]))
  }

  lemma {:induction false} ExpandUnfolds(w: World, seen: set<string>, d: Dep, home: string)
    requires Expand(w, seen, d, home).Ok?
    ensures Unfolds(w, d, home, Expand(w, seen, d, home).value.0)
    decreases w.configs.Keys - seen, 0
  {
    if d.repo != "" {
      ExpandAllUnfolds(w, seen + {d.repo}, w.configs[d.repo].direct, d.repo);
    }
  }

  lemma {:induction false} ExpandAllUnfolds(w: World, seen: set<string>, ds: seq<Dep>, home: string)
    requires ExpandAll(w, seen, ds, home).Ok?
    ensures UnfoldsAll(w, ds, home, ExpandAll(w, seen, ds, home).value.0)
    decreases w.configs.Keys - seen, |ds| + 1
  {
    if ds != [] {
      var (ts, s) := ExpandAll(w, seen, ds[..|ds| - 1], home).value;
      var (t, s') := Expand(w, s, ds[|ds| - 1], home).value;
      ExpandAllUnfolds(w, seen, ds[..|ds| - 1], home);
      assert w.configs.Keys - s <= w.configs.Keys - seen;
      ExpandUnfolds(w, s, ds[|ds| - 1], home);
      assert (ts + [t])[..|ts|] == ts;
    }
  }

  // The repositories of one part are new after those of the part before it.
  lemma NewReposSplit(seen: set<string>, a: seq<string>, b: seq<string>, after: set<string>) returns (mid: set<string>)
    requires NewRepos(seen, a + b, after)
    ensures NewRepos(seen, a, mid) && NewRepos(mid, b, after)
  {
    mid := seen + set r | r in a;
    var all := a + b;
    forall i, j | 0 <= i < j < |a|
      ensures a[i] != a[j]
    {
      assert all[i] != all[j];
    }
    forall i, j | 0 <= i < j < |b|
      ensures b[i] != b[j]
    {
      assert all[|a| + i] != all[|a| + j];
    }
    forall r | r in b
      ensures r !in mid
    {
      var j :| 0 <= j < |b| && b[j] == r;
      assert all[|a| + j] == r && r in all;
      forall i | 0 <= i < |a|
        ensures a[i] != r
      {
        assert all[i] != all[|a| + j];
      }
    }
    assert forall r :: r in a || r in b <==> r in all;
  }

  lemma {:induction false} UnfoldsExpands(w: World, seen: set<string>, d: Dep, home: string, t: Tree,
                                          after: set<string>)
    requires Unfolds(w, d, home, t) && NewRepos(seen, Repos(t), after)
    ensures Expand(w, seen, d, home) == Ok((t, after))
    decreases t
  {
    if d.repo != "" {
      assert Repos(t) == [d.repo] + ReposAll(t.kids);
      var mid := NewReposSplit(seen, [d.repo], ReposAll(t.kids), after);
      assert mid == seen + {d.repo} && d.repo in [d.repo];
      UnfoldsAllExpand(w, mid, w.configs[d.repo].direct, d.repo, t.kids, after);
    } else {
      assert Repos(t) == [];
      assert after == seen;
    }
  }

  lemma {:induction false} UnfoldsAllExpand(w: World, seen: set<string>, ds: seq<Dep>, home: string, ts: seq<Tree>,
                                            after: set<string>)
    requires UnfoldsAll(w, ds, home, ts) && NewRepos(seen, ReposAll(ts), after)
    ensures ExpandAll(w, seen, ds, home) == Ok((ts, after))
    decreases ts
  {
    if ds == [] {
      assert after == seen;
    } else {
      var before, t := ts[..|ts| - 1], ts[|ts| - 1];
      var mid := NewReposSplit(seen, ReposAll(before), Repos(t), after);
      UnfoldsAllExpand(w, seen, ds[..|ds| - 1], home, before, mid);
      UnfoldsExpands(w, mid, ds[|ds| - 1], home, t, after);
      assert ts == before + [t];
    }
  }

  // Resolving gives a tree exactly if the tree is what the declarations unfold to and its
  // repositories are distinct and not seen before. A reference graph with a cycle has no such tree.
  lemma ExpandIff(w: World, seen: set<string>, d: Dep, home: string, t: Tree, after: set<string>)
    ensures Expand(w, seen, d, home) == Ok((t, after)) <==> Unfolds(w, d, home, t) && NewRepos(seen, Repos(t), after)
  {
    if Unfolds(w, d, home, t) && NewRepos(seen, Repos(t), after) {
      UnfoldsExpands(w, seen, d, home, t, after);
    }
    if Expand(w, seen, d, home) == Ok((t, after)) {
      ExpandUnfolds(w, seen, d, home);
      ExpandRepos(w, seen, d, home);
    }
  }
}
