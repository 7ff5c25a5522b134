/**
  The two trees built from a resolved configuration: the progress tree of an
  event, which maps every dependency to its parent, and the tree shown on the
  terminal, which is grown until every dependency has a node.
  */
module ProgressTree {
  import opened Wrappers
  import opened DependencyTree
  import opened RepoConfig
  import opened DependencyGraph

  // The last dependency that requires n.
  function Requirer(ds: seq<Dep>, n: string): Option<string> {
    if ds == [] then None
    else if n in ds[|ds| - 1].needs then Some(ds[|ds| - 1].name)
    else Requirer(ds[..|ds| - 1], n)
  }

  // Where n is required, and not by a later dependency any more.
  ghost predicate LastRequirer(ds: seq<Dep>, n: string, i: nat) {
    i < |ds| && n in ds[i].needs && forall k :: i < k < |ds| ==> n !in ds[k].needs
  }

  lemma {:induction false} RequirerLast(ds: seq<Dep>, n: string, i: nat)
    requires LastRequirer(ds, n, i)
    ensures Requirer(ds, n) == Some(ds[i].name)
  {
    if i < |ds| - 1 {
      RequirerLast(ds[..|ds| - 1], n, i);
    }
  }

  lemma {:induction false} RequirerIs(ds: seq<Dep>, n: string)
    ensures Requirer(ds, n).Some? <==> IsRequired(n, ds)
    ensures Requirer(ds, n).Some? ==> exists i: nat :: LastRequirer(ds, n, i) && ds[i].name == Requirer(ds, n).value
    ensures Requirer(ds, n).Some? ==> exists d :: d in ds && d.name == Requirer(ds, n).value && n in d.needs
  {
    if ds != [] {
      var before, last := ds[..|ds| - 1], ds[|ds| - 1];
      RequirerIs(before, n);
      if IsRequired(n, ds) {
        var i, j :| 0 <= i < |ds| && 0 <= j < |ds[i].needs| && ds[i].needs[j] == n;
        if i < |before| {
          RequiredAt(before, i, j);
        }
      }
      if n in last.needs {
        var j :| 0 <= j < |last.needs| && last.needs[j] == n;
        RequiredAt(ds, |ds| - 1, j);
        assert LastRequirer(ds, n, |ds| - 1);
      } else if IsRequired(n, before) {
        RequiredIn(n, before, ds);
        var i: nat :| LastRequirer(before, n, i) && before[i].name == Requirer(before, n).value;
        assert LastRequirer(ds, n, i);
      }
    }
  }

  // The map from each required name to its last requirer.
  method RequirerMap(ds: seq<Dep>) returns (reqmap: map<string, string>)
    ensures forall n :: n in reqmap <==> IsRequired(n, ds)
    ensures forall n, i: nat :: LastRequirer(ds, n, i) ==> n in reqmap && reqmap[n] == ds[i].name
    ensures forall n :: Requirer(ds, n) == if n in reqmap then Some(reqmap[n]) else None
  {
    reqmap := map[];
    for i := 0 to |ds|
      invariant forall n :: Requirer(ds[..i], n) == if n in reqmap then Some(reqmap[n]) else None
    {
      assert ds[..i + 1][..i] == ds[..i];
      ghost var before := reqmap;
      for j := 0 to |ds[i].needs|
        invariant forall n :: n in reqmap <==> n in before || n in ds[i].needs[..j]
        invariant forall n :: n in reqmap ==> reqmap[n] == if n in ds[i].needs[..j] then ds[i].name else before[n]
      {
        assert ds[i].needs[..j + 1] == ds[i].needs[..j] + [ds[i].needs[j]];
        reqmap := reqmap[ds[i].needs[j] := ds[i].name];
      }
      assert ds[i].needs[..|ds[i].needs|] == ds[i].needs;
    }
    assert ds[..|ds|] == ds;
    forall n
      ensures Requirer(ds, n).Some? <==> IsRequired(n, ds)
    {
      RequirerIs(ds, n);
    }
    forall n, i: nat | LastRequirer(ds, n, i)
      ensures Requirer(ds, n) == Some(ds[i].name)
    {
      RequirerLast(ds, n, i);
    }
  }

  // The progress tree.

  function ParentName(ds: seq<Dep>, root: string, d: Dep): string {
    var p := match Requirer(ds, d.name) case Some(r) => r case None => d.parent;
    if p == "" then root else p
  }

  // p is the name of the last dependency that requires d, or, if none does, d's noted parent.
  ghost predicate HangsFrom(ds: seq<Dep>, d: Dep, p: string) {
    && (forall i: nat :: LastRequirer(ds, d.name, i) ==> p == ds[i].name)
    && (!IsRequired(d.name, ds) ==> p == d.parent)
  }

  // Without a name to hang below, it is the root.
  ghost predicate HangsBelow(ds: seq<Dep>, root: string, d: Dep, p: string) {
    if HangsFrom(ds, d, "") then p == root else HangsFrom(ds, d, p)
  }

  lemma HangsFromIs(ds: seq<Dep>, d: Dep, p: string)
    ensures HangsFrom(ds, d, p) <==> p == match Requirer(ds, d.name) case Some(r) => r case None => d.parent
  {
    RequirerIs(ds, d.name);
    forall i: nat | LastRequirer(ds, d.name, i)
      ensures Requirer(ds, d.name) == Some(ds[i].name)
    {
      RequirerLast(ds, d.name, i);
    }
  }

  lemma ParentNameBelow(ds: seq<Dep>, root: string, d: Dep)
    ensures HangsBelow(ds, root, d, ParentName(ds, root, d))
  {
    HangsFromIs(ds, d, "");
    HangsFromIs(ds, d, ParentName(ds, root, d));
  }

  // The nodes of the first k dependencies; a later one of the same name replaces the earlier.
  function Nodes(ds: seq<Dep>, root: string, k: nat): map<string, string>
    requires k <= |ds|
  {
    if k == 0 then map[root := ""] else Nodes(ds, root, k - 1)[ds[k - 1].name := ParentName(ds, root, ds[k - 1])]
  }

  // The last dependency of its name among the first k.
  ghost predicate LastNamed(ds: seq<Dep>, k: nat, i: nat) {
    i < k <= |ds| && forall j :: i < j < k ==> ds[j].name != ds[i].name
  }

  // Each name has the node of the last dependency of that name, below its requirer, parent or the root.
  ghost predicate TreeOf(ds: seq<Dep>, root: string, tree: map<string, string>) {
    && tree.Keys == NameSet(ds) + {root}
    && (root !in NameSet(ds) ==> tree[root] == "")
    && forall i: nat :: LastNamed(ds, |ds|, i) ==> ds[i].name in tree && HangsBelow(ds, root, ds[i], tree[ds[i].name])
  }

  lemma NodesTree(ds: seq<Dep>, root: string)
    ensures TreeOf(ds, root, Nodes(ds, root, |ds|))
  {
    NodeKeys(ds, root, |ds|);
    assert ds[..|ds|] == ds;
    if root !in NameSet(ds) {
      RootStays(ds, root, |ds|);
    }
    forall i: nat | LastNamed(ds, |ds|, i)
      ensures ds[i].name in Nodes(ds, root, |ds|)
      ensures HangsBelow(ds, root, ds[i], Nodes(ds, root, |ds|)[ds[i].name])
    {
      NodeOf(ds, root, |ds|, i);
      ParentNameBelow(ds, root, ds[i]);
    }
  }

  method SetInitialStatus(repo: string, dd: Declaration) returns (tree: map<string, string>)
    ensures TreeOf(dd.All(), GetName(repo), tree)
    ensures tree == Nodes(dd.All(), GetName(repo), |dd.All()|)
  {
    var ds, root := dd.All(), GetName(repo);
    tree := map[root := ""];
    var reqmap := RequirerMap(ds);
    for i := 0 to |ds|
      invariant tree == Nodes(ds, root, i)
    {
      var p := ds[i].parent;
      if ds[i].name in reqmap {
        p := reqmap[ds[i].name];
      }
      if p == "" {
        p := root;
      }
      tree := tree[ds[i].name := p];
    }
    NodesTree(ds, root);
  }

  lemma NameSetMore(a: seq<Dep>, d: Dep)
    ensures NameSet(a + [d]) == NameSet(a) + {d.name}
  {
    assert forall x :: x in a + [d] <==> x in a || x == d;
  }

  lemma {:induction false} NodeKeys(ds: seq<Dep>, root: string, k: nat)
    requires k <= |ds|
    ensures Nodes(ds, root, k).Keys == NameSet(ds[..k]) + {root}
  {
    if k > 0 {
      NodeKeys(ds, root, k - 1);
      assert ds[..k] == ds[..k - 1] + [ds[k - 1]];
      NameSetMore(ds[..k - 1], ds[k - 1]);
    }
  }

  lemma {:induction false} NodeOf(ds: seq<Dep>, root: string, k: nat, i: nat)
    requires LastNamed(ds, k, i)
    ensures ds[i].name in Nodes(ds, root, k) && Nodes(ds, root, k)[ds[i].name] == ParentName(ds, root, ds[i])
  {
    if i < k - 1 {
      NodeOf(ds, root, k - 1, i);
    }
  }

  lemma NodeAt(ds: seq<Dep>, root: string, i: nat)
    requires WellNamed(ds) && i < |ds|
    ensures var tree := Nodes(ds, root, |ds|);
            ds[i].name in tree && tree[ds[i].name] == ParentName(ds, root, ds[i])
  {
    forall j | i < j < |ds|
      ensures ds[j].name != ds[i].name
    {
      assert Apart(ds, i, j);
    }
    NodeOf(ds, root, |ds|, i);
  }

  ghost predicate UniqueNames(ds: seq<Dep>) {
    forall i, j :: 0 <= i < j < |ds| ==> ds[i].name != ds[j].name
  }

  lemma UniqueMore(before: seq<Dep>, last: Dep)
    ensures UniqueNames(before + [last]) <==> UniqueNames(before) && last.name !in NameSet(before)
  {
    var ds := before + [last];
    if UniqueNames(ds) {
      forall d | d in before
        ensures d.name != last.name
      {
        var i :| 0 <= i < |before| && before[i] == d;
        assert ds[i].name != ds[|before|].name;
      }
      forall i, j | 0 <= i < j < |before|
        ensures before[i].name != before[j].name
      {
        assert ds[i].name != ds[j].name;
      }
    }
    if UniqueNames(before) && last.name !in NameSet(before) {
      forall i, j | 0 <= i < j < |ds|
        ensures ds[i].name != ds[j].name
      {
        assert before[i] in before;
      }
    }
  }

  lemma {:induction false} NameCount(ds: seq<Dep>)
    ensures |NameSet(ds)| <= |ds|
    ensures |NameSet(ds)| == |ds| <==> UniqueNames(ds)
  {
    if ds != [] {
      var before, last := ds[..|ds| - 1], ds[|ds| - 1];
      NameCount(before);
      assert ds == before + [last];
      NameSetMore(before, last);
      UniqueMore(before, last);
    }
  }

  lemma WellNamedUnique(ds: seq<Dep>)
    requires WellNamed(ds)
    ensures UniqueNames(ds)
  {
    forall i, j | 0 <= i < j < |ds|
      ensures ds[i].name != ds[j].name
    {
      assert Apart(ds, i, j);
    }
  }

  // One node for each dependency and one for the root, exactly if no dependency has its name.
  lemma NodeCount(ds: seq<Dep>, root: string)
    requires WellNamed(ds)
    ensures |Nodes(ds, root, |ds|)| == |ds| + 1 <==> root !in NameSet(ds)
  {
    NodeKeys(ds, root, |ds|);
    assert ds[..|ds|] == ds;
    WellNamedUnique(ds);
    NameCount(ds);
    var tree := Nodes(ds, root, |ds|);
    assert |tree| == |tree.Keys|;
    if root in NameSet(ds) {
      assert tree.Keys == NameSet(ds);
    }
  }

  function Up(tree: map<string, string>, n: string, k: nat): string {
    if k == 0 then n
    else
      var m := Up(tree, n, k - 1);
      if m in tree then tree[m] else m
  }

  ghost predicate ReachesRoot(tree: map<string, string>, root: string, n: string) {
    exists k: nat :: Up(tree, n, k) == root
  }

  // What validation of names gives, beside a root of another name.
  ghost predicate FromGet(ds: seq<Dep>, root: string) {
    WellNamed(ds) && Resolved(ds, NameSet(ds)) && root !in NameSet(ds)
  }

  // Whatever notes a parent is required by some dependency.
  ghost predicate AllRequired(ds: seq<Dep>) {
    forall d :: d in ds && d.parent != "" ==> IsRequired(d.name, ds)
  }

  // A dependency that nobody requires has a parent that is in the tree, if it notes one.
  ghost predicate AnchoredAt(ds: seq<Dep>, root: string, d: Dep) {
    IsRequired(d.name, ds) || d.parent == "" || d.parent in NameSet(ds) + {root}
  }

  ghost predicate Anchored(ds: seq<Dep>, root: string) {
    forall d :: d in ds ==> AnchoredAt(ds, root, d)
  }

  // A parent is the root, a requirer, or the noted parent of a dependency that nobody requires.
  lemma ParentIs(ds: seq<Dep>, root: string, d: Dep)
    requires d in ds
    ensures var p := ParentName(ds, root, d);
            if IsRequired(d.name, ds) then p == root || exists e :: e in ds && e.name == p && d.name in e.needs
            else p == if d.parent == "" then root else d.parent
  {
    RequirerIs(ds, d.name);
  }

  lemma ParentInTree(ds: seq<Dep>, root: string, d: Dep)
    requires d in ds
    ensures ParentName(ds, root, d) in Nodes(ds, root, |ds|) <==> AnchoredAt(ds, root, d)
  {
    ParentIs(ds, root, d);
    NodeKeys(ds, root, |ds|);
    assert ds[..|ds|] == ds;
  }

  lemma {:induction false} UpFrom(tree: map<string, string>, n: string, k: nat)
    requires n in tree
    ensures Up(tree, n, k + 1) == Up(tree, tree[n], k)
  {
    if k > 0 {
      UpFrom(tree, n, k - 1);
    }
  }

  lemma ReachesOn(tree: map<string, string>, root: string, n: string)
    requires n in tree && n != root
    ensures ReachesRoot(tree, root, n) <==> ReachesRoot(tree, root, tree[n])
  {
    if ReachesRoot(tree, root, n) {
      var k: nat :| Up(tree, n, k) == root;
      UpFrom(tree, n, k - 1);
      assert Up(tree, tree[n], k - 1) == root;
    }
    if ReachesRoot(tree, root, tree[n]) {
      var k: nat :| Up(tree, tree[n], k) == root;
      UpFrom(tree, n, k);
      assert Up(tree, n, k + 1) == root;
    }
  }

  // No requirement runs round in a circle: a requirer ranks below what it requires.
  ghost predicate Acyclic(ds: seq<Dep>, rank: string -> nat) {
    forall i, j :: 0 <= i < |ds| && 0 <= j < |ds[i].needs| ==> rank(ds[i].name) < rank(ds[i].needs[j])
  }

  lemma {:induction false} AcyclicReaches(ds: seq<Dep>, root: string, rank: string -> nat, d: Dep)
    requires FromGet(ds, root) && AllRequired(ds) && Acyclic(ds, rank) && d in ds
    ensures ReachesRoot(Nodes(ds, root, |ds|), root, d.name)
    decreases rank(d.name)
  {
    var tree := Nodes(ds, root, |ds|);
    var i :| 0 <= i < |ds| && ds[i] == d;
    NodeAt(ds, root, i);
    ParentIs(ds, root, d);
    var p := tree[d.name];
    if p == root {
      assert Up(tree, p, 0) == root;
    } else {
      var e :| e in ds && e.name == p && d.name in e.needs;
      var m :| 0 <= m < |ds| && ds[m] == e;
      var j :| 0 <= j < |e.needs| && e.needs[j] == d.name;
      assert rank(ds[m].name) < rank(ds[m].needs[j]);
      AcyclicReaches(ds, root, rank, e);
    }
    ReachesOn(tree, root, d.name);
  }

  // The progress tree of validated dependencies without circular requirements is a rooted tree,
  // if each that notes a parent is required.
  lemma RootedTree(ds: seq<Dep>, root: string, rank: string -> nat)
    requires FromGet(ds, root) && AllRequired(ds) && Acyclic(ds, rank)
    ensures var tree := Nodes(ds, root, |ds|);
            && |tree| == |ds| + 1
            && tree.Keys == NameSet(ds) + {root} && tree[root] == ""
            && forall n :: n in NameSet(ds) ==> tree[n] in tree && ReachesRoot(tree, root, n)
  {
    var tree := Nodes(ds, root, |ds|);
    NodeCount(ds, root);
    NodeKeys(ds, root, |ds|);
    RootStays(ds, root, |ds|);
    assert ds[..|ds|] == ds;
    forall n | n in NameSet(ds)
      ensures tree[n] in tree && ReachesRoot(tree, root, n)
    {
      var i :| 0 <= i < |ds| && ds[i].name == n;
      NodeAt(ds, root, i);
      assert ds[i] in ds;
      ParentInTree(ds, root, ds[i]);
      AcyclicReaches(ds, root, rank, ds[i]);
    }
  }

  lemma {:induction false} RootStays(ds: seq<Dep>, root: string, k: nat)
    requires k <= |ds| && root !in NameSet(ds)
    ensures root in Nodes(ds, root, k) && Nodes(ds, root, k)[root] == ""
  {
    if k > 0 {
      RootStays(ds, root, k - 1);
      assert ds[k - 1] in ds;
    }
  }

  // Dependencies whose parents are all among them.
  ghost predicate Circle(tree: map<string, string>, root: string, c: set<string>) {
    c != {} && root !in c && forall n :: n in c ==> n in tree && tree[n] in c
  }

  lemma {:induction false} StaysInCircle(tree: map<string, string>, root: string, c: set<string>, n: string, k: nat)
    requires Circle(tree, root, c) && n in c
    ensures Up(tree, n, k) in c
  {
    if k > 0 {
      StaysInCircle(tree, root, c, n, k - 1);
    }
  }

  lemma CircleUnrooted(ds: seq<Dep>, root: string, c: set<string>) returns (n: string)
    requires Circle(Nodes(ds, root, |ds|), root, c)
    ensures n in NameSet(ds) && !ReachesRoot(Nodes(ds, root, |ds|), root, n)
  {
    var tree := Nodes(ds, root, |ds|);
    n :| n in c;
    NodeKeys(ds, root, |ds|);
    assert ds[..|ds|] == ds;
    forall k: nat
      ensures Up(tree, n, k) != root
    {
      StaysInCircle(tree, root, c, n, k);
    }
  }

  // From a dependency whose parent is not in the tree the root is not reached.
  lemma UnanchoredUnrooted(ds: seq<Dep>, root: string, d: Dep)
    requires FromGet(ds, root) && d in ds && !AnchoredAt(ds, root, d)
    ensures d.name in NameSet(ds) && !ReachesRoot(Nodes(ds, root, |ds|), root, d.name)
  {
    var tree := Nodes(ds, root, |ds|);
    var i :| 0 <= i < |ds| && ds[i] == d;
    NodeAt(ds, root, i);
    ParentInTree(ds, root, d);
    var p := tree[d.name];
    assert p != root by {
      RootStays(ds, root, |ds|);
    }
    forall k: nat
      ensures Up(tree, p, k) != root
    {
      StaysOutside(tree, p, k);
    }
    ReachesOn(tree, root, d.name);
  }

  lemma {:induction false} StaysOutside(tree: map<string, string>, n: string, k: nat)
    requires n !in tree
    ensures Up(tree, n, k) == n
  {
    if k > 0 {
      StaysOutside(tree, n, k - 1);
    }
  }

  lemma UnrootedParent(ds: seq<Dep>, root: string, n: string)
    requires FromGet(ds, root) && Anchored(ds, root) && n in NameSet(ds) && !ReachesRoot(Nodes(ds, root, |ds|), root, n)
    ensures var tree := Nodes(ds, root, |ds|);
            n in tree && tree[n] in NameSet(ds) && !ReachesRoot(tree, root, tree[n])
  {
    var tree := Nodes(ds, root, |ds|);
    var i :| 0 <= i < |ds| && ds[i].name == n;
    NodeAt(ds, root, i);
    assert ds[i] in ds && AnchoredAt(ds, root, ds[i]);
    ParentInTree(ds, root, ds[i]);
    NodeKeys(ds, root, |ds|);
    assert ds[..|ds|] == ds;
    ReachesOn(tree, root, n);
    assert Up(tree, root, 0) == root;
  }

  ghost predicate AllReach(ds: seq<Dep>, root: string) {
    forall n :: n in NameSet(ds) ==> ReachesRoot(Nodes(ds, root, |ds|), root, n)
  }

  // Every chain of parents reaches the root exactly if all noted parents that matter are in the
  // tree and the parents have no circle.
  lemma RootedIff(ds: seq<Dep>, root: string)
    requires FromGet(ds, root)
    ensures AllReach(ds, root) <==> Anchored(ds, root) && forall c :: !Circle(Nodes(ds, root, |ds|), root, c)
  {
    var tree := Nodes(ds, root, |ds|);
    if c :| Circle(tree, root, c) {
      var n := CircleUnrooted(ds, root, c);
    } else if d :| d in ds && !AnchoredAt(ds, root, d) {
      UnanchoredUnrooted(ds, root, d);
    } else {
      var lost := set n | n in NameSet(ds) && !ReachesRoot(tree, root, n);
      forall n | n in lost
        ensures n in tree && tree[n] in lost
      {
        UnrootedParent(ds, root, n);
      }
      assert !Circle(tree, root, lost);
      assert lost == {};
      forall n | n in NameSet(ds)
        ensures ReachesRoot(tree, root, n)
      {
        assert n !in lost;
      }
    }
  }
}
