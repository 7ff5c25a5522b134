/**
  Walking a filesystem tree: every visited path is given to a callback, whose
  reply may stop the walk, skip a directory, or, given for a file, skip the rest
  of the file's directory.
  */
module BillyWalk {
  import opened MemfsTree

  datatype Reply = Continue | SkipDir | Fail

  // Lexical order of names: a proper beginning comes first, and else the first character that differs
  // decides.

  ghost predicate DiffersAt(x: string, y: string, k: nat) {
    k < |x| && k < |y| && x[..k] == y[..k] && x[k] < y[k]
  }

  ghost predicate Lexical(x: string, y: string) {
    x < y || exists k :: DiffersAt(x, y, k)
  }

  // The comparison that sorting uses.
  predicate StringLess(x: string, y: string) {
    y != "" && (x == "" || x[0] < y[0] || (x[0] == y[0] && StringLess(x[1..], y[1..])))
  }

  lemma {:induction false} LessIff(x: string, y: string)
    ensures StringLess(x, y) <==> Lexical(x, y)
  {
    if x != "" && y != "" {
      LessIff(x[1..], y[1..]);
      assert x == [x[0]] + x[1..] && y == [y[0]] + y[1..];
      if x[0] < y[0] {
        assert DiffersAt(x, y, 0);
      } else if x[0] == y[0] {
        TailsDiffer(x, y);
      }
    }
  }

  lemma TailsDiffer(x: string, y: string)
    requires x != "" && y != "" && x[0] == y[0]
    ensures Lexical(x, y) <==> Lexical(x[1..], y[1..])
  {
    if k: nat :| DiffersAt(x, y, k) {
      assert x[1..][..k - 1] == x[..k][1..] && y[1..][..k - 1] == y[..k][1..];
      assert DiffersAt(x[1..], y[1..], k - 1);
    }
    if k: nat :| DiffersAt(x[1..], y[1..], k) {
      assert x[..k + 1] == [x[0]] + x[1..][..k] && y[..k + 1] == [y[0]] + y[1..][..k];
      assert DiffersAt(x, y, k + 1);
    }
    assert x == [x[0]] + x[1..] && y == [y[0]] + y[1..];
  }

  lemma {:induction false} LessTotal(x: string, y: string)
    ensures x == y || StringLess(x, y) || StringLess(y, x)
  {
    if x != "" && y != "" {
      LessTotal(x[1..], y[1..]);
      assert x == [x[0]] + x[1..] && y == [y[0]] + y[1..];
    }
  }

  lemma {:induction false} LessTransitive(x: string, y: string, z: string)
    requires StringLess(x, y) && StringLess(y, z)
    ensures StringLess(x, z)
  {
    if x != "" && x[0] == y[0] == z[0] {
      LessTransitive(x[1..], y[1..], z[1..]);
    }
  }

  lemma Irreflexive(x: string, y: string)
    ensures Lexical(x, y) ==> !Lexical(y, x) && x != y
  {
  }

  lemma Total(x: string, y: string)
    ensures x == y || Lexical(x, y) || Lexical(y, x)
  {
    LessIff(x, y);
    LessIff(y, x);
    LessTotal(x, y);
  }

  lemma Transitive(x: string, y: string, z: string)
    requires Lexical(x, y) && Lexical(y, z)
    ensures Lexical(x, z)
  {
    LessIff(x, y);
    LessIff(y, z);
    LessIff(x, z);
    LessTransitive(x, y, z);
  }

  ghost predicate Ascending(names: seq<string>) {
    forall i, j :: 0 <= i < j < |names| ==> Lexical(names[i], names[j])
  }

  // Sorting distinct names.

  function Insert(n: string, names: seq<string>): seq<string> {
    if names == [] then [n]
    else if StringLess(names[0], n) then [names[0]] + Insert(n, names[1..])
    else [n] + names
  }

  function Sort(names: seq<string>): seq<string> {
    if names == [] then [] else Insert(names[0], Sort(names[1..]))
  }

  lemma {:induction false} InsertAscends(n: string, names: seq<string>)
    requires Ascending(names) && n !in names
    ensures Ascending(Insert(n, names))
    ensures forall x :: x in Insert(n, names) <==> x == n || x in names
  {
    if names != [] {
      assert names == [names[0]] + names[1..];
      LessIff(names[0], n);
      if StringLess(names[0], n) {
        InsertAscends(n, names[1..]);
        AscendingFrom(names[0], Insert(n, names[1..]));
      } else {
        Total(names[0], n);
        forall x | x in names
          ensures Lexical(n, x)
        {
          if x != names[0] {
            Transitive(n, names[0], x);
          }
        }
        AscendingFrom(n, names);
      }
    }
  }

  lemma AscendingFrom(x: string, names: seq<string>)
    ensures Ascending(names) && (forall y :: y in names ==> Lexical(x, y)) ==> Ascending([x] + names)
  {
  }

  lemma {:induction false} SortAscends(names: seq<string>)
    requires forall i, j :: 0 <= i < j < |names| ==> names[i] != names[j]
    ensures Ascending(Sort(names))
    ensures forall x :: x in Sort(names) <==> x in names
  {
    if names != [] {
      SortAscends(names[1..]);
      InsertAscends(names[0], Sort(names[1..]));
      assert names == [names[0]] + names[1..];
    }
  }

  // The names of the files listed under d, in lexical order.
  method ReadDirNames(s: FS, d: Path) returns (names: seq<string>)
    requires Sound(s)
    ensures Ascending(names) && forall n :: n in names <==> d + [n] in s.files
  {
    var kids := Kids(s, d);
    var rest := kids.Keys;
    names := [];
    while rest != {}
      invariant forall n :: n in rest ==> n in kids
      invariant forall n :: n in names <==> n in kids && n !in rest
      invariant forall i, j :: 0 <= i < j < |names| ==> names[i] != names[j]
      decreases rest
    {
      var n :| n in rest;
      SoundMeans(s, d, n);
      names := names + [s.nodes[kids[n]].name];
      rest := rest - {n};
    }
    SortAscends(names);
    names := Sort(names);
    forall n
      ensures n in kids <==> d + [n] in s.files
    {
      SoundMeans(s, d, n);
    }
  }

  // Paths in the order of the walk: a directory before what is below it, siblings by name.

  ghost predicate Splits(p: Path, q: Path, i: nat) {
    i < |p| && i < |q| && p[..i] == q[..i] && Lexical(p[i], q[i])
  }

  ghost predicate PathLess(p: Path, q: Path) {
    p < q || exists i :: Splits(p, q, i)
  }

  ghost predicate InOrder(ps: seq<Path>) {
    forall i, j :: 0 <= i < j < |ps| ==> PathLess(ps[i], ps[j])
  }

  lemma SameBefore(p: Path, q: Path, i: nat)
    ensures Splits(p, q, i) ==> forall j :: 0 <= j < i ==> p[j] == q[j]
  {
    assert Splits(p, q, i) ==> forall j :: 0 <= j < i ==> p[j] == p[..i][j] && q[j] == q[..i][j];
  }

  // Two paths below two children of d are ordered as the children.
  lemma SubtreeOrder(d: Path, m: string, n: string, p: Path, q: Path)
    requires d + [m] <= p && d + [n] <= q
    ensures m != n ==> (PathLess(p, q) <==> Lexical(m, n))
  {
    var k := |d|;
    assert p[k] == m && q[k] == n && p[..k] == d == q[..k];
    if m != n {
      if Lexical(m, n) {
        assert Splits(p, q, k);
      }
      if i: nat :| Splits(p, q, i) {
        SameBefore(p, q, i);
      }
    }
  }

  lemma NotBelowItself(p: Path, q: Path)
    requires PathLess(p, q)
    ensures p != q
  {
  }

  lemma RootFirst(d: Path, q: Path)
    requires d <= q
    ensures !PathLess(q, d)
    ensures q != d ==> PathLess(d, q)
  {
  }

  // Which paths the replies leave to be visited.

  ghost predicate Asks(s: FS, decide: Path -> Reply, e: Path, x: Path) {
    && e in s.files && !IsDir(s, s.files[e]) && decide(e) == SkipDir
    && e != [] && Dir(e) == Dir(x) && Lexical(Base(e), Base(x))
  }

  // A file earlier in the same directory asked for the rest of it to be skipped.
  ghost predicate Cut(s: FS, decide: Path -> Reply, x: Path) {
    exists e :: Asks(s, decide, e, x)
  }

  ghost predicate Open(s: FS, root: Path, decide: Path -> Reply, q: Path, x: Path) {
    && (root <= x && x < q ==> decide(x) != SkipDir)
    && (root < x && x <= q ==> !Cut(s, decide, x))
  }

  ghost predicate Wanted(s: FS, root: Path, decide: Path -> Reply, q: Path) {
    q in s.files && root <= q && forall x :: Open(s, root, decide, q, x)
  }

  ghost predicate Failing(s: FS, root: Path, decide: Path -> Reply, f: Path) {
    Wanted(s, root, decide, f) && decide(f) == Fail
  }

  // The walk goes up to the first failing path.
  ghost predicate Reached(s: FS, root: Path, decide: Path -> Reply, q: Path) {
    Wanted(s, root, decide, q) && forall f :: Failing(s, root, decide, f) ==> !PathLess(f, q)
  }

  lemma WantedBelow(s: FS, d: Path, n: string, decide: Path -> Reply, q: Path)
    requires d + [n] <= q
    ensures Wanted(s, d, decide, q) <==>
            decide(d) != SkipDir && !Cut(s, decide, d + [n]) && Wanted(s, d + [n], decide, q)
  {
    var c := d + [n];
    assert d <= q && d < q;
    if Wanted(s, d, decide, q) {
      assert Open(s, d, decide, q, d) && Open(s, d, decide, q, c);
      forall x
        ensures Open(s, c, decide, q, x)
      {
        assert Open(s, d, decide, q, x);
      }
    }
    if decide(d) != SkipDir && !Cut(s, decide, c) && Wanted(s, c, decide, q) {
      forall x
        ensures Open(s, d, decide, q, x)
      {
        assert Open(s, c, decide, q, x);
        if d <= x && x <= q {
          if |x| == |d| {
            assert x == d;
          } else {
            assert x[..|c|] == q[..|c|] == c;
            assert |x| == |c| ==> x == c;
          }
        }
      }
    }
  }

  // The children of one directory.

  ghost predicate Lists(s: FS, d: Path, names: seq<string>) {
    Ascending(names) && forall n :: n in names <==> d + [n] in s.files
  }

  // A file that asks for the rest of its directory to be skipped.
  ghost predicate SkipsRest(s: FS, decide: Path -> Reply, c: Path) {
    c in s.files && !IsDir(s, s.files[c]) && decide(c) == SkipDir
  }

  // The walk goes on behind the child c.
  ghost predicate Clear(s: FS, decide: Path -> Reply, c: Path) {
    !SkipsRest(s, decide, c) && forall f :: !Failing(s, c, decide, f)
  }

  ghost predicate AllClear(s: FS, d: Path, names: seq<string>, decide: Path -> Reply, k: nat) {
    forall j :: 0 <= j < k && j < |names| ==> Clear(s, decide, d + [names[j]])
  }

  // q is d itself or is reached below one of the first k children.
  ghost predicate SoFar(s: FS, d: Path, names: seq<string>, decide: Path -> Reply, k: nat, q: Path)
    requires k <= |names|
  {
    q == d || (d < q && q[|d|] in names[..k] && Reached(s, d + [q[|d|]], decide, q))
  }

  lemma NotCut(s: FS, d: Path, names: seq<string>, decide: Path -> Reply, k: nat)
    requires Lists(s, d, names) && k < |names| && AllClear(s, d, names, decide, k)
    ensures !Cut(s, decide, d + [names[k]])
  {
    var x := d + [names[k]];
    forall e
      ensures !Asks(s, decide, e, x)
    {
      if e in s.files && e != [] && Dir(e) == d {
        assert e == d + [Base(e)];
        var j :| 0 <= j < |names| && names[j] == Base(e);
        Irreflexive(names[j], names[k]);
        if j < k {
          assert Clear(s, decide, d + [names[j]]);
        }
      }
    }
  }

  lemma FailsBelow(s: FS, d: Path, names: seq<string>, decide: Path -> Reply, k: nat, f: Path)
    requires Lists(s, d, names) && k < |names| && AllClear(s, d, names, decide, k) && decide(d) != SkipDir
    requires d + [names[k]] <= f
    ensures Failing(s, d, decide, f) <==> Failing(s, d + [names[k]], decide, f)
    ensures Wanted(s, d, decide, f) <==> Wanted(s, d + [names[k]], decide, f)
  {
    NotCut(s, d, names, decide, k);
    WantedBelow(s, d, names[k], decide, f);
  }

  lemma UnderChild(s: FS, d: Path, names: seq<string>, q: Path) returns (j: nat)
    requires Sound(s) && Lists(s, d, names) && q in s.files && d < q
    ensures j < |names| && names[j] == q[|d|] && d + [names[j]] <= q
  {
    var c := d + [q[|d|]];
    assert q[..|c|] == c;
    if c != q {
      AncestorsStored(s, q, c);
    }
    j :| 0 <= j < |names| && names[j] == q[|d|];
  }

  // Reached below one of the children walked through so far.
  lemma ReachedBehind(s: FS, d: Path, names: seq<string>, decide: Path -> Reply, k: nat, j: nat, q: Path)
    requires Sound(s) && Lists(s, d, names) && j <= k < |names| && AllClear(s, d, names, decide, k)
    requires decide(d) == Continue && d + [names[j]] <= q
    ensures Reached(s, d, decide, q) <==> Reached(s, d + [names[j]], decide, q)
  {
    var c := d + [names[j]];
    assert AllClear(s, d, names, decide, j);
    FailsBelow(s, d, names, decide, j, q);
    if Reached(s, d, decide, q) {
      forall f | Failing(s, c, decide, f)
        ensures !PathLess(f, q)
      {
        FailsBelow(s, d, names, decide, j, f);
      }
    }
    if Reached(s, c, decide, q) {
      forall f | Failing(s, d, decide, f)
        ensures !PathLess(f, q)
      {
        assert f != d;
        var m := UnderChild(s, d, names, f);
        FailOrder(s, d, names, decide, j, m, f, q);
      }
    }
  }

  lemma EarlierNotFailing(s: FS, d: Path, names: seq<string>, decide: Path -> Reply, j: nat, m: nat, f: Path)
    requires Lists(s, d, names) && m < j <= |names| && AllClear(s, d, names, decide, j)
    requires decide(d) == Continue && d + [names[m]] <= f
    ensures !Failing(s, d, decide, f)
  {
    assert AllClear(s, d, names, decide, m);
    FailsBelow(s, d, names, decide, m, f);
    assert Clear(s, decide, d + [names[m]]);
  }

  lemma FailOrder(s: FS, d: Path, names: seq<string>, decide: Path -> Reply, j: nat, m: nat, f: Path, q: Path)
    requires Lists(s, d, names) && j < |names| && m < |names| && AllClear(s, d, names, decide, j)
    requires decide(d) == Continue && d + [names[j]] <= q && d + [names[m]] <= f
    requires Failing(s, d, decide, f) && Reached(s, d + [names[j]], decide, q)
    ensures !PathLess(f, q)
  {
    if m < j {
      EarlierNotFailing(s, d, names, decide, j, m, f);
    } else if m == j {
      FailsBelow(s, d, names, decide, j, f);
    } else {
      Irreflexive(names[j], names[m]);
      SubtreeOrder(d, names[m], names[j], f, q);
    }
  }

  // Nothing is reached behind a child that is not clear.
  lemma NothingBehind(s: FS, d: Path, names: seq<string>, decide: Path -> Reply, k: nat, j: nat, q: Path)
    requires Lists(s, d, names) && k < j < |names| && AllClear(s, d, names, decide, k)
    requires !Clear(s, decide, d + [names[k]])
    requires decide(d) == Continue && d + [names[j]] <= q
    ensures !Reached(s, d, decide, q)
  {
    var c := d + [names[k]];
    if SkipsRest(s, decide, c) {
      assert Asks(s, decide, c, d + [names[j]]);
      WantedBelow(s, d, names[j], decide, q);
    } else {
      var f :| Failing(s, c, decide, f);
      FailsBelow(s, d, names, decide, k, f);
      Irreflexive(names[k], names[j]);
      SubtreeOrder(d, names[k], names[j], f, q);
    }
  }

  lemma RootReached(s: FS, d: Path, decide: Path -> Reply)
    requires d in s.files
    ensures Reached(s, d, decide, d)
  {
    forall f | Failing(s, d, decide, f)
      ensures !PathLess(f, d)
    {
      RootFirst(d, f);
    }
    assert forall x :: Open(s, d, decide, d, x);
  }

  // The walk ends behind the k-th child: all children are through, or that one is not clear.
  lemma ReachedIs(s: FS, d: Path, names: seq<string>, decide: Path -> Reply, k: nat, q: Path)
    requires Sound(s) && d in s.files && Lists(s, d, names) && decide(d) == Continue
    requires k < |names| && AllClear(s, d, names, decide, k)
    requires k + 1 < |names| ==> !Clear(s, decide, d + [names[k]])
    ensures Reached(s, d, decide, q) <==> SoFar(s, d, names, decide, k + 1, q)
  {
    if q == d {
      RootReached(s, d, decide);
    } else if d < q && q in s.files {
      var j := UnderChild(s, d, names, q);
      if j <= k {
        assert names[..k + 1][j] == names[j];
        ReachedBehind(s, d, names, decide, k, j, q);
      } else {
        NothingBehind(s, d, names, decide, k, j, q);
        forall i | 0 <= i < k + 1
          ensures names[i] != q[|d|]
        {
          Irreflexive(names[i], names[j]);
        }
      }
    }
  }

  // A path at which the walk does not go on below: a file, or one with another reply.
  lemma WantedAlone(s: FS, d: Path, decide: Path -> Reply, q: Path)
    requires Sound(s) && d in s.files
    requires decide(d) == SkipDir || (forall n :: d + [n] !in s.files)
    ensures Wanted(s, d, decide, q) <==> q == d
  {
    RootReached(s, d, decide);
    if d < q && q in s.files {
      assert Open(s, d, decide, q, d) ==> decide(d) != SkipDir;
      var c := d + [q[|d|]];
      assert q[..|c|] == c;
      if c != q {
        AncestorsStored(s, q, c);
      }
    }
  }

  lemma ReachedAlone(s: FS, d: Path, decide: Path -> Reply, q: Path)
    requires Sound(s) && d in s.files
    requires decide(d) != Continue || (forall n :: d + [n] !in s.files)
    ensures Reached(s, d, decide, q) <==> q == d
  {
    RootReached(s, d, decide);
    if decide(d) == Fail {
      assert Failing(s, d, decide, d);
      if d < q {
        RootFirst(d, q);
      }
    } else {
      WantedAlone(s, d, decide, q);
    }
  }

  lemma NothingBelowFile(s: FS, d: Path)
    requires Sound(s) && d in s.files && !IsDir(s, s.files[d])
    ensures forall n :: d + [n] !in s.files
  {
    forall n
      ensures d + [n] !in s.files
    {
      SoundMeans(s, d, n);
    }
  }

  // The walk.

  ghost function Below(s: FS, d: Path): set<Path> {
    set q | q in s.files && d < q
  }

  ghost predicate Fails(s: FS, root: Path, decide: Path -> Reply) {
    exists f :: Failing(s, root, decide, f)
  }

  // The reply goes up to the caller, who takes SkipDir for the rest of its own directory only if
  // it concerns a file.
  ghost predicate PassesSkip(s: FS, root: Path, decide: Path -> Reply) {
    SkipsRest(s, decide, root)
    || (root in s.files && IsDir(s, s.files[root]) && decide(root) == Continue
      && exists n :: SkipsRest(s, decide, root + [n]))
  }

  lemma StopsAt(s: FS, root: Path, decide: Path -> Reply)
    requires Sound(s) && root in s.files
    requires decide(root) != Continue || (forall n :: root + [n] !in s.files)
    ensures InOrder([root])
    ensures forall q :: q in [root] <==> Reached(s, root, decide, q)
    ensures Fails(s, root, decide) <==> decide(root) == Fail
  {
    forall q
      ensures q in [root] <==> Reached(s, root, decide, q)
    {
      ReachedAlone(s, root, decide, q);
    }
    if decide(root) == Fail {
      RootReached(s, root, decide);
      assert Failing(s, root, decide, root);
    } else {
      forall f
        ensures !Failing(s, root, decide, f)
      {
        WantedAlone(s, root, decide, f);
      }
    }
  }

  lemma SmallerBelow(s: FS, d: Path, n: string)
    requires d + [n] in s.files
    ensures Below(s, d + [n]) < Below(s, d)
  {
    assert d + [n] in Below(s, d);
  }

  lemma MoreVisited(s: FS, d: Path, names: seq<string>, decide: Path -> Reply, i: nat, visited: seq<Path>,
                    more: seq<Path>)
    requires Lists(s, d, names) && i < |names| && InOrder(visited) && InOrder(more)
    requires forall q :: q in visited <==> SoFar(s, d, names, decide, i, q)
    requires forall q :: q in more <==> Reached(s, d + [names[i]], decide, q)
    ensures InOrder(visited + more)
    ensures forall q :: q in visited + more <==> SoFar(s, d, names, decide, i + 1, q)
  {
    assert names[..i + 1] == names[..i] + [names[i]];
    forall j, k | 0 <= j < k < |visited + more|
      ensures PathLess((visited + more)[j], (visited + more)[k])
    {
      if j < |visited| <= k {
        var p, q := visited[j], more[k - |visited|];
        assert p in visited && q in more;
        if p == d {
          RootFirst(d, q);
        } else {
          var m :| 0 <= m < i && names[..i][m] == p[|d|];
          assert p[..|d| + 1] == d + [names[m]];
          Irreflexive(names[m], names[i]);
          SubtreeOrder(d, names[m], names[i], p, q);
        }
      }
    }
    forall q
      ensures q in visited + more <==> SoFar(s, d, names, decide, i + 1, q)
    {
      if d < q {
        assert q[..|d| + 1] == d + [q[|d|]];
      }
    }
  }

  // What a walk from root comes to.
  ghost predicate Walked(s: FS, root: Path, decide: Path -> Reply, visited: seq<Path>, reply: Reply) {
    && InOrder(visited)
    && (forall q :: q in visited <==> Reached(s, root, decide, q))
    && (reply == Fail <==> Fails(s, root, decide))
    && (reply == SkipDir <==> !Fails(s, root, decide) && PassesSkip(s, root, decide))
  }

  lemma WalkStops(s: FS, root: Path, decide: Path -> Reply, names: seq<string>, i: nat, visited: seq<Path>,
                  reply: Reply)
    requires Sound(s) && root in s.files && Lists(s, root, names) && decide(root) == Continue && IsDir(s, s.files[root])
    requires i < |names| && AllClear(s, root, names, decide, i) && !Clear(s, decide, root + [names[i]])
    requires InOrder(visited) && forall q :: q in visited <==> SoFar(s, root, names, decide, i + 1, q)
    requires reply == if Fails(s, root + [names[i]], decide) then Fail else SkipDir
    ensures Walked(s, root, decide, visited, reply)
  {
    var c := root + [names[i]];
    forall q
      ensures q in visited <==> Reached(s, root, decide, q)
    {
      ReachedIs(s, root, names, decide, i, q);
    }
    if Fails(s, c, decide) {
      var f :| Failing(s, c, decide, f);
      FailsBelow(s, root, names, decide, i, f);
    } else {
      assert SkipsRest(s, decide, c);
      NoneFails(s, root, decide, names, i);
    }
  }

  // A child that asks to skip the rest leaves no failing path, if there is none before or in it.
  lemma NoneFails(s: FS, root: Path, decide: Path -> Reply, names: seq<string>, i: nat)
    requires Sound(s) && root in s.files && Lists(s, root, names) && decide(root) == Continue
    requires i < |names| && AllClear(s, root, names, decide, i) && !Fails(s, root + [names[i]], decide)
    requires i + 1 < |names| ==> SkipsRest(s, decide, root + [names[i]])
    ensures !Fails(s, root, decide)
  {
    forall f
      ensures !Failing(s, root, decide, f)
    {
      assert root <= f && |root| == |f| ==> f == root;
      if root < f && f in s.files {
        var j := UnderChild(s, root, names, f);
        if j < i {
          EarlierNotFailing(s, root, names, decide, i, j, f);
        } else if j == i {
          FailsBelow(s, root, names, decide, i, f);
        } else {
          assert Asks(s, decide, root + [names[i]], root + [names[j]]);
          WantedBelow(s, root, names[j], decide, f);
        }
      }
    }
  }

  lemma WalkEnds(s: FS, root: Path, decide: Path -> Reply, names: seq<string>, visited: seq<Path>)
    requires Sound(s) && root in s.files && Lists(s, root, names) && decide(root) == Continue
    requires AllClear(s, root, names, decide, |names|)
    requires InOrder(visited) && forall q :: q in visited <==> SoFar(s, root, names, decide, |names|, q)
    ensures Walked(s, root, decide, visited, Continue)
  {
    if names == [] {
      StopsAt(s, root, decide);
      forall q
        ensures q in visited <==> q in [root]
      {
      }
    } else {
      var k := |names| - 1;
      assert AllClear(s, root, names, decide, k) && Clear(s, decide, root + [names[k]]);
      forall q
        ensures q in visited <==> Reached(s, root, decide, q)
      {
        ReachedIs(s, root, names, decide, k, q);
      }
      NoneFails(s, root, decide, names, k);
    }
    forall n
      ensures !SkipsRest(s, decide, root + [n])
    {
      if j :| 0 <= j < |names| && names[j] == n {
        assert Clear(s, decide, root + [names[j]]);
      }
    }
  }

  // A child's reply ends the walk exactly if the child is not clear.
  lemma ChildReply(s: FS, c: Path, decide: Path -> Reply, more: seq<Path>, r: Reply)
    requires c in s.files && Walked(s, c, decide, more, r)
    ensures Clear(s, decide, c) <==> r == Continue || (IsDir(s, s.files[c]) && r == SkipDir)
    ensures !Clear(s, decide, c) ==> r == if Fails(s, c, decide) then Fail else SkipDir
  {
  }

  method Walk(s: FS, root: Path, decide: Path -> Reply) returns (visited: seq<Path>, reply: Reply)
    requires Sound(s) && root in s.files
    ensures Walked(s, root, decide, visited, reply)
    decreases Below(s, root)
  {
    visited := [root];
    var info := s.nodes[s.files[root]];
    if decide(root) != Continue {
      StopsAt(s, root, decide);
      reply := if info.dir && decide(root) == SkipDir then Continue else decide(root);
      return;
    }
    if !info.dir {
      NothingBelowFile(s, root);
      StopsAt(s, root, decide);
      reply := Continue;
      return;
    }
    var names := ReadDirNames(s, root);
    for i := 0 to |names|
      invariant InOrder(visited) && AllClear(s, root, names, decide, i)
      invariant forall q :: q in visited <==> SoFar(s, root, names, decide, i, q)
    {
      var c := root + [names[i]];
      SmallerBelow(s, root, names[i]);
      var more, r := Walk(s, c, decide);
      MoreVisited(s, root, names, decide, i, visited, more);
      ChildReply(s, c, decide, more, r);
      visited := visited + more;
      if r != Continue && !(s.nodes[s.files[c]].dir && r == SkipDir) {
        WalkStops(s, root, decide, names, i, visited, r);
        return visited, r;
      }
    }
    WalkEnds(s, root, decide, names, visited);
    reply := Continue;
  }

  // A missing root is given to the callback with the error; `onMissing` is its reply.
  method WalkFrom(s: FS, root: Path, decide: Path -> Reply, onMissing: Reply) returns (visited: seq<Path>, reply: Reply)
    requires Sound(s)
    ensures if root in s.files then Walked(s, root, decide, visited, reply) else visited == [root] && reply == onMissing
  {
    if root !in s.files {
      return [root], onMissing;
    }
    visited, reply := Walk(s, root, decide);
  }

  // With a callback that never objects the walk visits exactly what is stored at or below root.
  lemma AllReached(s: FS, root: Path, decide: Path -> Reply, q: Path)
    requires forall p :: decide(p) == Continue
    ensures Reached(s, root, decide, q) <==> q in s.files && root <= q
  {
    if q in s.files && root <= q {
      forall x
        ensures Open(s, root, decide, q, x)
      {
        assert !Cut(s, decide, x);
      }
    }
  }

  method WalkAll(s: FS, root: Path, decide: Path -> Reply) returns (visited: seq<Path>, reply: Reply)
    requires Sound(s) && root in s.files
    requires forall p :: decide(p) == Continue
    ensures reply == Continue
    ensures forall q :: q in visited <==> q in s.files && root <= q
    ensures forall i, j :: 0 <= i < j < |visited| ==> PathLess(visited[i], visited[j]) && visited[i] != visited[j]
  {
    visited, reply := Walk(s, root, decide);
    forall q
      ensures q in visited <==> q in s.files && root <= q
    {
      AllReached(s, root, decide, q);
    }
    forall i, j | 0 <= i < j < |visited|
      ensures visited[i] != visited[j]
    {
      NotBelowItself(visited[i], visited[j]);
    }
  }
}
