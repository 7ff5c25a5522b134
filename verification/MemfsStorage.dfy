/**
  The storage of the in-memory filesystem as the object that is updated in
  place. File objects are known by their number.
  */
module MemfsStorage {
  import opened MemfsTree
  import opened MemfsRename
  import opened MemfsNil

  datatype NewResult = Created(id: Id) | AlreadyThere | FileExists

  class Storage {
    var files: map<Path, Id>
    var children: map<Path, ChildMap>
    var nodes: map<Id, Node>
    var next: Id

    ghost function Tree(): FS
      reads this
    {
      FS(files, children, nodes, next)
    }

    ghost predicate Valid()
      reads this
    {
      forall p :: p in files ==> files[p] in nodes
    }

    constructor ()
      ensures Valid() && Tree() == EMPTY_FS
    {
      files, children, nodes, next := map[], map[], map[], 0;
    }

    method New(p: Path, dir: bool) returns (r: NewResult)
      requires Valid() && NewSafe(Tree(), p, dir)
      modifies this
      ensures Valid() && Tree() == NewFile(old(Tree()), p, dir)
      ensures r == if p !in old(files) then Created(old(next))
                   else if IsDir(old(Tree()), old(files)[p]) then AlreadyThere
                   else FileExists
      decreases |p|, 1
    {
      if p in files {
        if !nodes[files[p]].dir {
          return FileExists;
        }
        return AlreadyThere;
      }
      var id := next;
      files, nodes, next := files[p := id], nodes[id := Node(Base(p), dir)], next + 1;
      assert Tree() == Store(old(Tree()), p, dir);
      var ok := CreateParent(p, id);
      r := Created(id);
    }

    method CreateParent(p: Path, id: Id) returns (ok: bool)
      requires Valid() && CreateSafe(Tree(), p)
      modifies this
      ensures Valid() && Tree() == MemfsTree.CreateParent(old(Tree()), p, id)
      ensures ok <==> p == [] || ParentUsable(old(Tree()), p)
      decreases |p|, 0
    {
      if p == [] {
        return true;
      }
      var base := Dir(p);
      ParentMapStays(Tree(), p);
      ghost var before := Tree();
      var r := New(base, true);
      if r == FileExists {
        return false;
      }
      assert Tree() == NewFile(old(Tree()), base, true);
      if base !in children {
        children := children[base := Entries(map[])];
      }
      children := children[base := Entries(children[base].m[Base(p) := id])];
      ok := true;
    }

    // The names listed under a directory, with their objects.
    method Children(d: Path) returns (kids: map<string, Id>)
      ensures kids == Kids(Tree(), d)
    {
      kids := if d in children && children[d].Entries? then children[d].m else map[];
    }

    // `order` is the order in which the iteration over the path map happens to run.
    method Rename(from: Path, to: Path, order: seq<Path>) returns (ok: bool)
      requires Valid() && Enumerates(order, Tree())
      requires from in files ==> NeverPanics(Tree(), from, to, Sources(from, order))
      modifies this
      ensures Valid()
      ensures from !in old(files) ==> !ok && Tree() == old(Tree())
      ensures from in old(files) ==>
                Tree() == MemfsRename.Rename(old(Tree()), from, to, order).fs
                && ok == !MemfsRename.Rename(old(Tree()), from, to, order).failed
    {
      if from !in files {
        return false;
      }
      var moves := MovesFor(from, to, order);
      ok := MoveAll(from, to, moves, Sources(from, order));
    }

    static method MovesFor(from: Path, to: Path, order: seq<Path>) returns (moves: seq<(Path, Path)>)
      ensures MovesOf(moves, from, to, Sources(from, order))
    {
      moves := [(from, to)];
      ghost var ds := Sources(from, []);
      MovesStart(from, to);
      for i := 0 to |order|
        invariant ds == Sources(from, order[..i]) && MovesOf(moves, from, to, ds)
      {
        var p := order[i];
        NextSource(from, order, i);
        if p != from && TextPrefix(from, p) {
          MovesMore(moves, from, to, ds, p);
          moves := moves + [(p, Target(from, to, p))];
          ds := ds + [p];
        }
      }
      assert order[..|order|] == order;
    }

    method MoveAll(from: Path, to: Path, moves: seq<(Path, Path)>, ghost ds: seq<Path>) returns (ok: bool)
      requires Valid() && MovesOf(moves, from, to, ds) && NeverPanics(Tree(), from, to, ds)
      modifies this
      ensures Valid()
      ensures Tree() == Play(old(Tree()), from, to, ds).fs && ok == !Play(old(Tree()), from, to, ds).failed
    {
      ghost var a := Tree();
      for i := 0 to |moves|
        invariant Valid()
        invariant Play(a, from, to, ds[..i]) == Progress(Tree(), false)
      {
        assert MoveIsSafe(a, from, to, ds, i) && MoveOf(moves, from, to, ds, i);
        PlayNext(a, from, to, ds, i);
        ok := Move(moves[i].0, moves[i].1);
        if !ok {
          FailureStays(a, from, to, ds, i + 1);
          return;
        }
      }
      assert ds[..|ds|] == ds;
      ok := true;
    }

    // The deferred deletions make the second half.
    method Move(p: Path, q: Path) returns (ok: bool)
      requires Valid() && p in files && CreateSafe(Relink(Tree(), p, q), q)
      modifies this
      ensures Valid()
      ensures Tree() == MemfsRename.Move(old(Tree()), p, q) && ok == !MoveFails(old(Tree()), p, q)
    {
      ok := Link(p, q);
      Delete(p);
    }

    method Link(p: Path, q: Path) returns (ok: bool)
      requires Valid() && p in files && CreateSafe(Relink(Tree(), p, q), q)
      modifies this
      ensures Valid()
      ensures Tree() == Shared(old(Tree()), p, q) && ok == !MoveFails(old(Tree()), p, q)
    {
      var id := files[p];
      var shared := p in children && children[p].Entries?;
      files := files[q := id];
      nodes := nodes[id := Node(Base(q), nodes[id].dir)];
      children := children[q := if p in children then children[p] else ChildMap.Nil];
      assert Tree() == Relink(old(Tree()), p, q);
      if p != q {
        CreateMapGrows(Tree(), q, id, p);
      }
      ok := CreateParent(q, id);
      // Both paths have the same map by now: an entry made under the old one is in the new one too.
      if shared && p < q {
        children := children[q := children[p]];
      }
    }

    method Delete(p: Path)
      requires Valid()
      modifies this
      ensures Valid() && Tree() == Unlink(old(Tree()), p)
    {
      children := children - {p};
      files := files - {p};
      if Dir(p) in children && children[Dir(p)].Entries? {
        children := children[Dir(p) := Entries(children[Dir(p)].m - {Base(p)})];
      }
    }

    method Remove(p: Path) returns (r: RemoveResult)
      requires Valid()
      modifies this
      ensures Valid()
      ensures r == RemoveOutcome(old(Tree()), p) && Tree() == RemoveFile(old(Tree()), p)
      ensures r == NotExist <==> p !in old(files)
      ensures r == NotEmpty <==> p in old(files) && IsDir(old(Tree()), old(files)[p]) && Kids(old(Tree()), p) != map[]
    {
      if p !in files {
        return NotExist;
      }
      var kids := Children(p);
      if nodes[files[p]].dir && kids != map[] {
        return NotEmpty;
      }
      if p != [] && Dir(p) in children && children[Dir(p)].Entries? {
        children := children[Dir(p) := Entries(children[Dir(p)].m - {Base(p)})];
      }
      files := files - {p};
      r := Removed;
    }
  }

  // The i-th recorded move is that of the i-th source.
  ghost predicate MoveOf(moves: seq<(Path, Path)>, from: Path, to: Path, ds: seq<Path>, i: nat) {
    i < |moves| == |ds| && moves[i] == (ds[i], Target(from, to, ds[i]))
  }

  ghost predicate MovesOf(moves: seq<(Path, Path)>, from: Path, to: Path, ds: seq<Path>) {
    |moves| == |ds| && forall i :: 0 <= i < |moves| ==> MoveOf(moves, from, to, ds, i)
  }

  lemma MovesStart(from: Path, to: Path)
    ensures MovesOf([(from, to)], from, to, Sources(from, []))
  {
    ImageFacts(from, to, from);
  }

  lemma MovesMore(moves: seq<(Path, Path)>, from: Path, to: Path, ds: seq<Path>, p: Path)
    requires MovesOf(moves, from, to, ds)
    ensures MovesOf(moves + [(p, Target(from, to, p))], from, to, ds + [p])
  {
    forall i | 0 <= i < |ds| + 1
      ensures MoveOf(moves + [(p, Target(from, to, p))], from, to, ds + [p], i)
    {
      assert i < |ds| ==> MoveOf(moves, from, to, ds, i);
    }
  }

  lemma NextSource(from: Path, order: seq<Path>, i: nat)
    requires i < |order|
    ensures Sources(from, order[..i + 1])
            == Sources(from, order[..i]) + if order[i] != from && TextPrefix(from, order[i]) then [order[i]] else []
  {
    assert order[..i + 1][..i] == order[..i];
  }

  // The parent's map is not nil, before and after the parent is created.
  lemma ParentMapStays(s: FS, p: Path)
    requires p != [] && CreateSafe(s, p)
    ensures ParentUsable(s, p) ==> !NilAt(NewFile(s, Dir(p), true), Dir(p))
  {
    if Dir(p) !in s.files {
      CreateMapGrows(Store(s, Dir(p), true), Dir(p), s.next, Dir(p));
    }
  }

  lemma PlayNext(a: FS, from: Path, to: Path, ds: seq<Path>, i: nat)
    requires i < |ds| && !Play(a, from, to, ds[..i]).failed
    ensures var s, p, q := Play(a, from, to, ds[..i]).fs, ds[i], Target(from, to, ds[i]);
            Play(a, from, to, ds[..i + 1]) == Progress(MemfsRename.Move(s, p, q), MoveFails(s, p, q))
  {
    assert ds[..i + 1][..i] == ds[..i];
  }

  lemma {:induction false} FailureStays(a: FS, from: Path, to: Path, ds: seq<Path>, i: nat)
    requires i <= |ds| && Play(a, from, to, ds[..i]).failed
    ensures Play(a, from, to, ds) == Play(a, from, to, ds[..i])
  {
    if i < |ds| {
      assert ds[..|ds| - 1][..i] == ds[..i];
      FailureStays(a, from, to, ds[..|ds| - 1], i);
    } else {
      assert ds[..i] == ds;
    }
  }
}
