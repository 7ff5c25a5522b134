/**
  Renaming onto a path that is already there: a file or an empty directory is
  replaced, as if it had been removed before. Renamed to itself, a path is lost.
  */
module MemfsReplace {
  import opened Wrappers
  import opened MemfsTree
  import opened MemfsRename
  import opened MemfsNil
  import opened MemfsSibling

  // The target is stored, with nothing below it.
  ghost predicate CanReplace(a: FS, from: Path, to: Path) {
    && Sound(a)
    && from in a.files && from != [] && !(from <= to)
    && to in a.files && forall p :: p in a.files ==> !(to < p)
  }

  lemma ClearedCanRename(a: FS, from: Path, to: Path)
    requires CanReplace(a, from, to)
    ensures RemoveOutcome(a, to) == Removed && CanRename(RemoveFile(a, to), from, to)
  {
    RemovedIffNothingBelow(a, to);
    RemoveSound(a, to);
    assert !(to < from);
    forall p | p in RemoveFile(a, to).files
      ensures !(to <= p)
    {
      assert p in a.files && p != to;
    }
    forall q | q in RemoveFile(a, to).files && q < to
      ensures IsDir(a, a.files[q])
    {
      AncestorsStored(a, to, q);
    }
  }

  // Relinking replaces what removing would have taken away, but for the entry in the directory
  // above, which is then written anew.

  lemma EntryWrittenAnew(children: map<Path, ChildMap>, s: FS, d: Path, n: string, id: Id)
    requires s.children == children
    ensures AddChild(s.(children := DropChild(children, d, n)), d, n, id) == AddChild(s, d, n, id)
  {
    var t := s.(children := DropChild(children, d, n));
    assert Kids(t, d) == Kids(s, d) - {n} || Kids(t, d) == Kids(s, d);
    assert Kids(t, d)[n := id] == Kids(s, d)[n := id];
    assert children[d := Entries(Kids(s, d)[n := id])] == t.children[d := Entries(Kids(s, d)[n := id])];
  }

  lemma RelinkCleared(a: FS, from: Path, to: Path)
    requires from in a.files && to in a.files && to != [] && from != to && from != Dir(to)
             && RemoveOutcome(a, to) == Removed
    ensures var s := Relink(a, from, to);
            Relink(RemoveFile(a, to), from, to) == s.(children := DropChild(s.children, Dir(to), Base(to)))
  {
    var s, t := Relink(a, from, to), Relink(RemoveFile(a, to), from, to);
    assert Dir(to) != to;
    assert s.files == t.files;
    assert t.children == DropChild(s.children, Dir(to), Base(to));
  }

  lemma CreateInPlace(s: FS, p: Path, id: Id)
    requires p != [] && Dir(p) in s.files && IsDir(s, s.files[Dir(p)])
    ensures CreateParent(s, p, id) == AddChild(s, Dir(p), Base(p), id)
  {
    assert NewFile(s, Dir(p), true) == s;
  }

  lemma FirstMoveSame(a: FS, from: Path, to: Path)
    requires CanReplace(a, from, to)
    ensures Move(a, from, to) == Move(RemoveFile(a, to), from, to)
    ensures MoveFails(a, from, to) == MoveFails(RemoveFile(a, to), from, to)
  {
    var b := RemoveFile(a, to);
    RemovedIffNothingBelow(a, to);
    assert to != [] by {
      assert [] <= from;
    }
    assert Dir(to) < to && from != to && from != Dir(to);
    AncestorsStored(a, to, Dir(to));
    RelinkCleared(a, from, to);
    var s, t := Relink(a, from, to), Relink(b, from, to);
    EntryWrittenAnew(s.children, s, Dir(to), Base(to), a.files[from]);
    CreateInPlace(s, to, a.files[from]);
    CreateInPlace(t, to, a.files[from]);
    assert !(from < to);
  }

  function Without(order: seq<Path>, x: Path): seq<Path> {
    if order == [] then []
    else
      var rest, p := Without(order[..|order| - 1], x), order[|order| - 1];
      if p == x then rest else rest + [p]
  }

  lemma {:induction false} WithoutLists(order: seq<Path>, x: Path)
    requires NoDuplicates(order)
    ensures NoDuplicates(Without(order, x)) && forall p :: p in Without(order, x) <==> p in order && p != x
  {
    if order != [] {
      var before := order[..|order| - 1];
      WithoutLists(before, x);
      assert order[|order| - 1] !in before;
    }
  }

  lemma {:induction false} OthersWithout(from: Path, order: seq<Path>, x: Path)
    requires !TextPrefix(from, x)
    ensures Others(from, Without(order, x)) == Others(from, order)
  {
    if order != [] {
      var before, p := order[..|order| - 1], order[|order| - 1];
      OthersWithout(from, before, x);
      if p != x {
        assert (Without(before, x) + [p])[..|Without(before, x)|] == Without(before, x);
      }
    }
  }

  lemma {:induction false} PlaySame(a: FS, from: Path, to: Path, ds: seq<Path>)
    requires CanReplace(a, from, to) && ds != [] && ds[0] == from
    ensures Play(a, from, to, ds) == Play(RemoveFile(a, to), from, to, ds)
  {
    var before := ds[..|ds| - 1];
    if before == [] {
      ImageFacts(from, to, from);
      FirstMoveSame(a, from, to);
    } else {
      PlaySame(a, from, to, before);
    }
  }

  // The first move writes the map of a directory that lists the target.
  lemma FirstMoveSafe(a: FS, from: Path, to: Path)
    requires CanReplace(a, from, to)
    ensures CreateSafe(Relink(a, from, to), to) && CreateSafe(Relink(RemoveFile(a, to), from, to), to)
  {
    RemovedIffNothingBelow(a, to);
    assert to != [] by {
      assert [] <= from;
    }
    assert Dir(to) < to && from != to && from != Dir(to);
    AncestorsStored(a, to, Dir(to));
    assert Listed(a, to);
    assert Lookup(a, Dir(to)).Entries?;
    RelinkMaps(a, from, to, Dir(to));
    RelinkMaps(RemoveFile(a, to), from, to, Dir(to));
  }

  lemma MoveAlike(a: FS, from: Path, to: Path, ds: seq<Path>, i: nat)
    requires CanReplace(a, from, to) && i < |ds| && ds[0] == from
    ensures Play(a, from, to, ds[..i]).failed == Play(RemoveFile(a, to), from, to, ds[..i]).failed
    ensures MoveIsSafe(a, from, to, ds, i) <==> MoveIsSafe(RemoveFile(a, to), from, to, ds, i)
  {
    if i == 0 {
      assert ds[..0] == [];
      FirstMoveSafe(a, from, to);
      ClearedCanRename(a, from, to);
      ImageFacts(from, to, from);
    } else {
      PlaySame(a, from, to, ds[..i]);
    }
  }

  lemma PanicsAlike(a: FS, from: Path, to: Path, ds: seq<Path>)
    requires CanReplace(a, from, to) && ds != [] && ds[0] == from
    ensures NeverPanics(a, from, to, ds) <==> NeverPanics(RemoveFile(a, to), from, to, ds)
  {
    forall i | 0 <= i < |ds|
      ensures Play(a, from, to, ds[..i]).failed == Play(RemoveFile(a, to), from, to, ds[..i]).failed
      ensures MoveIsSafe(a, from, to, ds, i) <==> MoveIsSafe(RemoveFile(a, to), from, to, ds, i)
    {
      MoveAlike(a, from, to, ds, i);
    }
  }

  // Renaming onto a file or an empty directory is removing it and renaming, whatever the
  // iteration order. So all that is proved of renaming to a free path holds of the tree without
  // the old target.
  lemma RenameReplaces(a: FS, from: Path, to: Path, order: seq<Path>)
    requires CanReplace(a, from, to) && NoTextSibling(a, from) && Enumerates(order, a)
    ensures var b := RemoveFile(a, to);
            && CanRename(b, from, to) && NoTextSibling(b, from) && Enumerates(Without(order, to), b)
            && Rename(a, from, to, order) == Rename(b, from, to, Without(order, to))
            && (NeverPanics(a, from, to, Sources(from, order)) <==>
                  NeverPanics(b, from, to, Sources(from, Without(order, to))))
  {
    ClearedCanRename(a, from, to);
    RemoveSound(a, to);
    WithoutLists(order, to);
    assert !TextPrefix(from, to);
    OthersWithout(from, order, to);
    PlaySame(a, from, to, Sources(from, order));
    PanicsAlike(a, from, to, Sources(from, order));
  }

  lemma RenameMovesOnto(a: FS, from: Path, to: Path, order: seq<Path>)
    requires CanReplace(a, from, to) && NoTextSibling(a, from) && Enumerates(order, a)
    ensures !Rename(a, from, to, order).failed
    ensures Renamed(RemoveFile(a, to), Rename(a, from, to, order).fs, from, to)
    ensures Sound(Rename(a, from, to, order).fs) <==> ParentsFirst(RemoveFile(a, to), from, Without(order, to))
  {
    RenameReplaces(a, from, to, order);
    RenameMovesSubtree(RemoveFile(a, to), from, to, Without(order, to));
    RenameIndexExactIff(RemoveFile(a, to), from, to, Without(order, to));
  }

  lemma MoveToItself(a: FS, p: Path)
    requires p in a.files && p != [] && Dir(p) in a.files && IsDir(a, a.files[Dir(p)])
    ensures !MoveFails(a, p, p) && Move(a, p, p).files == a.files - {p}
  {
    var s := Relink(a, p, p);
    assert s.files == a.files && Dir(p) != p;
    CreateInPlace(s, p, a.files[p]);
  }

  lemma PlayOne(a: FS, from: Path, to: Path)
    requires from in a.files
    ensures Play(a, from, to, [from]) == Progress(Move(a, from, to), MoveFails(a, from, to))
  {
    assert [from][..0] == [];
    ImageFacts(from, to, from);
  }

  // No path holds an object, and none will be given it as a new one.
  ghost predicate Nowhere(s: FS, id: Id) {
    id < s.next && forall x :: x in s.files ==> s.files[x] != id
  }

  lemma StaysNowhere(s: FS, q: Path, r: Path, id: Id)
    requires Nowhere(s, id)
    ensures Nowhere(Move(s, q, r), id)
  {
    if q in s.files {
      var t := Move(s, q, r);
      MoveGrows(s, q, r, q);
      forall x | x in t.files
        ensures t.files[x] != id
      {
        MoveGrows(s, q, r, x);
      }
    }
  }

  lemma {:induction false} PlayNowhere(a: FS, from: Path, to: Path, ds: seq<Path>, id: Id)
    requires ds != [] && Nowhere(Play(a, from, to, [ds[0]]).fs, id)
    ensures Nowhere(Play(a, from, to, ds).fs, id)
  {
    if |ds| == 1 {
      assert ds == [ds[0]];
    } else {
      var before, q := ds[..|ds| - 1], ds[|ds| - 1];
      PlayNowhere(a, from, to, before, id);
      StaysNowhere(Play(a, from, to, before).fs, q, Target(from, to, q), id);
    }
  }

  lemma FirstToItself(a: FS, p: Path)
    requires Sound(a) && p in a.files
    ensures Nowhere(Move(a, p, p), a.files[p])
  {
    var t := Move(a, p, p);
    MoveGrows(a, p, p, p);
    forall x | x in t.files
      ensures t.files[x] != a.files[p]
    {
      MoveGrows(a, p, p, x);
    }
  }

  // Renamed to itself, any stored path loses its object, in every iteration order.
  lemma RenameToItself(a: FS, from: Path, order: seq<Path>)
    requires Sound(a) && from in a.files
    ensures var t := Rename(a, from, from, order).fs; forall x :: x in t.files ==> t.files[x] != a.files[from]
  {
    PlayOne(a, from, from);
    FirstToItself(a, from);
    PlayNowhere(a, from, from, Sources(from, order), a.files[from]);
  }

  // With nothing below it, the path is gone and nothing else changes place.
  lemma LeafToItself(a: FS, from: Path, order: seq<Path>)
    requires Sound(a) && from in a.files && from != [] && NoTextSibling(a, from) && Enumerates(order, a)
    requires forall p :: p in a.files ==> !(from < p)
    ensures !Rename(a, from, from, order).failed && Rename(a, from, from, order).fs.files == a.files - {from}
  {
    var ds := Sources(from, order);
    SourcesAre(a, from, order);
    forall i | 0 <= i < |ds|
      ensures ds[i] == from
    {
      assert Source(a, from, ds[i]);
    }
    OnlyOne(ds, from);
    ImageFacts(from, from, from);
    assert Dir(from) < from;
    AncestorsStored(a, from, Dir(from));
    MoveToItself(a, from);
    PlayOne(a, from, from);
  }
}
