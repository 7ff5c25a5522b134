/**
  Nil child maps. Moving a path copies its child map even when it has none, and
  a nil map that is stored can no longer be written: Go panics.
  */
module MemfsNil {
  import opened Wrappers
  import opened MemfsTree
  import opened MemfsRename

  // Creating a path, or the directories above it, writes no nil map: written are the maps of the
  // directories that are missing, and of the one above them.

  predicate NewSafe(s: FS, p: Path, dir: bool)
    decreases |p|, 1
  {
    p in s.files || CreateSafe(Store(s, p, dir), p)
  }

  predicate CreateSafe(s: FS, p: Path)
    decreases |p|, 0
  {
    p != [] && ParentUsable(s, p) ==> !NilAt(s, Dir(p)) && NewSafe(s, Dir(p), true)
  }

  // Enough for that: no nil map from a stored directory on.
  lemma {:induction false} SafeBelow(s: FS, top: Path, p: Path)
    requires top < p && top in s.files && forall d :: top <= d < p ==> !NilAt(s, d)
    ensures CreateSafe(s, p)
    decreases |p|
  {
    assert top <= Dir(p) && Dir(p) < p;
    if Dir(p) != top {
      var t := Store(s, Dir(p), true);
      forall d | top <= d < Dir(p)
        ensures !NilAt(t, d)
      {
        assert d < p && !NilAt(s, d);
      }
      SafeBelow(t, top, Dir(p));
    }
  }

  // Or none above the path at all.
  lemma {:induction false} SafeWithoutNil(s: FS, p: Path)
    requires forall d :: d < p ==> !NilAt(s, d)
    ensures CreateSafe(s, p)
    decreases |p|
  {
    if p != [] {
      assert Dir(p) < p;
      var t := Store(s, Dir(p), true);
      forall d | d < Dir(p)
        ensures !NilAt(t, d)
      {
        assert d < p && !NilAt(s, d);
      }
      SafeWithoutNil(t, Dir(p));
    }
  }

  // Creating p makes maps only above p, and turns none into nil.
  ghost predicate MapGrows(s: FS, t: FS, p: Path, d: Path) {
    && (!(d < p) ==> (NilAt(t, d) <==> NilAt(s, d)) && Lookup(t, d) == Lookup(s, d))
    && (NilAt(t, d) ==> NilAt(s, d))
    && (Lookup(s, d).Entries? ==> Lookup(t, d).Entries?)
  }

  lemma AddedMap(s: FS, d: Path, name: string, id: Id, e: Path)
    ensures Lookup(AddChild(s, d, name, id), e) == if e == d then Entries(Kids(s, d)[name := id]) else Lookup(s, e)
    ensures NilAt(AddChild(s, d, name, id), e) <==> e != d && NilAt(s, e)
  {
  }

  lemma {:induction false} CreateMapGrows(s: FS, p: Path, id: Id, d: Path)
    ensures MapGrows(s, CreateParent(s, p, id), p, d)
    decreases |p|
  {
    if p != [] && ParentUsable(s, p) {
      assert Dir(p) < p;
      if Dir(p) !in s.files {
        CreateMapGrows(Store(s, Dir(p), true), Dir(p), s.next, d);
      }
      AddedMap(NewFile(s, Dir(p), true), Dir(p), Base(p), id, d);
    }
  }

  // The child maps while a renaming is under way: none that is going to be written is nil. `early`
  // says that this includes those of directories whose children may be moved first.
  ghost predicate NilFits(early: bool, a: FS, s: FS, from: Path, to: Path, done: set<Path>, x: Path) {
    && (Hosts(a, from, to, x) && (Origin(from, to, x) in done || (early && x != to)) ==> !NilAt(s, x))
    && (from <= x && x !in done && Lookup(s, x).Nil? ==> Childless(a, x))
  }

  // x is the new place of a stored path that has something below it.
  ghost predicate Hosts(a: FS, from: Path, to: Path, x: Path) {
    to <= x && Source(a, from, Origin(from, to, x)) && !Childless(a, Origin(from, to, x))
  }

  ghost predicate Childless(a: FS, x: Path) {
    forall n :: x + [n] !in a.files
  }

  lemma NilStep(early: bool, a: FS, s: FS, from: Path, to: Path, done: set<Path>, q: Path, x: Path)
    requires CanMove(a, s, from, to, done, q) && q in s.files
    requires NilFits(early, a, s, from, to, done, x) && NilFits(early, a, s, from, to, done, q)
    ensures NilFits(early, a, Move(s, q, Image(from, to, q)), from, to, done + {q}, x)
  {
    var r := Image(from, to, q);
    ImageFacts(from, to, q);
    Nonempty(a, from, to, q);
    CreateMapGrows(Relink(s, q, r), r, s.files[q], x);
    if to <= x {
      OriginFacts(from, to, x);
      Apart(a, from, to, x);
    }
    UnlinkMaps(Made(s, q, r), q, x);
    RelinkMaps(s, q, r, x);
  }

  lemma RelinkMaps(s: FS, q: Path, r: Path, x: Path)
    ensures q in s.files ==> Lookup(Relink(s, q, r), x) == Lookup(s, if x == r then q else x)
    ensures q in s.files ==> (NilAt(Relink(s, q, r), x) <==> if x == r then Lookup(s, q).Nil? else NilAt(s, x))
  {
  }

  lemma UnlinkMaps(u: FS, q: Path, x: Path)
    ensures NilAt(Unlink(u, q), x) <==> x != q && NilAt(u, x)
    ensures x != q ==> (Lookup(Unlink(u, q), x).Nil? <==> Lookup(u, x).Nil?)
  {
  }

  lemma MoveWritesNoNil(early: bool, a: FS, s: FS, from: Path, to: Path, done: set<Path>, q: Path)
    requires CanMove(a, s, from, to, done, q) && q in s.files && q != from
    requires early || forall x :: from <= x < q ==> x in done
    requires forall x :: NilFits(early, a, s, from, to, done, x)
    ensures CreateSafe(Relink(s, q, Image(from, to, q)), Image(from, to, q))
  {
    var r := Image(from, to, q);
    ImageFacts(from, to, q);
    TargetStored(a, s, from, to, done);
    forall d | to <= d < r
      ensures !NilAt(Relink(s, q, r), d)
    {
      RelinkMaps(s, q, r, d);
      assert NilFits(early, a, s, from, to, done, d);
      PrefixIsSource(a, from, to, q, d);
      OriginFacts(from, to, d);
      if d == to {
        assert Origin(from, to, to) == from;
      }
      HasKid(a, q, Origin(from, to, d));
    }
    assert to != r by {
      PrefixOrigin(from, to, q, to);
    }
    SafeBelow(Relink(s, q, r), to, r);
  }

  // A stored path above another has a stored child.
  lemma HasKid(a: FS, q: Path, x: Path)
    requires Sound(a) && q in a.files && x < q
    ensures !Childless(a, x)
  {
    var c := q[..|x| + 1];
    assert c == x + [q[|x|]];
    if c != q {
      AncestorsStored(a, q, c);
    }
  }

  // The target can be created, and no nil map lies where a stored path goes that has something
  // below it. A nil map at the target itself is replaced.
  ghost predicate TargetsWritable(a: FS, from: Path, to: Path)
    requires from in a.files
  {
    CreateSafe(Relink(a, from, to), to) && HostsWritable(a, from, to)
  }

  ghost predicate HostsWritable(a: FS, from: Path, to: Path) {
    forall x :: x != to && Hosts(a, from, to, x) ==> !NilAt(a, x)
  }

  ghost predicate PlayedNil(early: bool, a: FS, from: Path, to: Path, ds: seq<Path>) {
    forall x :: NilFits(early, a, Play(a, from, to, ds).fs, from, to, Moved(ds), x)
  }

  lemma NilAtStart(early: bool, a: FS, from: Path, to: Path)
    requires CanRename(a, from, to) && (early ==> HostsWritable(a, from, to))
    ensures PlayedNil(early, a, from, to, [])
  {
    assert Moved([]) == {} && Play(a, from, to, []).fs == a;
    forall x
      ensures NilFits(early, a, a, from, to, {}, x)
    {
      if !Childless(a, x) {
        var n :| x + [n] in a.files;
        SoundMeans(a, x, n);
      }
    }
  }

  lemma NilMore(early: bool, a: FS, from: Path, to: Path, ds: seq<Path>, q: Path)
    requires CanRename(a, from, to) && Follows(a, from, ds, q)
    requires PlayedWell(a, from, to, ds) && PlayedNil(early, a, from, to, ds)
    ensures PlayedNil(early, a, from, to, ds + [q])
  {
    var s := Play(a, from, to, ds).fs;
    assert (ds + [q])[..|ds|] == ds;
    assert Moved(ds + [q]) == Moved(ds) + {q};
    SourceInPlace(a, s, from, to, Moved(ds), q);
    forall x
      ensures NilFits(early, a, Play(a, from, to, ds + [q]).fs, from, to, Moved(ds + [q]), x)
    {
      NilStep(early, a, s, from, to, Moved(ds), q, x);
    }
  }

  lemma {:induction false} NilKept(early: bool, a: FS, from: Path, to: Path, ds: seq<Path>)
    requires CanRename(a, from, to) && (early ==> HostsWritable(a, from, to)) && MoveOrder(a, from, ds)
    ensures PlayedNil(early, a, from, to, ds)
  {
    if ds == [] {
      NilAtStart(early, a, from, to);
    } else {
      LastOfOrder(a, from, ds);
      NilKept(early, a, from, to, ds[..|ds| - 1]);
      PlayKeeps(a, from, to, ds[..|ds| - 1]);
      NilMore(early, a, from, to, ds[..|ds| - 1], ds[|ds| - 1]);
    }
  }

  // The i-th move finds its source, and writes no nil map.
  ghost predicate MoveIsSafe(a: FS, from: Path, to: Path, ds: seq<Path>, i: nat) {
    i < |ds| &&
    var s, q := Play(a, from, to, ds[..i]).fs, ds[i];
    q in s.files && CreateSafe(Relink(s, q, Target(from, to, q)), Target(from, to, q))
  }

  // Renaming runs to its end or its first error without a panic.
  ghost predicate NeverPanics(a: FS, from: Path, to: Path, ds: seq<Path>) {
    forall i :: 0 <= i < |ds| && !Play(a, from, to, ds[..i]).failed ==> MoveIsSafe(a, from, to, ds, i)
  }

  lemma OrderPrefix(a: FS, from: Path, ds: seq<Path>, i: nat)
    ensures MoveOrder(a, from, ds) && i < |ds| ==> MoveOrder(a, from, ds[..i]) && Follows(a, from, ds[..i], ds[i])
  {
  }

  // With `early`, in any order; without, if all directories on the way have been moved before.
  lemma MoveNeverPanics(early: bool, a: FS, from: Path, to: Path, ds: seq<Path>, i: nat)
    requires CanRename(a, from, to) && CreateSafe(Relink(a, from, to), to)
    requires MoveOrder(a, from, ds) && i < |ds|
    requires if early then HostsWritable(a, from, to) else forall x :: from <= x < ds[i] ==> x in ds[..i]
    ensures MoveIsSafe(a, from, to, ds, i)
  {
    OrderPrefix(a, from, ds, i);
    PlayKeeps(a, from, to, ds[..i]);
    NilKept(early, a, from, to, ds[..i]);
    var s := Play(a, from, to, ds[..i]).fs;
    SourceInPlace(a, s, from, to, Moved(ds[..i]), ds[i]);
    if ds[i] == from {
      assert ds[..i] == [];
      ImageFacts(from, to, from);
    } else {
      MoveWritesNoNil(early, a, s, from, to, Moved(ds[..i]), ds[i]);
    }
  }

  lemma RenameNeverPanics(a: FS, from: Path, to: Path, order: seq<Path>)
    requires CanRename(a, from, to) && NoTextSibling(a, from) && Enumerates(order, a)
    requires TargetsWritable(a, from, to)
    ensures NeverPanics(a, from, to, Sources(from, order))
  {
    var ds := Sources(from, order);
    SourcesAre(a, from, order);
    forall i | 0 <= i < |ds|
      ensures MoveIsSafe(a, from, to, ds, i)
    {
      MoveNeverPanics(true, a, from, to, ds, i);
    }
  }

  // In an order that moves parents first, all directories between `from` and a source come before.
  lemma {:induction false} AncestorsDone(a: FS, from: Path, ds: seq<Path>, i: nat, x: Path)
    requires Sound(a) && MoveOrder(a, from, ds) && (forall p :: Source(a, from, p) ==> p in ds)
    requires NoChildBefore(a, from, ds) && i < |ds| && from <= x < ds[i]
    ensures x in ds[..i]
    decreases |ds[i]|
  {
    var c := ds[i];
    var p := Dir(c);
    assert c in ds && c == p + [Base(c)] && p < c && from <= p;
    AncestorsStored(a, c, p);
    assert Source(a, from, p);
    var j :| 0 <= j < |ds| && ds[j] == p;
    assert !MovedBefore(ds, p + [Base(c)], p);
    assert j < i;
    if x != p {
      AncestorsDone(a, from, ds, j, x);
    }
  }

  // With parents first, only the first move can panic.
  lemma ParentsFirstNeverPanics(a: FS, from: Path, to: Path, order: seq<Path>)
    requires CanRename(a, from, to) && NoTextSibling(a, from) && Enumerates(order, a)
    requires ParentsFirst(a, from, order) && CreateSafe(Relink(a, from, to), to)
    ensures NeverPanics(a, from, to, Sources(from, order))
  {
    var ds := Sources(from, order);
    SourcesAre(a, from, order);
    ChildBeforeIs(a, from, order);
    forall i | 0 <= i < |ds|
      ensures MoveIsSafe(a, from, to, ds, i)
    {
      forall x | from <= x < ds[i]
        ensures x in ds[..i]
      {
        AncestorsDone(a, from, ds, i, x);
      }
      MoveNeverPanics(false, a, from, to, ds, i);
    }
  }

  // If the second path moved lies below a nil map, Go panics.

  lemma NilAfterFirst(a: FS, from: Path, to: Path, x: Path)
    requires CanRename(a, from, to) && to < x && NilAt(a, x)
    ensures NilAt(Play(a, from, to, [from]).fs, x)
  {
    FirstMoveMap(a, from, to);
    Apart(a, from, to, x);
    CreateMapGrows(Relink(a, from, to), to, a.files[from], x);
    RelinkMaps(a, from, to, x);
    UnlinkMaps(Made(a, from, to), from, x);
    assert [from][..0] == [];
    SourceInPlace(a, a, from, to, {}, from) by {
      MovingAtStart(a, from, to);
    }
  }

  lemma SecondPanics(a: FS, from: Path, to: Path, ds: seq<Path>, p: Path, n: string)
    requires CanRename(a, from, to) && MoveOrder(a, from, ds) && |ds| > 1 && ds[1] == p + [n]
    requires from < p && NilAt(a, Image(from, to, p))
    ensures !NeverPanics(a, from, to, ds)
  {
    var c := ds[1];
    var r := Image(from, to, c);
    OrderPrefix(a, from, ds, 1);
    assert ds[..1] == [from];
    PlayKeeps(a, from, to, [from]);
    var s := Play(a, from, to, [from]).fs;
    ImageFacts(from, to, c);
    ImageFacts(from, to, p);
    assert Dir(c) == p && Dir(r) == Image(from, to, p);
    assert to < Dir(r) by {
      assert |Dir(r)| > |to|;
    }
    NilAfterFirst(a, from, to, Dir(r));
    SourceInPlace(a, s, from, to, Moved([from]), c);
    MoveSucceeds(a, s, from, to, Moved([from]), c);
    RelinkMaps(s, c, r, Dir(r));
    assert !MoveIsSafe(a, from, to, ds, 1);
  }

  lemma KidFirstOrder(a: FS, from: Path, c: Path) returns (order: seq<Path>)
    requires from in a.files && Source(a, from, c) && c != from
    ensures Enumerates(order, a) && |Sources(from, order)| > 1 && Sources(from, order)[1] == c
  {
    var rest := SomeListing(a.files.Keys - {c});
    order := [c] + rest;
    PrefixIsText(from, c);
    FirstOther(from, c, rest);
  }

  lemma {:induction false} FirstOther(from: Path, c: Path, rest: seq<Path>)
    requires c != from && TextPrefix(from, c)
    ensures |Others(from, [c] + rest)| > 0 && Others(from, [c] + rest)[0] == c
  {
    var order := [c] + rest;
    if rest == [] {
      assert order[..0] == [];
    } else {
      assert order[..|order| - 1] == [c] + rest[..|rest| - 1];
      FirstOther(from, c, rest[..|rest| - 1]);
    }
  }

  ghost predicate NoOrderPanics(a: FS, from: Path, to: Path) {
    forall order :: Enumerates(order, a) ==> NeverPanics(a, from, to, Sources(from, order))
  }

  // Whatever the iteration order, renaming writes no nil map, exactly if the target can be
  // created and no nil map was left where a stored path goes that has something below it.
  lemma RenameNeverPanicsIff(a: FS, from: Path, to: Path)
    requires CanRename(a, from, to) && NoTextSibling(a, from)
    ensures NoOrderPanics(a, from, to) <==> TargetsWritable(a, from, to)
  {
    if TargetsWritable(a, from, to) {
      forall order | Enumerates(order, a)
        ensures NeverPanics(a, from, to, Sources(from, order))
      {
        RenameNeverPanics(a, from, to, order);
      }
    }
    if NoOrderPanics(a, from, to) {
      var order := SomeListing(a.files.Keys);
      FirstIsSafe(a, from, to, order);
      forall x | x != to && Hosts(a, from, to, x)
        ensures !NilAt(a, x)
      {
        if NilAt(a, x) {
          NilPanics(a, from, to, x);
        }
      }
    }
  }

  lemma FirstIsSafe(a: FS, from: Path, to: Path, order: seq<Path>)
    requires CanRename(a, from, to) && NeverPanics(a, from, to, Sources(from, order))
    ensures CreateSafe(Relink(a, from, to), to)
  {
    assert Sources(from, order)[..0] == [];
    assert MoveIsSafe(a, from, to, Sources(from, order), 0);
    ImageFacts(from, to, from);
  }

  lemma NilPanics(a: FS, from: Path, to: Path, x: Path)
    requires CanRename(a, from, to) && NoTextSibling(a, from)
    requires x != to && Hosts(a, from, to, x) && NilAt(a, x)
    ensures !NoOrderPanics(a, from, to)
  {
    var p := Origin(from, to, x);
    var n :| p + [n] in a.files;
    OriginFacts(from, to, x);
    ImageFacts(from, to, from);
    assert p != from;
    assert from <= p + [n];
    var order := KidFirstOrder(a, from, p + [n]);
    SourcesAre(a, from, order);
    SecondPanics(a, from, to, Sources(from, order), p, n);
  }

  // The map that `to` ends up with.

  lemma FirstMoveMap(a: FS, from: Path, to: Path)
    requires CanRename(a, from, to)
    ensures Play(a, from, to, [from]).fs == Move(a, from, to)
    ensures NilAt(Move(a, from, to), to) <==> Lookup(a, from).Nil?
    ensures Lookup(Move(a, from, to), to).Nil? <==> Lookup(a, from).Nil?
  {
    assert [from][..0] == [];
    ImageFacts(from, to, from);
    CreateMapGrows(Relink(a, from, to), to, a.files[from], to);
    RelinkMaps(a, from, to, to);
    UnlinkMaps(Made(a, from, to), from, to);
  }

  lemma MapStays(s: FS, q: Path, r: Path, x: Path)
    requires q in s.files && x != q && x != r && Lookup(s, x).Entries?
    ensures Lookup(Move(s, q, r), x).Entries?
  {
    CreateMapGrows(Relink(s, q, r), r, s.files[q], x);
    RelinkMaps(s, q, r, x);
    UnlinkMaps(Made(s, q, r), q, x);
  }

  lemma {:induction false} TargetMapStays(a: FS, from: Path, to: Path, ds: seq<Path>)
    requires CanRename(a, from, to) && MoveOrder(a, from, ds) && ds != [] && Lookup(a, from).Entries?
    ensures Lookup(Play(a, from, to, ds).fs, to).Entries?
  {
    LastOfOrder(a, from, ds);
    var before, q := ds[..|ds| - 1], ds[|ds| - 1];
    if before == [] {
      FirstMoveMap(a, from, to);
      assert ds == [from];
    } else {
      TargetMapStays(a, from, to, before);
      PlayKeeps(a, from, to, before);
      var s := Play(a, from, to, before).fs;
      SourceInPlace(a, s, from, to, Moved(before), q);
      ImageFacts(from, to, q);
      Nonempty(a, from, to, q);
      assert q != from;
      MapStays(s, q, Image(from, to, q), to);
    }
  }

  lemma UnlistedHasNothingBelow(a: FS, from: Path, p: Path)
    requires Sound(a) && Source(a, from, p) && Lookup(a, from).Nil?
    ensures p == from
  {
    forall n
      ensures from + [n] !in a.files
    {
      SoundMeans(a, from, n);
    }
    assert Childless(a, from);
    if p != from {
      HasKid(a, p, from);
    }
  }

  // The renamed path has a nil child map exactly if the old one had no child map: nothing can be
  // created any more in a directory that was renamed before anything was ever created in it.
  lemma RenamedIsNilIff(a: FS, from: Path, to: Path, order: seq<Path>)
    requires CanRename(a, from, to) && NoTextSibling(a, from) && Enumerates(order, a)
    ensures NilAt(Rename(a, from, to, order).fs, to) <==> Lookup(a, from).Nil?
  {
    var ds := Sources(from, order);
    SourcesAre(a, from, order);
    if Lookup(a, from).Entries? {
      TargetMapStays(a, from, to, ds);
    } else {
      forall i | 0 <= i < |ds|
        ensures ds[i] == from
      {
        UnlistedHasNothingBelow(a, from, ds[i]);
      }
      OnlyOne(ds, from);
      FirstMoveMap(a, from, to);
    }
  }
}
