/**
  The path tree of the in-memory filesystem on values: a flat map from paths to
  file objects plus a redundant index of the children of every directory.
  A path is absolute and clean: the sequence of its components, the root being [].
  */
module MemfsTree {

  type Path = seq<string>
  type Id = nat

  // What a file object holds, besides its contents.
  datatype Node = Node(name: string, dir: bool)

  // Go's map value: a nil map reads as empty and cannot be written.
  datatype ChildMap = Nil | Entries(m: map<string, Id>)

  datatype FS = FS(
    files: map<Path, Id>,
    children: map<Path, ChildMap>,
    nodes: map<Id, Node>,
    next: Id)

  const EMPTY_FS := FS(map[], map[], map[], 0)

  function Base(p: Path): string {
    if p == [] then "/" else p[|p| - 1]
  }

  function Dir(p: Path): Path {
    if p == [] then [] else p[..|p| - 1]
  }

  predicate IsDir(s: FS, id: Id) {
    id in s.nodes && s.nodes[id].dir
  }

  // What indexing the child map of d yields in Go.
  function Lookup(s: FS, d: Path): ChildMap {
    if d in s.children then s.children[d] else Nil
  }

  function Kids(s: FS, d: Path): map<string, Id> {
    match Lookup(s, d)
    case Nil => map[]
    case Entries(m) => m
  }

  // Operations.

  // Writing the entry panics if the map stored for d is nil.
  predicate NilAt(s: FS, d: Path) {
    d in s.children && s.children[d].Nil?
  }

  function AddChild(s: FS, d: Path, name: string, id: Id): FS {
    s.(children := s.children[d := Entries(Kids(s, d)[name := id])])
  }

  function Store(s: FS, p: Path, dir: bool): FS {
    FS(s.files[p := s.next], s.children, s.nodes[s.next := Node(Base(p), dir)], s.next + 1)
  }

  // storage.new: nothing changes if the path is there, as a directory or (with an error) a file.
  function NewFile(s: FS, p: Path, dir: bool): FS
    decreases |p|, 1
  {
    if p in s.files then s else CreateParent(Store(s, p, dir), p, s.next)
  }

  // storage.createParent
  function CreateParent(s: FS, p: Path, id: Id): FS
    decreases |p|, 0
  {
    if p == [] || !ParentUsable(s, p) then s
    else AddChild(NewFile(s, Dir(p), true), Dir(p), Base(p), id)
  }

  // createParent reports an error when the parent path holds a non-directory.
  predicate ParentUsable(s: FS, p: Path) {
    Dir(p) in s.files ==> IsDir(s, s.files[Dir(p)])
  }

  datatype RemoveResult = Removed | NotExist | NotEmpty

  function RemoveOutcome(s: FS, p: Path): RemoveResult {
    if p !in s.files then NotExist
    else if IsDir(s, s.files[p]) && Kids(s, p) != map[] then NotEmpty
    else Removed
  }

  function DropChild(children: map<Path, ChildMap>, d: Path, name: string): map<Path, ChildMap> {
    if d in children && children[d].Entries? then children[d := Entries(children[d].m - {name})] else children
  }

  // For the root, filepath.Split leaves an empty name, which no child has.
  function RemoveFile(s: FS, p: Path): FS {
    if RemoveOutcome(s, p) != Removed then s
    else s.(files := s.files - {p},
            children := if p == [] then s.children else DropChild(s.children, Dir(p), Base(p)))
  }

  // The invariant.

  // Every stored path has its own object, carrying its name.
  predicate Named(s: FS) {
    && (forall p :: p in s.files ==>
          s.files[p] < s.next && s.files[p] in s.nodes && s.nodes[s.files[p]].name == Base(p))
    && (forall p, q :: p in s.files && q in s.files && s.files[p] == s.files[q] ==> p == q)
  }

  predicate HasParent(s: FS, p: Path) {
    p == [] || (Dir(p) in s.files && IsDir(s, s.files[Dir(p)]))
  }

  predicate Listed(s: FS, p: Path) {
    p == [] || (Base(p) in Kids(s, Dir(p)) && p in s.files && Kids(s, Dir(p))[Base(p)] == s.files[p])
  }

  ghost predicate ListsOnlyStored(s: FS) {
    forall d, n :: n in Kids(s, d) ==> d + [n] in s.files && Kids(s, d)[n] == s.files[d + [n]]
  }

  // Everything holds, except that the paths in `loose` may lack a parent and an index entry.
  ghost predicate SoundBut(s: FS, loose: set<Path>) {
    && Named(s)
    && ListsOnlyStored(s)
    && forall p {:trigger HasParent(s, p)} {:trigger Listed(s, p)} ::
         p in s.files && p !in loose ==> HasParent(s, p) && Listed(s, p)
  }

  ghost predicate Sound(s: FS) {
    SoundBut(s, {})
  }

  // No stored proper ancestor of p is a non-directory.
  ghost predicate AncestorsAreDirs(s: FS, p: Path) {
    forall q :: q in s.files && q < p ==> IsDir(s, s.files[q])
  }

  // The index and the path map agree, spelled out.
  lemma SoundMeans(s: FS, d: Path, n: string)
    requires Sound(s)
    ensures n in Kids(s, d) <==> d + [n] in s.files
    ensures n in Kids(s, d) ==> Kids(s, d)[n] == s.files[d + [n]] && s.nodes[Kids(s, d)[n]].name == n
    ensures d + [n] in s.files ==> d in s.files && IsDir(s, s.files[d])
  {
    if d + [n] in s.files {
      assert HasParent(s, d + [n]) && Listed(s, d + [n]);
      assert Dir(d + [n]) == d && Base(d + [n]) == n;
    }
    if n in Kids(s, d) {
      assert Base(d + [n]) == n;
    }
  }

  lemma {:induction false} AncestorsStored(s: FS, p: Path, q: Path)
    requires Sound(s) && p in s.files && q < p
    ensures q in s.files && IsDir(s, s.files[q])
  {
    assert HasParent(s, p);
    if q != Dir(p) {
      AncestorsStored(s, Dir(p), q);
    }
  }

  // Creating.

  // What creating p does at one path q: nothing, or a new object where p or an ancestor is missing.
  ghost predicate GrowsAt(s: FS, t: FS, p: Path, q: Path) {
    if q in s.files then q in t.files && t.files[q] == s.files[q]
    else q in t.files ==>
      && q <= p && s.next <= t.files[q] < t.next
      && t.files[q] in t.nodes && t.nodes[t.files[q]].name == Base(q)
      && (q != p ==> t.nodes[t.files[q]].dir)
  }

  ghost predicate SameNode(s: FS, t: FS, i: Id) {
    i in s.nodes && i < s.next ==> i in t.nodes && t.nodes[i] == s.nodes[i]
  }

  ghost predicate NewDistinct(s: FS, t: FS, q: Path, r: Path) {
    q in t.files && r in t.files && t.files[q] >= s.next && t.files[q] == t.files[r] ==> q == r
  }

  ghost predicate Grows(s: FS, t: FS, p: Path) {
    && s.next <= t.next
    && (forall q :: GrowsAt(s, t, p, q))
    && (forall i :: SameNode(s, t, i))
    && (IdsBelow(s) ==> forall q, r :: NewDistinct(s, t, q, r))
  }

  // Index entries are only added, and only for new paths.
  ghost predicate KidsGrow(s: FS, t: FS, p: Path) {
    && (forall d, n :: n in Kids(s, d) ==> n in Kids(t, d))
    && (forall d, n :: n in Kids(t, d) && d + [n] !in t.files ==> n in Kids(s, d))
    && (forall d, n :: n in Kids(t, d) && (d + [n] in s.files || !(d + [n] <= p)) ==>
          n in Kids(s, d) && Kids(t, d)[n] == Kids(s, d)[n])
  }

  lemma {:induction false} NewGrows(s: FS, p: Path, dir: bool)
    ensures Grows(s, NewFile(s, p, dir), p) && p in NewFile(s, p, dir).files
    ensures p !in s.files ==>
              var t := NewFile(s, p, dir);
              t.files[p] == s.next && s.next in t.nodes && t.nodes[s.next] == Node(Base(p), dir)
    decreases |p|, 1
  {
    if p !in s.files {
      var s' := Store(s, p, dir);
      var t := NewFile(s, p, dir);
      CreateGrows(s', p, s.next);
      assert GrowsAt(s', t, p, p) && SameNode(s', t, s.next);
      forall q
        ensures GrowsAt(s, t, p, q)
      {
        assert GrowsAt(s', t, p, q);
      }
      forall i
        ensures SameNode(s, t, i)
      {
        assert SameNode(s', t, i);
      }
      forall q, r | IdsBelow(s)
        ensures NewDistinct(s, t, q, r)
      {
        assert NewDistinct(s', t, q, r) && NewDistinct(s', t, r, q);
        assert GrowsAt(s', t, p, q) && GrowsAt(s', t, p, r);
      }
    }
  }

  lemma {:induction false} CreateGrows(s: FS, p: Path, id: Id)
    ensures Grows(s, CreateParent(s, p, id), p)
    ensures p in CreateParent(s, p, id).files ==> p in s.files
    decreases |p|, 0
  {
    var t := CreateParent(s, p, id);
    if p != [] && ParentUsable(s, p) {
      NewGrows(s, Dir(p), true);
      var u := NewFile(s, Dir(p), true);
      assert Dir(p) < p;
      assert GrowsAt(s, u, Dir(p), Dir(p)) && GrowsAt(s, u, Dir(p), p);
      forall q
        ensures GrowsAt(s, t, p, q)
      {
        assert GrowsAt(s, u, Dir(p), q);
      }
      forall i
        ensures SameNode(s, t, i)
      {
        assert SameNode(s, u, i);
      }
      forall q, r | IdsBelow(s)
        ensures NewDistinct(s, t, q, r)
      {
        assert NewDistinct(s, u, q, r);
      }
    }
  }

  lemma NewGrowsAt(s: FS, p: Path, dir: bool, q: Path)
    ensures GrowsAt(s, NewFile(s, p, dir), p, q)
    ensures q in s.files ==> SameNode(s, NewFile(s, p, dir), s.files[q])
    ensures s.next <= NewFile(s, p, dir).next
  {
    NewGrows(s, p, dir);
  }

  lemma {:induction false} NewKidsGrow(s: FS, p: Path, dir: bool)
    ensures KidsGrow(s, NewFile(s, p, dir), p)
    decreases |p|, 1
  {
    if p !in s.files {
      var s' := Store(s, p, dir);
      assert forall d :: Kids(s', d) == Kids(s, d);
      NewGrows(s, p, dir);
      CreateKidsGrow(s', p, s.next);
    }
  }

  // Above p itself, the index changes only at new paths; at p it has the given object.
  lemma {:induction false} CreateKidsGrow(s: FS, p: Path, id: Id)
    ensures forall d, n :: n in Kids(s, d) ==> n in Kids(CreateParent(s, p, id), d)
    ensures forall d, n ::
              n in Kids(CreateParent(s, p, id), d) && d + [n] != p && (d + [n] in s.files || !(d + [n] <= p)) ==>
                n in Kids(s, d) && Kids(CreateParent(s, p, id), d)[n] == Kids(s, d)[n]
    ensures forall d, n ::
              n in Kids(CreateParent(s, p, id), d) && d + [n] !in CreateParent(s, p, id).files && d + [n] != p ==>
                n in Kids(s, d)
    ensures p != [] && ParentUsable(s, p) ==>
              Base(p) in Kids(CreateParent(s, p, id), Dir(p)) && Kids(CreateParent(s, p, id), Dir(p))[Base(p)] == id
    decreases |p|, 0
  {
    if p != [] && ParentUsable(s, p) {
      var t := NewFile(s, Dir(p), true);
      NewKidsGrow(s, Dir(p), true);
      assert Dir(p) <= p && p == Dir(p) + [Base(p)];
      AddedChild(t, Dir(p), Base(p), id);
    }
  }

  lemma AddedChild(s: FS, d: Path, name: string, id: Id)
    ensures Kids(AddChild(s, d, name, id), d) == Kids(s, d)[name := id]
    ensures forall e :: e != d ==> Kids(AddChild(s, d, name, id), e) == Kids(s, e)
    ensures forall e, n :: n in Kids(AddChild(s, d, name, id), e) && e + [n] != d + [name] ==>
                             n in Kids(s, e) && Kids(AddChild(s, d, name, id), e)[n] == Kids(s, e)[n]
  {
    forall e, n | n in Kids(AddChild(s, d, name, id), e) && e + [n] != d + [name]
      ensures n in Kids(s, e) && Kids(AddChild(s, d, name, id), e)[n] == Kids(s, e)[n]
    {
    }
  }

  lemma ParentAfter(s: FS, p: Path)
    requires AncestorsAreDirs(s, p) && p != []
    ensures HasParent(NewFile(s, Dir(p), true), p)
  {
    assert Dir(p) < p;
    NewGrows(s, Dir(p), true);
  }

  predicate IdsBelow(s: FS) {
    forall q :: q in s.files ==> s.files[q] < s.next
  }

  // New paths come with their parent directory.
  lemma {:induction false} NewClosed(s: FS, p: Path, dir: bool)
    requires IdsBelow(s) && AncestorsAreDirs(s, p)
    ensures forall q :: q in NewFile(s, p, dir).files && q !in s.files ==> HasParent(NewFile(s, p, dir), q)
    decreases |p|, 1
  {
    if p !in s.files {
      CreateClosed(Store(s, p, dir), p, s.next);
    }
  }

  lemma {:induction false} CreateClosed(s: FS, p: Path, id: Id)
    requires IdsBelow(s) && AncestorsAreDirs(s, p)
    ensures HasParent(CreateParent(s, p, id), p)
    ensures forall q :: q in CreateParent(s, p, id).files && q !in s.files ==> HasParent(CreateParent(s, p, id), q)
    decreases |p|, 0
  {
    if p != [] {
      assert Dir(p) < p;
      NewClosed(s, Dir(p), true);
      ParentAfter(s, p);
      var t, u := NewFile(s, Dir(p), true), CreateParent(s, p, id);
      assert u.files == t.files && u.nodes == t.nodes;
      forall q | q in u.files && q !in s.files
        ensures HasParent(u, q)
      {
        assert HasParent(t, q);
      }
    }
  }

  // New paths are listed.
  lemma {:induction false} NewListed(s: FS, p: Path, dir: bool, q: Path)
    requires IdsBelow(s) && AncestorsAreDirs(s, p)
    requires q in NewFile(s, p, dir).files && q !in s.files
    ensures Listed(NewFile(s, p, dir), q)
    decreases |p|, 1
  {
    var s' := Store(s, p, dir);
    if q == p {
      CreateGrows(s', p, s.next);
      assert GrowsAt(s', NewFile(s, p, dir), p, p);
      CreateKidsGrow(s', p, s.next);
      if p != [] {
        assert Dir(p) < p;
      }
    } else {
      CreateListed(s', p, s.next, q);
    }
  }

  lemma {:induction false} CreateListed(s: FS, p: Path, id: Id, q: Path)
    requires IdsBelow(s) && AncestorsAreDirs(s, p)
    requires q in CreateParent(s, p, id).files && q !in s.files
    ensures Listed(CreateParent(s, p, id), q)
    decreases |p|, 0
  {
    assert Dir(p) < p;
    NewGrowsAt(s, Dir(p), true, q);
    NewListed(s, Dir(p), true, q);
    StillListed(NewFile(s, Dir(p), true), p, id, q);
  }

  lemma StillListed(s: FS, p: Path, id: Id, q: Path)
    requires Listed(s, q) && q != p && p != []
    ensures Listed(AddChild(s, Dir(p), Base(p), id), q)
  {
    if q != [] {
      assert q == Dir(q) + [Base(q)] && p == Dir(p) + [Base(p)];
    }
  }

  lemma StoreSound(s: FS, p: Path, dir: bool, loose: set<Path>)
    requires SoundBut(s, loose) && p !in s.files
    ensures SoundBut(Store(s, p, dir), loose + {p})
  {
    var t := Store(s, p, dir);
    forall d, n | n in Kids(t, d)
      ensures d + [n] in t.files && Kids(t, d)[n] == t.files[d + [n]]
    {
      assert n in Kids(s, d);
    }
    forall q | q in t.files && q !in loose + {p}
      ensures HasParent(t, q) && Listed(t, q)
    {
      assert HasParent(s, q) && Listed(s, q);
    }
  }

  lemma ChildSound(s: FS, p: Path, loose: set<Path>)
    requires SoundBut(s, loose + {p}) && p in s.files && p != [] && HasParent(s, p)
    ensures SoundBut(AddChild(s, Dir(p), Base(p), s.files[p]), loose)
  {
    var t := AddChild(s, Dir(p), Base(p), s.files[p]);
    assert p == Dir(p) + [Base(p)];
    AddedChild(s, Dir(p), Base(p), s.files[p]);
    forall d, n | n in Kids(t, d)
      ensures d + [n] in t.files && Kids(t, d)[n] == t.files[d + [n]]
    {
      if d + [n] == p {
        assert Dir(d + [n]) == d && Base(d + [n]) == n;
      }
    }
    forall q | q in t.files && q !in loose
      ensures HasParent(t, q) && Listed(t, q)
    {
      if q != p {
        assert HasParent(s, q) && Listed(s, q);
        StillListed(s, p, s.files[p], q);
      }
    }
  }

  lemma {:induction false} NewFileSound(s: FS, p: Path, dir: bool, loose: set<Path>)
    requires SoundBut(s, loose) && AncestorsAreDirs(s, p)
    requires forall q :: q in loose ==> p < q
    ensures SoundBut(NewFile(s, p, dir), loose)
    decreases |p|, 1
  {
    if p !in s.files {
      StoreSound(s, p, dir, loose);
      CreateParentSound(Store(s, p, dir), p, loose);
    }
  }

  lemma {:induction false} CreateParentSound(s: FS, p: Path, loose: set<Path>)
    requires SoundBut(s, loose + {p}) && p in s.files && AncestorsAreDirs(s, p)
    requires forall q :: q in loose ==> p < q
    ensures SoundBut(CreateParent(s, p, s.files[p]), loose)
    decreases |p|, 0
  {
    if p == [] {
      assert forall q :: q in s.files && q !in loose ==> HasParent(s, q) && Listed(s, q);
    } else {
      assert Dir(p) < p;
      NewFileSound(s, Dir(p), true, loose + {p});
      NewGrowsAt(s, Dir(p), true, p);
      ParentAfter(s, p);
      ChildSound(NewFile(s, Dir(p), true), p, loose);
    }
  }

  // Creating a path below a stored non-directory leaves a path without a parent directory.

  lemma {:induction false} NewStoresAbove(s: FS, p: Path, dir: bool, q: Path)
    requires q <= p && forall r :: q <= r && r <= p ==> r !in s.files
    ensures q in NewFile(s, p, dir).files
    decreases |p|
  {
    NewGrows(s, p, dir);
    if q != p {
      assert Dir(p) <= p && q <= Dir(p);
      NewStoresAbove(Store(s, p, dir), Dir(p), true, q);
    }
  }

  lemma BelowFileUnsound(s: FS, p: Path, dir: bool, q: Path)
    requires Sound(s) && p !in s.files && q in s.files && q < p && !IsDir(s, s.files[q])
    ensures !Sound(NewFile(s, p, dir))
  {
    var r := p[..|q| + 1];
    assert Dir(r) == q;
    forall x | r <= x && x <= p
      ensures x !in s.files
    {
      if x in s.files {
        AncestorsStored(s, x, q);
      }
    }
    NewStoresAbove(s, p, dir, r);
    NewGrowsAt(s, p, dir, q);
    assert !HasParent(NewFile(s, p, dir), r);
  }

  // storage.new keeps index and path map in agreement exactly when no stored ancestor of a new
  // path is a non-directory: the error of the dropped createParent call goes unnoticed otherwise.
  lemma NewSoundIff(s: FS, p: Path, dir: bool)
    requires Sound(s) && p !in s.files
    ensures Sound(NewFile(s, p, dir)) <==> AncestorsAreDirs(s, p)
  {
    if AncestorsAreDirs(s, p) {
      NewFileSound(s, p, dir, {});
    } else {
      var q :| q in s.files && q < p && !IsDir(s, s.files[q]);
      BelowFileUnsound(s, p, dir, q);
    }
  }

  // Removing.

  lemma Dropped(children: map<Path, ChildMap>, s: FS, p: Path, d: Path)
    requires s.children == children && p != []
    ensures Kids(s.(children := DropChild(children, Dir(p), Base(p))), d)
            == if d == Dir(p) then Kids(s, d) - {Base(p)} else Kids(s, d)
  {
  }

  lemma RemoveSound(s: FS, p: Path)
    requires Sound(s)
    ensures Sound(RemoveFile(s, p))
    ensures RemoveFile(s, p).files == if RemoveOutcome(s, p) == Removed then s.files - {p} else s.files
  {
    if RemoveOutcome(s, p) == Removed {
      var t := RemoveFile(s, p);
      forall d
        ensures Kids(t, d) == if p != [] && d == Dir(p) then Kids(s, d) - {Base(p)} else Kids(s, d)
      {
        if p != [] {
          Dropped(s.children, s, p, d);
        }
      }
      forall d, n | n in Kids(t, d)
        ensures d + [n] in t.files && Kids(t, d)[n] == t.files[d + [n]]
      {
        assert n in Kids(s, d);
        assert d + [n] == p ==> d == Dir(p) && n == Base(p);
      }
      forall q | q in t.files
        ensures HasParent(t, q) && Listed(t, q)
      {
        assert HasParent(s, q) && Listed(s, q);
        if q != [] {
          assert q == Dir(q) + [Base(q)];
          assert p != [] ==> p == Dir(p) + [Base(p)];
        }
      }
    }
  }

  // A path can be removed exactly when nothing is stored below it.
  lemma RemovedIffNothingBelow(s: FS, p: Path)
    requires Sound(s) && p in s.files
    ensures RemoveOutcome(s, p) == Removed <==> forall q :: q in s.files ==> !(p < q)
  {
    if RemoveOutcome(s, p) != Removed {
      var n :| n in Kids(s, p);
      assert p + [n] in s.files && p < p + [n];
    }
    if q :| q in s.files && p < q {
      var c := q[..|p| + 1];
      if c != q {
        AncestorsStored(s, q, c);
      }
      assert HasParent(s, c) && Listed(s, c) && Dir(c) == p;
    }
  }
}
