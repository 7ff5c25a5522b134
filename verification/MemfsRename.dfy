/**
  Renaming in the in-memory filesystem: the path itself is moved first, then
  every other path that has the old name as a textual prefix, one at a time, in
  whatever order Go's map iteration yields them.
  */
module MemfsRename {
  import opened Wrappers
  import opened MemfsTree

  function Image(from: Path, to: Path, p: Path): Path
    requires from <= p
  {
    to + p[|from|..]
  }

  // filepath.HasPrefix compares text: the last component of `from` may be cut short.
  predicate TextPrefix(from: Path, p: Path) {
    from == [] || (|from| <= |p| && p[..|from| - 1] == Dir(from) && Base(from) <= p[|from| - 1])
  }

  // Join(to, Rel(from, p)). Outside the subtree of `from` the relative path begins with "..".
  // It is used only for paths with the textual prefix `from`.
  function Target(from: Path, to: Path, p: Path): Path {
    if from <= p then Image(from, to, p)
    else if 0 < |from| <= |p| then Dir(to) + p[|from| - 1..]
    else p
  }

  // The three parts of storage.move.

  function Relink(s: FS, p: Path, q: Path): FS
    requires p in s.files
  {
    s.(files := s.files[q := s.files[p]],
    children := s.children[q := Lookup(s, p)],
    nodes := s.nodes[s.files[p] := Node(Base(q), IsDir(s, s.files[p]))])
  }

  function Unlink(s: FS, p: Path): FS {
    s.(files := s.files - {p}, children := DropChild(s.children - {p}, Dir(p), Base(p)))
  }

  // The tree after CreateParent, before the old path is deleted.
  function Made(s: FS, q: Path, r: Path): FS
    requires q in s.files
  {
    CreateParent(Relink(s, q, r), r, s.files[q])
  }

  // Until then the old and the new path share one child map: what CreateParent enters under the
  // old path is entered under the new one.
  function Shared(s: FS, p: Path, q: Path): FS
    requires p in s.files
  {
    var t := Made(s, p, q);
    if p < q && Lookup(s, p).Entries? then t.(children := t.children[q := Lookup(t, p)]) else t
  }

  function Move(s: FS, p: Path, q: Path): FS {
    if p !in s.files then s else Unlink(Shared(s, p, q), p)
  }

  predicate MoveFails(s: FS, p: Path, q: Path) {
    p !in s.files || (q != [] && !ParentUsable(Relink(s, p, q), q))
  }

  datatype Progress = Progress(fs: FS, failed: bool)

  // The moves of `sources`, in order; the first error ends the renaming.
  function Play(a: FS, from: Path, to: Path, sources: seq<Path>): Progress
  {
    if sources == [] then Progress(a, false)
    else
      var done := Play(a, from, to, sources[..|sources| - 1]);
      var p := sources[|sources| - 1];
      if done.failed then done
      else Progress(Move(done.fs, p, Target(from, to, p)), MoveFails(done.fs, p, Target(from, to, p)))
  }

  // The other paths to move, in the order in which the iteration yields all paths.
  function Others(from: Path, order: seq<Path>): (r: seq<Path>)
    ensures forall p :: p in r <==> p in order && p != from && TextPrefix(from, p)
  {
    if order == [] then []
    else
      var rest, p := Others(from, order[..|order| - 1]), order[|order| - 1];
      if p != from && TextPrefix(from, p) then rest + [p] else rest
  }

  function Sources(from: Path, order: seq<Path>): (r: seq<Path>)
    ensures forall p :: p in r ==> TextPrefix(from, p)
  {
    [from] + Others(from, order)
  }

  function Rename(a: FS, from: Path, to: Path, order: seq<Path>): Progress {
    Play(a, from, to, Sources(from, order))
  }

  // An order in which a map range may visit the stored paths.
  ghost predicate Enumerates(order: seq<Path>, a: FS) {
    NoDuplicates(order) && forall p :: p in order <==> p in a.files
  }

  // What renaming is for: a stored path goes to an unused place outside its own subtree,
  // whose ancestors are not files.
  ghost predicate CanRename(a: FS, from: Path, to: Path) {
    && Sound(a)
    && from in a.files && from != [] && !(from <= to)
    && (forall p :: p in a.files ==> !(to <= p))
    && AncestorsAreDirs(a, to)
  }

  // No path outside the subtree has the old name as a textual prefix.
  ghost predicate NoTextSibling(a: FS, from: Path) {
    forall p :: p in a.files && TextPrefix(from, p) ==> from <= p
  }

  // One move in general.

  lemma RelinkKids(s: FS, p: Path, q: Path, d: Path)
    ensures p in s.files ==> Kids(Relink(s, p, q), d) == if d == q then Kids(s, p) else Kids(s, d)
  {
  }

  lemma UnlinkKids(s: FS, p: Path, d: Path)
    ensures p != [] ==>
              Kids(Unlink(s, p), d)
              == if d == p then map[] else if d == Dir(p) then Kids(s, d) - {Base(p)} else Kids(s, d)
  {
    if p != [] {
      Dropped(s.children - {p}, s.(children := s.children - {p}), p, d);
    }
  }

  // Path arithmetic.

  function Origin(from: Path, to: Path, k: Path): Path
    requires to <= k
  {
    from + k[|to|..]
  }

  lemma ImageFacts(from: Path, to: Path, p: Path)
    requires from <= p
    ensures to <= Image(from, to, p) && Origin(from, to, Image(from, to, p)) == p
    ensures p == from ==> Image(from, to, p) == to
    ensures p != from ==>
              from <= Dir(p) && Dir(Image(from, to, p)) == Image(from, to, Dir(p))
              && Base(Image(from, to, p)) == Base(p)
    ensures to != [] ==> Image(from, to, p) != []
  {
    assert p == from + p[|from|..];
    if p != from {
      assert p[..|p| - 1][|from|..] == p[|from|..][..|p| - |from| - 1];
    }
  }

  lemma OriginFacts(from: Path, to: Path, k: Path)
    ensures to <= k ==> from <= Origin(from, to, k) && Image(from, to, Origin(from, to, k)) == k
  {
  }

  lemma Comparable(p: Path, q: Path, r: Path)
    ensures p <= r && q <= r ==> p <= q || q <= p
  {
    if p <= r && q <= r {
      assert if |p| <= |q| then p == r[..|p|] == q[..|p|] else q == r[..|q|] == p[..|q|];
    }
  }

  lemma PrefixTransitive(p: Path, q: Path, r: Path)
    ensures p <= q && q <= r ==> p <= r
  {
  }

  ghost predicate OnTargetSide(to: Path, k: Path) {
    k <= to || to <= k
  }

  // Neither side of the renaming is on the other's way.
  lemma Apart(a: FS, from: Path, to: Path, k: Path)
    requires CanRename(a, from, to) && OnTargetSide(to, k)
    ensures !(from <= k)
  {
    if from <= k {
      if k <= to {
        PrefixTransitive(from, k, to);
      } else {
        Comparable(from, to, k);
      }
      assert false;
    }
  }

  ghost predicate Source(a: FS, from: Path, p: Path) {
    p in a.files && from <= p
  }

  // Every prefix of a source's new path, down to `to`, is the new path of a source.
  lemma PrefixIsSource(a: FS, from: Path, to: Path, q: Path, k: Path)
    requires Sound(a) && Source(a, from, q) && to <= k && k <= Image(from, to, q)
    ensures Origin(from, to, k) <= q && Source(a, from, Origin(from, to, k))
    ensures k != Image(from, to, q) ==> IsDir(a, a.files[Origin(from, to, k)])
  {
    var p := Origin(from, to, k);
    PrefixOrigin(from, to, q, k);
    OriginFacts(from, to, k);
    if p != q {
      AncestorsStored(a, q, p);
    }
  }

  lemma PrefixOrigin(from: Path, to: Path, q: Path, k: Path)
    requires from <= q && to <= k && k <= Image(from, to, q)
    ensures Origin(from, to, k) <= q
    ensures Origin(from, to, k) == q ==> k == Image(from, to, q)
  {
    var p := Origin(from, to, k);
    ImageFacts(from, to, q);
    OriginFacts(from, to, k);
    assert k[|to|..] == Image(from, to, q)[|to|..][..|k| - |to|];
    assert p == q[..|p|];
  }

  // The state of a renaming after the sources in `done` have been moved, path by path.

  // A directory made on the way: above `to`, or where a source is still to come.
  ghost predicate InterimPlace(a: FS, from: Path, to: Path, done: set<Path>, k: Path) {
    k < to || (to < k && Origin(from, to, k) in a.files && Origin(from, to, k) !in done)
  }

  ghost predicate Fits(a: FS, s: FS, from: Path, to: Path, done: set<Path>, k: Path) {
    if k in a.files && k !in done then
      k in s.files && s.files[k] == a.files[k]
    else if to <= k && Origin(from, to, k) in done then
      k in s.files && Origin(from, to, k) in a.files && s.files[k] == a.files[Origin(from, to, k)]
    else k in s.files ==>
      && s.files[k] >= a.next && s.files[k] in s.nodes && s.nodes[s.files[k]] == Node(Base(k), true)
      && InterimPlace(a, from, to, done, k)
  }

  ghost predicate NodeFits(a: FS, s: FS, from: Path, to: Path, done: set<Path>, p: Path) {
    p in a.files ==>
      && a.files[p] in s.nodes
      && s.nodes[a.files[p]] == Node(if p == from && from in done then Base(to) else Base(p), IsDir(a, a.files[p]))
  }

  ghost predicate FreshDistinct(a: FS, s: FS, k: Path, l: Path) {
    k in s.files && l in s.files && s.files[k] >= a.next && s.files[k] == s.files[l] ==> k == l
  }

  ghost predicate Rooted(s: FS, to: Path, k: Path) {
    k in s.files && OnTargetSide(to, k) ==> HasParent(s, k)
  }

  ghost predicate IdBelow(s: FS, k: Path) {
    k in s.files ==> s.files[k] < s.next
  }

  ghost predicate Moving(a: FS, s: FS, from: Path, to: Path, done: set<Path>) {
    && a.next <= s.next
    && (forall p :: p in done ==> Source(a, from, p))
    && (forall k :: IdBelow(s, k))
    && (forall k :: Fits(a, s, from, to, done, k))
    && (forall p :: NodeFits(a, s, from, to, done, p))
    && (forall k, l :: FreshDistinct(a, s, k, l))
    && (forall k :: Rooted(s, to, k))
  }

  lemma MovingAtStart(a: FS, from: Path, to: Path)
    requires CanRename(a, from, to)
    ensures Moving(a, a, from, to, {})
  {
    forall k
      ensures IdBelow(a, k) && Fits(a, a, from, to, {}, k) && Rooted(a, to, k)
    {
    }
    forall k, l
      ensures FreshDistinct(a, a, k, l)
    {
    }
    forall p
      ensures NodeFits(a, a, from, to, {}, p)
    {
    }
  }

  ghost predicate CanMove(a: FS, s: FS, from: Path, to: Path, done: set<Path>, q: Path) {
    && CanRename(a, from, to)
    && Moving(a, s, from, to, done)
    && Source(a, from, q) && q !in done
    && (if q == from then done == {} else from in done)
  }

  lemma SourceInPlace(a: FS, s: FS, from: Path, to: Path, done: set<Path>, q: Path)
    requires CanMove(a, s, from, to, done, q)
    ensures q in s.files && s.files[q] == a.files[q] && a.files[q] < a.next
            && IsDir(s, a.files[q]) == IsDir(a, a.files[q])
    ensures Shared(s, q, Image(from, to, q)) == Made(s, q, Image(from, to, q))
  {
    if q < Image(from, to, q) {
      ImageFacts(from, to, q);
      PrefixTransitive(from, q, Image(from, to, q));
      Apart(a, from, to, Image(from, to, q));
    }
    assert Fits(a, s, from, to, done, q) && NodeFits(a, s, from, to, done, q);
  }

  lemma AncestorAt(a: FS, s: FS, from: Path, to: Path, done: set<Path>, q: Path, k: Path)
    requires CanMove(a, s, from, to, done, q)
    requires k in s.files && k < Image(from, to, q)
    ensures IsDir(s, s.files[k])
  {
    ImageFacts(from, to, q);
    Comparable(k, to, Image(from, to, q));
    assert Fits(a, s, from, to, done, k) && NodeFits(a, s, from, to, done, k);
    if to <= k {
      PrefixIsSource(a, from, to, q, k);
      assert NodeFits(a, s, from, to, done, Origin(from, to, k));
    }
  }

  lemma TargetAncestorsAreDirs(a: FS, s: FS, from: Path, to: Path, done: set<Path>, q: Path)
    requires CanMove(a, s, from, to, done, q) && q in s.files && s.files[q] == a.files[q]
    ensures AncestorsAreDirs(Relink(s, q, Image(from, to, q)), Image(from, to, q))
  {
    var r := Image(from, to, q);
    SourceInPlace(a, s, from, to, done, q);
    forall k | k in s.files && k < r
      ensures IsDir(s, s.files[k])
    {
      AncestorAt(a, s, from, to, done, q, k);
    }
  }

  // What is added for q are directories above `to` or where sources are still to come.
  lemma AddedPlaceAt(a: FS, s: FS, from: Path, to: Path, done: set<Path>, q: Path, k: Path)
    requires k !in s.files && k != to && OnTargetSide(to, k)
    requires Fits(a, s, from, to, done, k) && k !in done
    requires to <= k ==> Origin(from, to, k) in a.files && Origin(from, to, k) != q
    ensures k !in a.files && InterimPlace(a, from, to, done + {q}, k)
  {
  }

  lemma TargetStored(a: FS, s: FS, from: Path, to: Path, done: set<Path>)
    requires Moving(a, s, from, to, done) && from in done && !(from <= to)
    ensures to in s.files
  {
    assert Fits(a, s, from, to, done, to);
    assert from + to[|to|..] == from;
  }

  lemma AddedPlace(a: FS, s: FS, from: Path, to: Path, done: set<Path>, q: Path, k: Path)
    requires CanMove(a, s, from, to, done, q)
    requires k < Image(from, to, q) && k !in s.files
    ensures k !in a.files && InterimPlace(a, from, to, done + {q}, k)
  {
    ImageFacts(from, to, q);
    Comparable(k, to, Image(from, to, q));
    Apart(a, from, to, k);
    if q != from {
      TargetStored(a, s, from, to, done);
    }
    if to <= k {
      PrefixIsSource(a, from, to, q, k);
      OriginFacts(from, to, k);
    }
    assert Fits(a, s, from, to, done, k);
    AddedPlaceAt(a, s, from, to, done, q, k);
  }

  lemma FitsStep(a: FS, s: FS, u: FS, from: Path, to: Path, done: set<Path>, q: Path, r: Path, k: Path)
    requires q in a.files && q in s.files && s.files[q] == a.files[q] && a.files[q] < a.next <= s.next
    requires to <= r && Origin(from, to, r) == q
    requires to <= k && Origin(from, to, k) == q ==> k == r
    requires k in a.files || k == q ==> !(to <= k)
    requires Fits(a, s, from, to, done, k) && IdBelow(s, k)
    requires GrowsAt(Relink(s, q, r), u, r, k)
    requires k in s.files ==> SameNode(Relink(s, q, r), u, s.files[k])
    requires k < r && k !in s.files ==> k !in a.files && InterimPlace(a, from, to, done + {q}, k)
    requires OnTargetSide(to, k) ==> k != q
    ensures Fits(a, Unlink(u, q), from, to, done + {q}, k)
    ensures Unlink(u, q).next == u.next
  {
  }

  lemma FitsAfter(a: FS, s: FS, from: Path, to: Path, done: set<Path>, q: Path, k: Path)
    requires CanMove(a, s, from, to, done, q)
    ensures Fits(a, Move(s, q, Image(from, to, q)), from, to, done + {q}, k)
    ensures IdBelow(Move(s, q, Image(from, to, q)), k)
  {
    var r := Image(from, to, q);
    SourceInPlace(a, s, from, to, done, q);
    ImageFacts(from, to, q);
    if to <= k {
      OriginFacts(from, to, k);
    }
    if OnTargetSide(to, k) {
      Apart(a, from, to, k);
    }
    if k < r && k !in s.files {
      AddedPlace(a, s, from, to, done, q, k);
    }
    CreateGrows(Relink(s, q, r), r, s.files[q]);
    var u := Made(s, q, r);
    assert Fits(a, s, from, to, done, k) && IdBelow(s, k) && IdBelow(s, q);
    assert GrowsAt(Relink(s, q, r), u, r, k);
    assert k in s.files ==> SameNode(Relink(s, q, r), u, s.files[k]);
    FitsStep(a, s, u, from, to, done, q, r, k);
  }

  lemma NodeStep(a: FS, s: FS, u: FS, from: Path, to: Path, done: set<Path>, q: Path, r: Path, p: Path)
    requires q in s.files && q in a.files && s.files[q] == a.files[q]
    requires Base(r) == if q == from then Base(to) else Base(q)
    requires p in a.files ==> a.files[p] < s.next && (a.files[p] == a.files[q] ==> p == q)
    requires NodeFits(a, s, from, to, done, p) && NodeFits(a, s, from, to, done, q)
    requires p in a.files ==> SameNode(Relink(s, q, r), u, a.files[p])
    ensures NodeFits(a, u, from, to, done + {q}, p)
  {
  }

  lemma NodeFitsAfter(a: FS, s: FS, from: Path, to: Path, done: set<Path>, q: Path, p: Path)
    requires CanMove(a, s, from, to, done, q)
    ensures NodeFits(a, Move(s, q, Image(from, to, q)), from, to, done + {q}, p)
  {
    var r := Image(from, to, q);
    SourceInPlace(a, s, from, to, done, q);
    ImageFacts(from, to, q);
    CreateGrows(Relink(s, q, r), r, s.files[q]);
    assert NodeFits(a, s, from, to, done, p) && NodeFits(a, s, from, to, done, q);
    assert p in a.files ==> SameNode(Relink(s, q, r), Made(s, q, r), a.files[p]);
    NodeStep(a, s, Made(s, q, r), from, to, done, q, r, p);
  }

  lemma DistinctAfter(a: FS, s: FS, from: Path, to: Path, done: set<Path>, q: Path, k: Path, l: Path)
    requires CanMove(a, s, from, to, done, q)
    ensures FreshDistinct(a, Move(s, q, Image(from, to, q)), k, l)
  {
    var r := Image(from, to, q);
    SourceInPlace(a, s, from, to, done, q);
    var s1 := Relink(s, q, r);
    CreateGrows(s1, r, s.files[q]);
    var u := Made(s, q, r);
    assert FreshDistinct(a, s, k, l) && IdBelow(s, k) && IdBelow(s, l);
    assert IdsBelow(s1) by {
      forall x | x in s1.files
        ensures s1.files[x] < s1.next
      {
        assert IdBelow(s, x) && IdBelow(s, q);
      }
    }
    assert NewDistinct(s1, u, k, l) && NewDistinct(s1, u, l, k);
    assert GrowsAt(s1, u, r, k) && GrowsAt(s1, u, r, l);
  }

  lemma OriginDir(from: Path, to: Path, q: Path, k: Path)
    requires from <= q && k != [] && Dir(k) == Image(from, to, q)
    ensures to <= k && Origin(from, to, k) != [] && Dir(Origin(from, to, k)) == q
  {
    var p := Origin(from, to, k);
    assert k == (to + q[|from|..]) + [Base(k)];
    assert k[|to|..] == q[|from|..] + [Base(k)];
    assert p == q + [Base(k)];
  }

  // A source with something stored at a place below its new path is a directory.
  lemma SourceAbove(a: FS, s: FS, from: Path, to: Path, done: set<Path>, q: Path, k: Path)
    requires CanRename(a, from, to) && Source(a, from, q)
    requires Fits(a, s, from, to, done, k) && k in s.files && k != [] && Dir(k) == Image(from, to, q)
    ensures IsDir(a, a.files[q])
  {
    OriginDir(from, to, q, k);
    assert HasParent(a, Origin(from, to, k));
  }

  lemma MadeRooted(a: FS, s: FS, from: Path, to: Path, done: set<Path>, q: Path, k: Path)
    requires CanMove(a, s, from, to, done, q) && q in s.files && s.files[q] == a.files[q]
    requires OnTargetSide(to, k) && k in Made(s, q, Image(from, to, q)).files
    ensures HasParent(Made(s, q, Image(from, to, q)), k)
  {
    var r := Image(from, to, q);
    TargetAncestorsAreDirs(a, s, from, to, done, q);
    RelinkIds(a, s, from, to, done, q);
    var s1 := Relink(s, q, r);
    CreateClosed(s1, r, s.files[q]);
    if k != r && k in s1.files && k != [] {
      StaysRooted(a, s, from, to, done, q, k);
    }
  }

  lemma StaysRooted(a: FS, s: FS, from: Path, to: Path, done: set<Path>, q: Path, k: Path)
    requires CanMove(a, s, from, to, done, q) && q in s.files && s.files[q] == a.files[q]
    requires OnTargetSide(to, k) && k in s.files && k != []
    ensures HasParent(Made(s, q, Image(from, to, q)), k)
  {
    var r := Image(from, to, q);
    var s1, u := Relink(s, q, r), Made(s, q, r);
    assert Rooted(s, to, k) && IdBelow(s, Dir(k)) && IdBelow(s, q);
    SourceInPlace(a, s, from, to, done, q);
    if Dir(k) == r {
      assert Fits(a, s, from, to, done, k);
      SourceAbove(a, s, from, to, done, q, k);
    }
    RelinkDirs(s, q, r, Dir(k));
    CreateGrows(s1, r, s.files[q]);
    assert GrowsAt(s1, u, r, Dir(k)) && SameNode(s1, u, s1.files[Dir(k)]);
  }

  lemma RootedAfter(a: FS, s: FS, from: Path, to: Path, done: set<Path>, q: Path, k: Path)
    requires CanMove(a, s, from, to, done, q)
    ensures Rooted(Move(s, q, Image(from, to, q)), to, k)
  {
    SourceInPlace(a, s, from, to, done, q);
    if k in Move(s, q, Image(from, to, q)).files && OnTargetSide(to, k) {
      MadeRooted(a, s, from, to, done, q, k);
      Apart(a, from, to, k);
      RootedUnlink(Made(s, q, Image(from, to, q)), from, q, k);
    }
  }

  lemma RootedUnlink(u: FS, from: Path, q: Path, k: Path)
    requires HasParent(u, k) && from <= q && !(from <= k)
    ensures HasParent(Unlink(u, q), k)
  {
    if k != [] && Dir(k) == q {
      PrefixTransitive(from, q, k);
    }
  }

  lemma RelinkDirs(s: FS, q: Path, r: Path, d: Path)
    ensures q in s.files && d in s.files && IsDir(s, s.files[d]) && (d == r ==> IsDir(s, s.files[q])) ==>
              d in Relink(s, q, r).files && IsDir(Relink(s, q, r), Relink(s, q, r).files[d])
  {
  }

  lemma RelinkIds(a: FS, s: FS, from: Path, to: Path, done: set<Path>, q: Path)
    requires CanMove(a, s, from, to, done, q) && q in s.files
    ensures IdsBelow(Relink(s, q, Image(from, to, q)))
  {
    forall x | x in s.files || x == q
      ensures s.files[x] < s.next
    {
      assert IdBelow(s, x);
    }
  }

  lemma MoveSucceeds(a: FS, s: FS, from: Path, to: Path, done: set<Path>, q: Path)
    requires CanMove(a, s, from, to, done, q)
    ensures !MoveFails(s, q, Image(from, to, q))
    ensures s.next <= Move(s, q, Image(from, to, q)).next
  {
    var r := Image(from, to, q);
    SourceInPlace(a, s, from, to, done, q);
    TargetAncestorsAreDirs(a, s, from, to, done, q);
    CreateGrows(Relink(s, q, r), r, s.files[q]);
    assert r != [] ==> Dir(r) < r;
  }

  // Moving one more source keeps the state of the renaming, and does not fail.
  lemma MoveKeeps(a: FS, s: FS, from: Path, to: Path, done: set<Path>, q: Path)
    requires CanMove(a, s, from, to, done, q)
    ensures !MoveFails(s, q, Image(from, to, q))
    ensures Moving(a, Move(s, q, Image(from, to, q)), from, to, done + {q})
  {
    MoveSucceeds(a, s, from, to, done, q);
    var t := Move(s, q, Image(from, to, q));
    forall k
      ensures Fits(a, t, from, to, done + {q}, k) && IdBelow(t, k)
    {
      FitsAfter(a, s, from, to, done, q, k);
    }
    forall k
      ensures Rooted(t, to, k)
    {
      RootedAfter(a, s, from, to, done, q, k);
    }
    forall k, l
      ensures FreshDistinct(a, t, k, l)
    {
      DistinctAfter(a, s, from, to, done, q, k, l);
    }
    forall p
      ensures NodeFits(a, t, from, to, done + {q}, p)
    {
      NodeFitsAfter(a, s, from, to, done, q, p);
    }
  }

  // The index during a renaming, entry by entry, after the sources ds have been moved in order.

  ghost predicate MovedBefore(ds: seq<Path>, c: Path, q: Path) {
    exists i, j :: 0 <= i < j < |ds| && ds[i] == c && ds[j] == q
  }

  ghost predicate UnmovedKid(a: FS, s: FS, ds: seq<Path>, d: Path, n: string) {
    && (n in Kids(s, d) <==> d + [n] in a.files && d + [n] !in ds)
    && (n in Kids(s, d) ==> Kids(s, d)[n] == a.files[d + [n]])
  }

  // d is the new path of q: the children that were not moved before q are listed.
  ghost predicate MovedKid(a: FS, s: FS, ds: seq<Path>, q: Path, d: Path, n: string) {
    && (n in Kids(s, d) <==> q + [n] in a.files && !MovedBefore(ds, q + [n], q))
    && (n in Kids(s, d) && q + [n] in ds ==> Kids(s, d)[n] == a.files[q + [n]])
  }

  ghost predicate OtherKid(s: FS, d: Path, n: string) {
    && (n in Kids(s, d) <==> d + [n] in s.files)
    && (n in Kids(s, d) ==> Kids(s, d)[n] == s.files[d + [n]])
  }

  ghost predicate KidFits(a: FS, s: FS, from: Path, to: Path, ds: seq<Path>, d: Path, n: string) {
    if from <= d then
      if d in a.files && d !in ds then UnmovedKid(a, s, ds, d, n) else n !in Kids(s, d)
    else if to <= d then
      if Origin(from, to, d) in ds then MovedKid(a, s, ds, Origin(from, to, d), d, n)
      else Origin(from, to, d) !in a.files ==> n !in Kids(s, d)
    else OtherKid(s, d, n)
  }

  // What CreateParent does to one entry of the index.
  ghost predicate EntryGrows(s: FS, u: FS, r: Path, id: Id, d: Path, n: string) {
    && (n in Kids(s, d) ==> n in Kids(u, d))
    && (d + [n] == r ==> n in Kids(u, d) && Kids(u, d)[n] == id)
    && (n in Kids(u, d) && d + [n] != r && (d + [n] in s.files || !(d + [n] <= r)) ==>
          n in Kids(s, d) && Kids(u, d)[n] == Kids(s, d)[n])
    && (n in Kids(u, d) && d + [n] !in u.files && d + [n] != r ==> n in Kids(s, d))
  }

  lemma EntryAt(s: FS, r: Path, id: Id, d: Path, n: string)
    requires r != [] && ParentUsable(s, r)
    ensures EntryGrows(s, CreateParent(s, r, id), r, id, d, n)
  {
    CreateKidsGrow(s, r, id);
    if d + [n] == r {
      assert Dir(d + [n]) == d && Base(d + [n]) == n;
    }
  }

  lemma MovedBeforeGrows(ds: seq<Path>, q: Path, c: Path, x: Path)
    requires q !in ds
    ensures x != q ==> (MovedBefore(ds + [q], c, x) <==> MovedBefore(ds, c, x))
    ensures c != q ==> (MovedBefore(ds + [q], c, q) <==> c in ds)
    ensures !MovedBefore(ds, q, x)
  {
    var es := ds + [q];
    if MovedBefore(ds, c, x) {
      var i, j :| 0 <= i < j < |ds| && ds[i] == c && ds[j] == x;
      assert es[i] == c && es[j] == x;
    }
    if c in ds {
      var i :| 0 <= i < |ds| && ds[i] == c;
      assert es[i] == c && es[|ds|] == q;
    }
  }

  // Entries of directories still at their old place.
  lemma UnmovedStep(a: FS, s: FS, u: FS, ds: seq<Path>, from: Path, to: Path, q: Path, r: Path, id: Id, d: Path,
                    n: string)
    requires q in s.files && q != [] && q !in ds && d != r && from <= d
    requires EntryGrows(Relink(s, q, r), u, r, id, d, n) && !(d + [n] <= r)
    requires KidFits(a, s, from, to, ds, d, n)
    ensures KidFits(a, Unlink(u, q), from, to, ds + [q], d, n)
  {
    RelinkKids(s, q, r, d);
    UnlinkKids(u, q, d);
    if d + [n] == q {
      assert Dir(d + [n]) == d && Base(d + [n]) == n;
    } else {
      assert q == Dir(q) + [Base(q)];
    }
  }

  // Entries of the directory that is being moved.
  lemma MovingStep(a: FS, s: FS, u: FS, ds: seq<Path>, q: Path, r: Path, id: Id, n: string)
    requires q in s.files && q != [] && q !in ds && r != q && r != Dir(q)
    requires EntryGrows(Relink(s, q, r), u, r, id, r, n)
    requires UnmovedKid(a, s, ds, q, n)
    ensures MovedKid(a, Unlink(u, q), ds + [q], q, r, n)
  {
    RelinkKids(s, q, r, r);
    UnlinkKids(u, q, r);
    MovedBeforeGrows(ds, q, q + [n], q);
    assert |r + [n]| > |r|;
  }

  // Entries of directories moved before: c is the child of x that the entry is about.
  lemma MovedStep(a: FS, s: FS, u: FS, ds: seq<Path>, q: Path, r: Path, x: Path, d: Path, n: string)
    requires q in s.files && q != [] && q !in ds && q in a.files && d != r && d != q && d != Dir(q) && x != q
    requires EntryGrows(Relink(s, q, r), u, r, a.files[q], d, n)
    requires x + [n] == q <==> d + [n] == r
    requires x + [n] in ds ==> d + [n] in s.files
    requires d + [n] in u.files && d + [n] !in Relink(s, q, r).files ==> x + [n] in a.files && x + [n] !in ds
    requires MovedKid(a, s, ds, x, d, n)
    ensures MovedKid(a, Unlink(u, q), ds + [q], x, d, n)
  {
    RelinkKids(s, q, r, d);
    UnlinkKids(u, q, d);
    MovedBeforeGrows(ds, q, x + [n], x);
    if x + [n] !in ds {
      assert !MovedBefore(ds, x + [n], x);
    }
  }

  // Entries of directories away from the renaming.
  lemma OtherStep(s: FS, u: FS, q: Path, r: Path, id: Id, d: Path, n: string)
    requires q in s.files && q != [] && d != r && d != q && s.files[q] == id
    requires EntryGrows(Relink(s, q, r), u, r, id, d, n)
    requires GrowsAt(Relink(s, q, r), u, r, d + [n])
    requires d + [n] in u.files && d + [n] !in Relink(s, q, r).files ==> Listed(u, d + [n])
    requires d + [n] == r ==> r != q
    requires OtherKid(s, d, n)
    ensures OtherKid(Unlink(u, q), d, n)
  {
    RelinkKids(s, q, r, d);
    UnlinkKids(u, q, d);
    assert Dir(d + [n]) == d && Base(d + [n]) == n;
    assert q == Dir(q) + [Base(q)];
  }

  ghost function Moved(ds: seq<Path>): set<Path> {
    set p | p in ds
  }

  // New directories on the way are listed, and are where sources are still to come.
  lemma MadeAt(a: FS, s: FS, from: Path, to: Path, done: set<Path>, q: Path, c: Path)
    requires CanMove(a, s, from, to, done, q) && q in s.files && s.files[q] == a.files[q]
    ensures GrowsAt(Relink(s, q, Image(from, to, q)), Made(s, q, Image(from, to, q)), Image(from, to, q), c)
    ensures c in Made(s, q, Image(from, to, q)).files && c !in Relink(s, q, Image(from, to, q)).files ==>
              Listed(Made(s, q, Image(from, to, q)), c) && InterimPlace(a, from, to, done + {q}, c)
  {
    var r := Image(from, to, q);
    var s1, u := Relink(s, q, r), Made(s, q, r);
    CreateGrows(s1, r, s.files[q]);
    assert GrowsAt(s1, u, r, c);
    if c in u.files && c !in s1.files {
      TargetAncestorsAreDirs(a, s, from, to, done, q);
      RelinkIds(a, s, from, to, done, q);
      CreateListed(s1, r, s.files[q], c);
      AddedPlace(a, s, from, to, done, q, c);
    }
  }

  lemma Nonempty(a: FS, from: Path, to: Path, q: Path)
    requires CanRename(a, from, to) && Source(a, from, q)
    ensures q != [] && to != [] && Image(from, to, q) != [] && !(from <= Image(from, to, q)) && !(to <= q)
  {
    ImageFacts(from, to, q);
    Apart(a, from, to, Image(from, to, q));
    assert to != [];
  }

  // An entry's directory and name, and where they lie relative to the renaming.

  lemma SourceEntry(from: Path, r: Path, d: Path, n: string)
    ensures from <= d && !(from <= r) ==> !(d + [n] <= r) && d != r
  {
    PrefixTransitive(from, d + [n], r);
  }

  lemma TargetEntry(to: Path, q: Path, d: Path)
    ensures to <= d && !(to <= q) && q != [] ==> d != q && d != Dir(q)
  {
    assert Dir(q) <= q;
    PrefixTransitive(to, d, q);
  }

  lemma TargetChild(from: Path, to: Path, q: Path, d: Path, n: string)
    requires to <= d && from <= q
    ensures to <= d + [n] && Origin(from, to, d + [n]) == Origin(from, to, d) + [n]
    ensures Origin(from, to, d) + [n] == q <==> d + [n] == Image(from, to, q)
    ensures Origin(from, to, d) == q <==> d == Image(from, to, q)
  {
    ImageFacts(from, to, q);
    assert (d + [n])[|to|..] == d[|to|..] + [n];
    OriginFacts(from, to, d + [n]);
    OriginFacts(from, to, d);
  }

  lemma KidsAfter(a: FS, s: FS, from: Path, to: Path, ds: seq<Path>, q: Path, d: Path, n: string)
    requires CanMove(a, s, from, to, Moved(ds), q)
    requires KidFits(a, s, from, to, ds, d, n) && KidFits(a, s, from, to, ds, q, n)
    ensures KidFits(a, Move(s, q, Image(from, to, q)), from, to, ds + [q], d, n)
  {
    var r := Image(from, to, q);
    SourceInPlace(a, s, from, to, Moved(ds), q);
    MoveSucceeds(a, s, from, to, Moved(ds), q);
    Nonempty(a, from, to, q);
    var u := Made(s, q, r);
    EntryAt(Relink(s, q, r), r, a.files[q], d, n);
    if from <= d {
      SourceEntry(from, r, d, n);
      UnmovedStep(a, s, u, ds, from, to, q, r, a.files[q], d, n);
    } else if to <= d {
      TargetKidsAfter(a, s, u, from, to, ds, q, d, n);
    } else {
      OtherKidsAfter(a, s, u, from, to, ds, q, d, n);
    }
  }

  lemma OtherKidsAfter(a: FS, s: FS, u: FS, from: Path, to: Path, ds: seq<Path>, q: Path, d: Path, n: string)
    requires CanMove(a, s, from, to, Moved(ds), q) && q in s.files && s.files[q] == a.files[q] && q != []
    requires u == Made(s, q, Image(from, to, q)) && !(from <= d) && !(to <= d) && OtherKid(s, d, n)
    requires !(from <= Image(from, to, q))
    requires EntryGrows(Relink(s, q, Image(from, to, q)), u, Image(from, to, q), a.files[q], d, n)
    ensures OtherKid(Unlink(u, q), d, n)
  {
    MadeAt(a, s, from, to, Moved(ds), q, d + [n]);
    ImageFacts(from, to, q);
    OtherStep(s, u, q, Image(from, to, q), a.files[q], d, n);
  }

  lemma TargetKidsAfter(a: FS, s: FS, u: FS, from: Path, to: Path, ds: seq<Path>, q: Path, d: Path, n: string)
    requires CanMove(a, s, from, to, Moved(ds), q) && q in s.files && s.files[q] == a.files[q]
    requires q != [] && !(to <= q) && to <= d && !(from <= d) && u == Made(s, q, Image(from, to, q))
    requires KidFits(a, s, from, to, ds, d, n) && UnmovedKid(a, s, ds, q, n)
    requires EntryGrows(Relink(s, q, Image(from, to, q)), u, Image(from, to, q), a.files[q], d, n)
    ensures KidFits(a, Unlink(u, q), from, to, ds + [q], d, n)
  {
    TargetEntry(to, q, d);
    TargetChild(from, to, q, d, n);
    if Origin(from, to, d) == q {
      MovingStep(a, s, u, ds, q, d, a.files[q], n);
    } else if Origin(from, to, d) in ds {
      MovedKidsAfter(a, s, u, from, to, ds, q, d, n);
    } else if Origin(from, to, d) !in a.files {
      AbsentKidsAfter(a, s, u, from, to, q, d, n);
    }
  }

  lemma MovedKidsAfter(a: FS, s: FS, u: FS, from: Path, to: Path, ds: seq<Path>, q: Path, d: Path, n: string)
    requires CanMove(a, s, from, to, Moved(ds), q) && q in s.files && s.files[q] == a.files[q] && q != []
    requires to <= d && Origin(from, to, d) in ds && u == Made(s, q, Image(from, to, q))
    requires d != Image(from, to, q) && d != q && d != Dir(q)
    requires MovedKid(a, s, ds, Origin(from, to, d), d, n)
    requires EntryGrows(Relink(s, q, Image(from, to, q)), u, Image(from, to, q), a.files[q], d, n)
    ensures MovedKid(a, Unlink(u, q), ds + [q], Origin(from, to, d), d, n)
  {
    var c, x := d + [n], Origin(from, to, d);
    TargetChild(from, to, q, d, n);
    MadeAt(a, s, from, to, Moved(ds), q, c);
    assert Fits(a, s, from, to, Moved(ds), c);
    assert c !in a.files;
    assert |to| < |c|;
    MovedStep(a, s, u, ds, q, Image(from, to, q), x, d, n);
  }

  lemma AbsentKidsAfter(a: FS, s: FS, u: FS, from: Path, to: Path, q: Path, d: Path, n: string)
    requires Sound(a) && Source(a, from, q) && q in s.files && q != []
    requires to <= d && Origin(from, to, d) !in a.files && d != q && d != Dir(q)
    requires n !in Kids(s, d)
    requires EntryGrows(Relink(s, q, Image(from, to, q)), u, Image(from, to, q), a.files[q], d, n)
    ensures n !in Kids(Unlink(u, q), d)
  {
    var r := Image(from, to, q);
    RelinkKids(s, q, r, d);
    UnlinkKids(u, q, d);
    if d <= r {
      PrefixIsSource(a, from, to, q, d);
    }
    if d + [n] <= r {
      PrefixTransitive(d, d + [n], r);
    }
  }

  // The whole renaming.

  // The sources in the order of their moves: `from` first, each stored path below it once.
  ghost predicate MoveOrder(a: FS, from: Path, ds: seq<Path>) {
    && NoDuplicates(ds)
    && (forall p :: p in ds ==> Source(a, from, p))
    && (ds != [] ==> ds[0] == from)
  }

  ghost predicate StateAfter(a: FS, s: FS, from: Path, to: Path, ds: seq<Path>) {
    && Moving(a, s, from, to, Moved(ds))
    && forall d, n :: KidFits(a, s, from, to, ds, d, n)
  }

  lemma StateAtStart(a: FS, from: Path, to: Path)
    requires CanRename(a, from, to)
    ensures StateAfter(a, a, from, to, [])
  {
    MovingAtStart(a, from, to);
    assert Moved([]) == {};
    forall d, n
      ensures KidFits(a, a, from, to, [], d, n)
    {
      KidsAtStart(a, from, to, d, n);
    }
  }

  lemma StateStep(a: FS, s: FS, from: Path, to: Path, ds: seq<Path>, q: Path)
    requires StateAfter(a, s, from, to, ds) && CanRename(a, from, to)
    requires Follows(a, from, ds, q)
    ensures !MoveFails(s, q, Image(from, to, q))
    ensures StateAfter(a, Move(s, q, Image(from, to, q)), from, to, ds + [q])
  {
    assert q == from ==> Moved(ds) == {};
    MoveKeeps(a, s, from, to, Moved(ds), q);
    assert Moved(ds + [q]) == Moved(ds) + {q};
    forall d, n
      ensures KidFits(a, Move(s, q, Image(from, to, q)), from, to, ds + [q], d, n)
    {
      assert KidFits(a, s, from, to, ds, d, n) && KidFits(a, s, from, to, ds, q, n);
      KidsAfter(a, s, from, to, ds, q, d, n);
    }
  }

  ghost predicate PlayedWell(a: FS, from: Path, to: Path, ds: seq<Path>) {
    && !Play(a, from, to, ds).failed
    && StateAfter(a, Play(a, from, to, ds).fs, from, to, ds)
  }

  ghost predicate Follows(a: FS, from: Path, ds: seq<Path>, q: Path) {
    Source(a, from, q) && q !in ds && if q == from then ds == [] else from in ds
  }

  lemma PlayMore(a: FS, from: Path, to: Path, ds: seq<Path>, q: Path)
    requires CanRename(a, from, to) && Follows(a, from, ds, q) && PlayedWell(a, from, to, ds)
    ensures PlayedWell(a, from, to, ds + [q])
  {
    assert (ds + [q])[..|ds|] == ds;
    StateStep(a, Play(a, from, to, ds).fs, from, to, ds, q);
  }

  lemma {:induction false} PlayKeeps(a: FS, from: Path, to: Path, ds: seq<Path>)
    requires CanRename(a, from, to) && MoveOrder(a, from, ds)
    ensures PlayedWell(a, from, to, ds)
  {
    if ds == [] {
      StateAtStart(a, from, to);
    } else {
      LastOfOrder(a, from, ds);
      PlayKeeps(a, from, to, ds[..|ds| - 1]);
      PlayMore(a, from, to, ds[..|ds| - 1], ds[|ds| - 1]);
    }
  }

  lemma LastOfOrder(a: FS, from: Path, ds: seq<Path>)
    requires MoveOrder(a, from, ds) && ds != []
    ensures MoveOrder(a, from, ds[..|ds| - 1]) && Follows(a, from, ds[..|ds| - 1], ds[|ds| - 1])
    ensures ds[..|ds| - 1] + [ds[|ds| - 1]] == ds
  {
    var before := ds[..|ds| - 1];
    assert before != [] ==> before[0] == from;
  }

  lemma KidsAtStart(a: FS, from: Path, to: Path, d: Path, n: string)
    requires CanRename(a, from, to)
    ensures KidFits(a, a, from, to, [], d, n)
  {
    SoundMeans(a, d, n);
    if to <= d {
      PrefixTransitive(to, d, d + [n]);
    }
  }

  lemma {:induction false} OthersDistinct(from: Path, order: seq<Path>)
    requires NoDuplicates(order)
    ensures NoDuplicates(Others(from, order))
  {
    if order != [] {
      var before := order[..|order| - 1];
      OthersDistinct(from, before);
      assert order[|order| - 1] !in before;
    }
  }

  lemma SourcesAre(a: FS, from: Path, order: seq<Path>)
    requires from in a.files && Enumerates(order, a) && NoTextSibling(a, from)
    ensures MoveOrder(a, from, Sources(from, order))
    ensures forall p :: p in Sources(from, order) <==> Source(a, from, p)
  {
    OthersDistinct(from, order);
    forall p
      ensures p in Sources(from, order) <==> Source(a, from, p)
    {
      if from <= p {
        PrefixIsText(from, p);
      }
    }
  }

  lemma PrefixIsText(from: Path, p: Path)
    ensures from <= p ==> TextPrefix(from, p)
  {
    if from <= p && from != [] {
      assert p[..|from| - 1] == from[..|from| - 1];
    }
  }

  // The path map that renaming should leave, and its objects' names: the subtree is at its new
  // place under the same objects, missing ancestors of `to` are new directories, nothing else moved.
  ghost predicate RenamedAt(a: FS, t: FS, from: Path, to: Path, k: Path) {
    if k in a.files && !(from <= k) then k in t.files && t.files[k] == a.files[k]
    else if to <= k && Origin(from, to, k) in a.files then k in t.files && t.files[k] == a.files[Origin(from, to, k)]
    else if k < to then k in t.files && t.files[k] >= a.next && t.files[k] in t.nodes
      && t.nodes[t.files[k]] == Node(Base(k), true)
    else k !in t.files
  }

  ghost predicate Renamed(a: FS, t: FS, from: Path, to: Path) {
    && (forall k :: RenamedAt(a, t, from, to, k))
    && (forall p :: p in a.files ==> a.files[p] in t.nodes && IsDir(t, a.files[p]) == IsDir(a, a.files[p]))
    && (forall k :: k in t.files ==> t.files[k] in t.nodes && t.nodes[t.files[k]].name == Base(k))
  }

  // The end of a renaming: every source has been moved.
  ghost predicate AllMoved(a: FS, t: FS, from: Path, to: Path, done: set<Path>) {
    && CanRename(a, from, to)
    && Moving(a, t, from, to, done)
    && forall p :: p in done <==> Source(a, from, p)
  }

  lemma {:induction false} AncestorMade(a: FS, t: FS, from: Path, to: Path, done: set<Path>, k: Path, l: Path)
    requires AllMoved(a, t, from, to, done) && k <= l && l <= to && l in t.files
    ensures k in t.files
    decreases |l|
  {
    if k != l {
      assert Rooted(t, to, l);
      AncestorMade(a, t, from, to, done, k, Dir(l));
    }
  }

  lemma RenamedThere(a: FS, t: FS, from: Path, to: Path, done: set<Path>, k: Path)
    requires AllMoved(a, t, from, to, done)
    ensures RenamedAt(a, t, from, to, k)
  {
    assert Fits(a, t, from, to, done, k);
    if to <= k {
      OriginFacts(from, to, k);
    }
    if OnTargetSide(to, k) {
      Apart(a, from, to, k);
    }
    if k < to {
      TargetStored(a, t, from, to, done);
      AncestorMade(a, t, from, to, done, k, to);
    }
  }

  lemma NameThere(a: FS, t: FS, from: Path, to: Path, done: set<Path>, k: Path)
    requires AllMoved(a, t, from, to, done) && k in t.files
    ensures t.files[k] in t.nodes && t.nodes[t.files[k]].name == Base(k)
  {
    assert Fits(a, t, from, to, done, k) && NodeFits(a, t, from, to, done, k);
    if to <= k {
      var p := Origin(from, to, k);
      OriginFacts(from, to, k);
      ImageFacts(from, to, p);
      assert NodeFits(a, t, from, to, done, p);
    }
  }

  lemma AllMovedMeans(a: FS, t: FS, from: Path, to: Path, done: set<Path>)
    requires AllMoved(a, t, from, to, done)
    ensures Renamed(a, t, from, to)
  {
    forall k
      ensures RenamedAt(a, t, from, to, k)
    {
      RenamedThere(a, t, from, to, done, k);
    }
    forall k | k in t.files
      ensures t.files[k] in t.nodes && t.nodes[t.files[k]].name == Base(k)
    {
      NameThere(a, t, from, to, done, k);
    }
    forall p | p in a.files
      ensures a.files[p] in t.nodes && IsDir(t, a.files[p]) == IsDir(a, a.files[p])
    {
      assert NodeFits(a, t, from, to, done, p);
    }
  }

  // Renaming moves a whole subtree, for every iteration order.
  lemma RenameMovesSubtree(a: FS, from: Path, to: Path, order: seq<Path>)
    requires CanRename(a, from, to) && NoTextSibling(a, from) && Enumerates(order, a)
    ensures !Rename(a, from, to, order).failed
    ensures Renamed(a, Rename(a, from, to, order).fs, from, to)
  {
    var ds := Sources(from, order);
    SourcesAre(a, from, order);
    PlayKeeps(a, from, to, ds);
    AllMovedMeans(a, Rename(a, from, to, order).fs, from, to, Moved(ds));
  }

  // The children index after a renaming.

  // In the iteration order, directories strictly below `from` come before their children.
  ghost predicate ParentsFirst(a: FS, from: Path, order: seq<Path>) {
    forall p, n :: from < p && p in a.files && p + [n] in a.files ==> !MovedBefore(order, p + [n], p)
  }

  lemma {:induction false} OthersKeepOrder(from: Path, order: seq<Path>, c: Path, p: Path)
    requires c != from && p != from && TextPrefix(from, c) && TextPrefix(from, p)
    ensures MovedBefore(Others(from, order), c, p) <==> MovedBefore(order, c, p)
  {
    if order != [] {
      var before, last := order[..|order| - 1], order[|order| - 1];
      OthersKeepOrder(from, before, c, p);
      assert order == before + [last];
      AppendOrder(before, last, c, p);
      AppendOrder(Others(from, before), last, c, p);
    }
  }

  lemma AppendOrder(s: seq<Path>, x: Path, c: Path, p: Path)
    ensures MovedBefore(s + [x], c, p) <==> MovedBefore(s, c, p) || (x == p && c in s)
  {
    var t := s + [x];
    if MovedBefore(s, c, p) {
      var i, j :| 0 <= i < j < |s| && s[i] == c && s[j] == p;
      assert t[i] == c && t[j] == p;
    }
    if x == p && c in s {
      var i :| 0 <= i < |s| && s[i] == c;
      assert t[i] == c && t[|s|] == p;
    }
  }

  lemma SourcesKeepOrder(from: Path, order: seq<Path>, c: Path, p: Path)
    requires c != from && TextPrefix(from, c) && TextPrefix(from, p)
    ensures MovedBefore(Sources(from, order), c, p) <==> p != from && MovedBefore(order, c, p)
  {
    var others, all := Others(from, order), Sources(from, order);
    if p != from {
      OthersKeepOrder(from, order, c, p);
    }
    if MovedBefore(all, c, p) {
      var i, j :| 0 <= i < j < |all| && all[i] == c && all[j] == p;
      assert others[i - 1] == c && others[j - 1] == p;
    }
    if MovedBefore(others, c, p) {
      var i, j :| 0 <= i < j < |others| && others[i] == c && others[j] == p;
      assert all[i + 1] == c && all[j + 1] == p;
    }
  }

  ghost predicate NoChildBefore(a: FS, from: Path, ds: seq<Path>) {
    forall p, n :: Source(a, from, p) && p + [n] in a.files ==> !MovedBefore(ds, p + [n], p)
  }

  lemma ChildBeforeIs(a: FS, from: Path, order: seq<Path>)
    requires Enumerates(order, a) && from in a.files
    ensures NoChildBefore(a, from, Sources(from, order)) <==> ParentsFirst(a, from, order)
  {
    forall p, n | Source(a, from, p) && p + [n] in a.files
      ensures MovedBefore(Sources(from, order), p + [n], p) <==> p != from && MovedBefore(order, p + [n], p)
    {
      assert from <= p + [n];
      PrefixIsText(from, p + [n]);
      PrefixIsText(from, p);
      SourcesKeepOrder(from, order, p + [n], p);
    }
    if ParentsFirst(a, from, order) {
      forall p, n | Source(a, from, p) && p + [n] in a.files
        ensures !MovedBefore(Sources(from, order), p + [n], p)
      {
      }
    } else {
      var p, n :| from < p && p in a.files && p + [n] in a.files && MovedBefore(order, p + [n], p);
      assert Source(a, from, p);
    }
  }

  // A place at or below `from` is empty in the end, one below `to` holds the source it came from.
  lemma EndPlace(a: FS, t: FS, from: Path, to: Path, done: set<Path>, c: Path)
    requires AllMoved(a, t, from, to, done)
    ensures from <= c ==> c !in t.files
    ensures to < c ==> (c in t.files <==> Origin(from, to, c) in a.files)
    ensures to < c && c in t.files ==> t.files[c] == a.files[Origin(from, to, c)]
  {
    RenamedThere(a, t, from, to, done, c);
    if OnTargetSide(to, c) {
      Apart(a, from, to, c);
    }
  }

  lemma EndTargetEntry(a: FS, t: FS, ds: seq<Path>, x: Path, d: Path, n: string)
    requires x in a.files && x + [n] in a.files ==> !MovedBefore(ds, x + [n], x)
    requires x in a.files ==> x in ds
    requires x + [n] in a.files ==> x in a.files && x + [n] in ds
    requires if x in ds then MovedKid(a, t, ds, x, d, n) else x !in a.files ==> n !in Kids(t, d)
    ensures n in Kids(t, d) <==> x + [n] in a.files
    ensures n in Kids(t, d) ==> Kids(t, d)[n] == a.files[x + [n]]
  {
  }

  lemma EndEntry(a: FS, t: FS, from: Path, to: Path, ds: seq<Path>, d: Path, n: string)
    requires AllMoved(a, t, from, to, Moved(ds)) && NoChildBefore(a, from, ds)
    requires KidFits(a, t, from, to, ds, d, n)
    ensures OtherKid(t, d, n)
  {
    EndPlace(a, t, from, to, Moved(ds), d + [n]);
    assert d in Moved(ds) <==> d in ds;
    if to <= d && !(from <= d) {
      EndEntryBelowTarget(a, t, from, to, ds, d, n);
    } else if from <= d {
      assert from <= d + [n];
    }
  }

  lemma EndEntryBelowTarget(a: FS, t: FS, from: Path, to: Path, ds: seq<Path>, d: Path, n: string)
    requires AllMoved(a, t, from, to, Moved(ds)) && NoChildBefore(a, from, ds) && to <= d
    requires if Origin(from, to, d) in ds then MovedKid(a, t, ds, Origin(from, to, d), d, n)
             else Origin(from, to, d) !in a.files ==> n !in Kids(t, d)
    ensures OtherKid(t, d, n)
  {
    EndPlace(a, t, from, to, Moved(ds), d + [n]);
    TargetChild(from, to, from, d, n);
    OriginFacts(from, to, d);
    var x := Origin(from, to, d);
    assert x in Moved(ds) <==> x in ds;
    assert x + [n] in Moved(ds) <==> x + [n] in ds;
    assert from <= x + [n] && to < d + [n];
    SoundMeans(a, x, n);
    EndTargetEntry(a, t, ds, x, d, n);
  }

  lemma EndParent(a: FS, t: FS, from: Path, to: Path, done: set<Path>, k: Path)
    requires AllMoved(a, t, from, to, done) && k in t.files
    ensures HasParent(t, k)
  {
    assert Rooted(t, to, k);
    if !OnTargetSide(to, k) && k != [] {
      assert Fits(a, t, from, to, done, k);
      assert HasParent(a, k);
      assert Fits(a, t, from, to, done, Dir(k)) && NodeFits(a, t, from, to, done, Dir(k));
      if from <= Dir(k) {
        PrefixTransitive(from, Dir(k), k);
      }
    }
  }

  lemma EndDistinct(a: FS, t: FS, from: Path, to: Path, done: set<Path>, k: Path, l: Path)
    requires AllMoved(a, t, from, to, done) && k in t.files && l in t.files && t.files[k] == t.files[l]
    ensures k == l
  {
    assert Fits(a, t, from, to, done, k) && Fits(a, t, from, to, done, l) && FreshDistinct(a, t, k, l);
    if to <= k {
      OriginFacts(from, to, k);
      Apart(a, from, to, k);
    }
    if to <= l {
      OriginFacts(from, to, l);
      Apart(a, from, to, l);
    }
  }

  lemma EndNamed(a: FS, t: FS, from: Path, to: Path, done: set<Path>)
    requires AllMoved(a, t, from, to, done)
    ensures Named(t)
  {
    forall k | k in t.files
      ensures t.files[k] < t.next && t.files[k] in t.nodes && t.nodes[t.files[k]].name == Base(k)
    {
      assert IdBelow(t, k);
      NameThere(a, t, from, to, done, k);
    }
    forall k, l | k in t.files && l in t.files && t.files[k] == t.files[l]
      ensures k == l
    {
      EndDistinct(a, t, from, to, done, k, l);
    }
  }

  lemma EndSound(a: FS, t: FS, from: Path, to: Path, ds: seq<Path>)
    requires AllMoved(a, t, from, to, Moved(ds)) && NoChildBefore(a, from, ds)
    requires forall d, n :: KidFits(a, t, from, to, ds, d, n)
    ensures Sound(t)
  {
    EndNamed(a, t, from, to, Moved(ds));
    forall d, n
      ensures OtherKid(t, d, n)
    {
      EndEntry(a, t, from, to, ds, d, n);
    }
    forall k | k in t.files
      ensures HasParent(t, k)
    {
      EndParent(a, t, from, to, Moved(ds), k);
    }
    AllListed(t);
  }

  lemma AllStored(t: FS)
    requires forall d, n :: OtherKid(t, d, n)
    ensures ListsOnlyStored(t)
  {
    forall d, n | n in Kids(t, d)
      ensures d + [n] in t.files && Kids(t, d)[n] == t.files[d + [n]]
    {
      assert OtherKid(t, d, n);
    }
  }

  lemma IsListed(t: FS, k: Path)
    requires k in t.files && (k != [] ==> OtherKid(t, Dir(k), Base(k)))
    ensures Listed(t, k)
  {
    if k != [] {
      assert k == Dir(k) + [Base(k)];
    }
  }

  lemma AllListed(t: FS)
    requires Named(t)
    requires forall d, n :: OtherKid(t, d, n)
    requires forall k :: k in t.files ==> HasParent(t, k)
    ensures Sound(t)
  {
    AllStored(t);
    forall k | k in t.files
      ensures Listed(t, k)
    {
      assert k != [] ==> OtherKid(t, Dir(k), Base(k));
      IsListed(t, k);
    }
  }

  // A child moved before its parent is stored but no longer listed.
  lemma ChildFirstUnsound(a: FS, t: FS, from: Path, to: Path, ds: seq<Path>, p: Path, n: string)
    requires AllMoved(a, t, from, to, Moved(ds)) && Source(a, from, p) && p + [n] in a.files
             && MovedBefore(ds, p + [n], p)
    requires KidFits(a, t, from, to, ds, Image(from, to, p), n)
    ensures !Sound(t)
  {
    var d := Image(from, to, p);
    ImageFacts(from, to, p);
    Apart(a, from, to, d);
    TargetChild(from, to, p, d, n);
    assert p in Moved(ds) && p + [n] in Moved(ds) by {
      assert from <= p + [n];
    }
    assert Fits(a, t, from, to, Moved(ds), d + [n]);
    if Sound(t) {
      SoundMeans(t, d, n);
      if d + [n] in a.files {
        PrefixTransitive(to, d, d + [n]);
      }
    }
  }

  // The index is exact after a renaming iff the map iteration happened to yield every directory
  // strictly below `from` before its children.
  lemma RenameIndexExactIff(a: FS, from: Path, to: Path, order: seq<Path>)
    requires CanRename(a, from, to) && NoTextSibling(a, from) && Enumerates(order, a)
    ensures Sound(Rename(a, from, to, order).fs) <==> ParentsFirst(a, from, order)
  {
    var ds := Sources(from, order);
    var t := Rename(a, from, to, order).fs;
    SourcesAre(a, from, order);
    PlayKeeps(a, from, to, ds);
    ChildBeforeIs(a, from, order);
    if ParentsFirst(a, from, order) {
      EndSound(a, t, from, to, ds);
    } else {
      var p, n :| Source(a, from, p) && p + [n] in a.files && MovedBefore(ds, p + [n], p);
      ChildFirstUnsound(a, t, from, to, ds, p, n);
    }
  }

  // Nothing is stored two or more levels below `from`.
  ghost predicate Shallow(a: FS, from: Path) {
    forall p :: Source(a, from, p) ==> |p| <= |from| + 1
  }

  lemma ShallowParentsFirst(a: FS, from: Path, order: seq<Path>)
    requires Shallow(a, from)
    ensures ParentsFirst(a, from, order)
  {
    forall p: Path, n | from < p
      ensures p + [n] !in a.files
    {
      assert from <= p + [n] && |p + [n]| > |from| + 1;
      assert !Source(a, from, p + [n]);
    }
  }

  // The iteration may well yield a child before its parent.
  lemma ChildFirstOrder(a: FS, from: Path, p: Path, n: string) returns (order: seq<Path>)
    requires from < p && p in a.files && p + [n] in a.files
    ensures Enumerates(order, a) && !ParentsFirst(a, from, order)
  {
    var rest := SomeListing(a.files.Keys - {p + [n], p});
    order := [p + [n], p] + rest;
    assert order[0] == p + [n] && order[1] == p;
    assert MovedBefore(order, p + [n], p);
  }

  lemma DeepUnsound(a: FS, from: Path, to: Path, q: Path) returns (order: seq<Path>)
    requires CanRename(a, from, to) && NoTextSibling(a, from) && Source(a, from, q) && |q| > |from| + 1
    ensures Enumerates(order, a) && !Sound(Rename(a, from, to, order).fs)
  {
    assert q == Dir(q) + [Base(q)] && from < Dir(q) && Dir(q) < q;
    AncestorsStored(a, q, Dir(q));
    order := ChildFirstOrder(a, from, Dir(q), Base(q));
    RenameIndexExactIff(a, from, to, order);
  }

  // So no iteration order does harm, exactly if nothing is stored two or more levels below `from`.
  lemma RenameAlwaysExactIff(a: FS, from: Path, to: Path)
    requires CanRename(a, from, to) && NoTextSibling(a, from)
    ensures (forall order | Enumerates(order, a) :: Sound(Rename(a, from, to, order).fs)) <==> Shallow(a, from)
  {
    if Shallow(a, from) {
      forall order | Enumerates(order, a)
        ensures Sound(Rename(a, from, to, order).fs)
      {
        ShallowParentsFirst(a, from, order);
        RenameIndexExactIff(a, from, to, order);
      }
    } else {
      var q :| Source(a, from, q) && |q| > |from| + 1;
      var order := DeepUnsound(a, from, to, q);
    }
  }
}
